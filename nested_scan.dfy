/** The loop shapes the document-store queries share. A filter visits the
    documents of one collection and keeps those meeting a condition; a
    nested filter does so over the inner collection once per outer
    document; a de-duplicating scan visits, for every outer document, every
    inner document and adds the inner one to a list when a condition holds
    and the list does not contain it yet. Inserted documents carry distinct
    ids, so `contains` on them compares positions; a pick records the outer
    position and the inner position added. */
module NestedScan {

  /** The documents of xs meeting keep, in collection order. */
  function Filter<T>(keep: T -> bool, xs: seq<T>): seq<T>
    decreases |xs|
  {
    if xs == [] then []
    else Filter(keep, xs[..|xs| - 1]) + (if keep(xs[|xs| - 1]) then [xs[|xs| - 1]] else [])
  }

  method FilterLoop<T>(keep: T -> bool, xs: seq<T>) returns (out: seq<T>)
    ensures out == Filter(keep, xs)
  {
    out := [];
    for i := 0 to |xs|
      invariant out == Filter(keep, xs[..i])
    {
      assert xs[..i + 1][..i] == xs[..i];
      if keep(xs[i]) {
        out := out + [xs[i]];
      }
    }
    assert xs[..|xs|] == xs;
  }

  /** The number of documents at the front of xs meeting ok. */
  function Until<T>(ok: T -> bool, xs: seq<T>): (k: nat)
    ensures k <= |xs|
    ensures forall j | 0 <= j < k :: ok(xs[j])
    ensures k < |xs| ==> !ok(xs[k])
  {
    if xs == [] || !ok(xs[0]) then 0 else 1 + Until(ok, xs[1..])
  }

  /** A filter whose visit stops at the first document failing ok, where the
      loop throws: what it kept so far and where it stopped. */
  method FilterUntilLoop<T>(ok: T -> bool, keep: T -> bool, xs: seq<T>) returns (out: seq<T>, k: nat)
    ensures k == Until(ok, xs) && out == Filter(keep, xs[..k])
  {
    out := [];
    k := 0;
    while k < |xs|
      invariant k <= Until(ok, xs)
      invariant out == Filter(keep, xs[..k])
    {
      if !ok(xs[k]) {
        return;
      }
      assert xs[..k + 1][..k] == xs[..k];
      if keep(xs[k]) {
        out := out + [xs[k]];
      }
      k := k + 1;
    }
  }

  /** A filter keeps every copy of a document meeting the condition and no
      copy of one that does not. */
  lemma {:induction false} FilterCounts<T>(keep: T -> bool, xs: seq<T>)
    ensures forall x :: multiset(Filter(keep, xs))[x] == if keep(x) then multiset(xs)[x] else 0
    ensures forall x :: x in Filter(keep, xs) <==> x in xs && keep(x)
    decreases |xs|
  {
    if xs != [] {
      var n := |xs| - 1;
      FilterCounts(keep, xs[..n]);
      assert xs == xs[..n] + [xs[n]];
      assert multiset(xs) == multiset(xs[..n]) + multiset{xs[n]};
    }
  }

  /** The condition p with its first argument fixed to x. */
  function Fix<A, B>(p: (A, B) -> bool, x: A): B -> bool
  {
    y => p(x, y)
  }

  /** For every outer document in turn, the inner documents it matches. */
  function NestedFilter<A, B>(p: (A, B) -> bool, xs: seq<A>, ys: seq<B>): seq<B>
    decreases |xs|
  {
    if xs == [] then []
    else NestedFilter(p, xs[..|xs| - 1], ys) + Filter(Fix(p, xs[|xs| - 1]), ys)
  }

  method NestedFilterLoop<A, B>(p: (A, B) -> bool, xs: seq<A>, ys: seq<B>) returns (out: seq<B>)
    ensures out == NestedFilter(p, xs, ys)
  {
    out := [];
    for i := 0 to |xs|
      invariant out == NestedFilter(p, xs[..i], ys)
    {
      assert xs[..i + 1][..i] == xs[..i];
      var row := FilterLoop(Fix(p, xs[i]), ys);
      out := out + row;
    }
    assert xs[..|xs|] == xs;
  }

  /** The number of outer documents matching y. */
  function Matches<A, B>(p: (A, B) -> bool, xs: seq<A>, y: B): nat
    decreases |xs|
  {
    if xs == [] then 0
    else Matches(p, xs[..|xs| - 1], y) + (if p(xs[|xs| - 1], y) then 1 else 0)
  }

  /** An inner document appears once per outer document matching it, for
      each of its copies. */
  lemma {:induction false} NestedFilterCounts<A, B>(p: (A, B) -> bool, xs: seq<A>, ys: seq<B>, y: B)
    ensures multiset(NestedFilter(p, xs, ys))[y] == multiset(ys)[y] * Matches(p, xs, y)
    decreases |xs|
  {
    if xs != [] {
      var n := |xs| - 1;
      NestedFilterCounts(p, xs[..n], ys, y);
      NestedFilterStep(p, xs, ys, y);
      MulStep(multiset(ys)[y], Matches(p, xs[..n], y), p(xs[n], y));
    }
  }

  /** The last outer document adds every copy of y it matches. */
  lemma NestedFilterStep<A, B>(p: (A, B) -> bool, xs: seq<A>, ys: seq<B>, y: B)
    requires xs != []
    ensures multiset(NestedFilter(p, xs, ys))[y]
      == multiset(NestedFilter(p, xs[..|xs| - 1], ys))[y] + (if p(xs[|xs| - 1], y) then multiset(ys)[y] else 0)
    ensures Matches(p, xs, y) == Matches(p, xs[..|xs| - 1], y) + (if p(xs[|xs| - 1], y) then 1 else 0)
  {
    var n := |xs| - 1;
    var init := NestedFilter(p, xs[..n], ys);
    var row := Filter(Fix(p, xs[n]), ys);
    FilterCounts(Fix(p, xs[n]), ys);
    assert Fix(p, xs[n])(y) == p(xs[n], y);
    assert multiset(init + row) == multiset(init) + multiset(row);
  }

  lemma MulStep(m: nat, c: nat, b: bool)
    ensures m * c + (if b then m else 0) == m * (c + if b then 1 else 0)
  {
  }

  /** The documents of ys at the positions idx, in that order. */
  function Select<B>(ys: seq<B>, idx: seq<nat>): (r: seq<B>)
    requires forall k | 0 <= k < |idx| :: idx[k] < |ys|
    ensures |r| == |idx| && forall k | 0 <= k < |idx| :: r[k] == ys[idx[k]]
  {
    seq(|idx|, k requires 0 <= k < |idx| => ys[idx[k]])
  }

  type Pick = (nat, nat)

  predicate NoDup<T(==)>(xs: seq<T>)
  {
    forall i, j | 0 <= i < j < |xs| :: xs[i] != xs[j]
  }

  /** The inner positions picked, in order. */
  function Inner(acc: seq<Pick>): (r: seq<nat>)
    ensures |r| == |acc| && forall k | 0 <= k < |acc| :: r[k] == acc[k].1
  {
    seq(|acc|, k requires 0 <= k < |acc| => acc[k].1)
  }

  lemma InnerAppend(acc: seq<Pick>, p: Pick)
    ensures Inner(acc + [p]) == Inner(acc) + [p.1]
  {
  }

  /** The scan of the first m inner documents for the outer document x at
      position i, adding to acc. */
  function Scan<A, B>(p: (A, B) -> bool, i: nat, x: A, ys: seq<B>, m: nat, acc: seq<Pick>): seq<Pick>
    requires m <= |ys|
    decreases m
  {
    if m == 0 then acc
    else
      var a := Scan(p, i, x, ys, m - 1, acc);
      if p(x, ys[m - 1]) && m - 1 !in Inner(a) then a + [(i, m - 1)] else a
  }

  /** The list after the outer loop has visited every document of xs. */
  function Collect<A, B>(p: (A, B) -> bool, xs: seq<A>, ys: seq<B>): seq<Pick>
    decreases |xs|
  {
    if xs == [] then []
    else Scan(p, |xs| - 1, xs[|xs| - 1], ys, |ys|, Collect(p, xs[..|xs| - 1], ys))
  }

  /** The inner loop. */
  method ScanLoop<A, B>(p: (A, B) -> bool, i: nat, x: A, ys: seq<B>, acc: seq<Pick>) returns (a: seq<Pick>)
    ensures a == Scan(p, i, x, ys, |ys|, acc)
  {
    a := acc;
    for j := 0 to |ys|
      invariant a == Scan(p, i, x, ys, j, acc)
    {
      if p(x, ys[j]) && j !in Inner(a) {
        a := a + [(i, j)];
      }
    }
  }

  /** The outer loop. */
  method CollectLoop<A, B>(p: (A, B) -> bool, xs: seq<A>, ys: seq<B>) returns (acc: seq<Pick>)
    ensures acc == Collect(p, xs, ys)
  {
    acc := [];
    for i := 0 to |xs|
      invariant acc == Collect(p, xs[..i], ys)
    {
      assert xs[..i + 1][..i] == xs[..i];
      acc := ScanLoop(p, i, xs[i], ys, acc);
    }
    assert xs[..|xs|] == xs;
  }

  /** A scan keeps acc as a prefix and appends only picks for x at position
      i, of inner positions not picked before whose documents meet the
      condition. */
  lemma {:induction false} ScanAppends<A, B>(p: (A, B) -> bool, i: nat, x: A, ys: seq<B>, m: nat, acc: seq<Pick>)
    requires m <= |ys| && NoDup(Inner(acc))
    ensures var r := Scan(p, i, x, ys, m, acc);
      && |acc| <= |r| && r[..|acc|] == acc
      && NoDup(Inner(r))
      && (forall k | |acc| <= k < |r| :: r[k].0 == i && r[k].1 < m && p(x, ys[r[k].1]) && r[k].1 !in Inner(acc))
    decreases m
  {
    if m > 0 {
      ScanAppends(p, i, x, ys, m - 1, acc);
      var a := Scan(p, i, x, ys, m - 1, acc);
      if p(x, ys[m - 1]) && m - 1 !in Inner(a) {
        InnerAppend(a, (i, m - 1));
        assert (a + [(i, m - 1)])[..|acc|] == a[..|acc|];
      }
    }
  }

  /** After a scan of the first m inner documents, a position below m is
      picked iff it was before or its document matches x; the others are
      picked iff they were before. */
  lemma {:induction false} ScanCovers<A, B>(p: (A, B) -> bool, i: nat, x: A, ys: seq<B>, m: nat, acc: seq<Pick>)
    requires m <= |ys|
    ensures var r := Scan(p, i, x, ys, m, acc);
      && (forall j | 0 <= j < m :: j in Inner(r) <==> j in Inner(acc) || p(x, ys[j]))
      && (forall j | m <= j :: j in Inner(r) <==> j in Inner(acc))
    decreases m
  {
    if m > 0 {
      ScanCovers(p, i, x, ys, m - 1, acc);
      var a := Scan(p, i, x, ys, m - 1, acc);
      if p(x, ys[m - 1]) && m - 1 !in Inner(a) {
        InnerAppend(a, (i, m - 1));
      }
    }
  }

  /** Every pick's documents meet the condition, and no outer document
      before the pick's own matches its inner document. */
  predicate FirstMatches<A, B>(p: (A, B) -> bool, xs: seq<A>, ys: seq<B>, acc: seq<Pick>)
  {
    && (forall k | 0 <= k < |acc| :: acc[k].0 < |xs| && acc[k].1 < |ys| && p(xs[acc[k].0], ys[acc[k].1]))
    && (forall k, i | 0 <= k < |acc| && 0 <= i < acc[k].0 :: !p(xs[i], ys[acc[k].1]))
  }

  /** Some outer document matches y. */
  predicate Matched<A, B>(p: (A, B) -> bool, xs: seq<A>, y: B)
  {
    exists i | 0 <= i < |xs| :: p(xs[i], y)
  }

  lemma MatchedSnoc<A, B>(p: (A, B) -> bool, xs: seq<A>, y: B)
    requires xs != []
    ensures Matched(p, xs, y) == (Matched(p, xs[..|xs| - 1], y) || p(xs[|xs| - 1], y))
  {
    var n := |xs| - 1;
    if Matched(p, xs[..n], y) {
      var i :| 0 <= i < n && p(xs[..n][i], y);
      assert p(xs[i], y);
    }
    if i :| 0 <= i < n && p(xs[i], y) {
      assert p(xs[..n][i], y);
    }
  }

  /** The inner positions picked are exactly those some outer document
      matches. */
  predicate Covers<A, B>(p: (A, B) -> bool, xs: seq<A>, ys: seq<B>, acc: seq<Pick>)
  {
    && (forall j | 0 <= j < |ys| :: j in Inner(acc) <==> Matched(p, xs, ys[j]))
    && (forall j | j in Inner(acc) :: j < |ys|)
  }

  /** What holds of the list once the outer loop has visited xs. */
  predicate Picked<A, B>(p: (A, B) -> bool, xs: seq<A>, ys: seq<B>, acc: seq<Pick>)
  {
    NoDup(Inner(acc)) && FirstMatches(p, xs, ys, acc) && Covers(p, xs, ys, acc)
  }

  /** Picks made over a prefix of the outer documents stay first matches
      over all of them. */
  lemma FirstMatchesExtend<A, B>(p: (A, B) -> bool, xs: seq<A>, n: nat, ys: seq<B>, acc: seq<Pick>)
    requires n <= |xs| && FirstMatches(p, xs[..n], ys, acc)
    ensures FirstMatches(p, xs, ys, acc)
  {
    forall k | 0 <= k < |acc|
      ensures p(xs[acc[k].0], ys[acc[k].1])
      ensures forall i | 0 <= i < acc[k].0 :: !p(xs[i], ys[acc[k].1])
    {
      assert xs[..n][acc[k].0] == xs[acc[k].0];
      forall i | 0 <= i < acc[k].0 ensures !p(xs[i], ys[acc[k].1]) {
        assert xs[..n][i] == xs[i];
      }
    }
  }

  lemma FirstMatchesStep<A, B>(p: (A, B) -> bool, xs: seq<A>, ys: seq<B>)
    requires xs != []
    requires NoDup(Inner(Collect(p, xs[..|xs| - 1], ys)))
    requires FirstMatches(p, xs[..|xs| - 1], ys, Collect(p, xs[..|xs| - 1], ys))
    requires Covers(p, xs[..|xs| - 1], ys, Collect(p, xs[..|xs| - 1], ys))
    ensures NoDup(Inner(Collect(p, xs, ys)))
    ensures FirstMatches(p, xs, ys, Collect(p, xs, ys))
  {
    var n := |xs| - 1;
    var acc := Collect(p, xs[..n], ys);
    var r := Collect(p, xs, ys);
    ScanAppends(p, n, xs[n], ys, |ys|, acc);
    FirstMatchesExtend(p, xs, n, ys, acc);
    forall k | 0 <= k < |r|
      ensures r[k].0 < |xs| && r[k].1 < |ys| && p(xs[r[k].0], ys[r[k].1])
      ensures forall i | 0 <= i < r[k].0 :: !p(xs[i], ys[r[k].1])
    {
      if k < |acc| {
        assert r[k] == acc[k];
      } else {
        var j := r[k].1;
        assert !Matched(p, xs[..n], ys[j]);
        forall i | 0 <= i < n ensures !p(xs[i], ys[j]) {
          assert xs[..n][i] == xs[i];
        }
      }
    }
  }

  lemma CoversStep<A, B>(p: (A, B) -> bool, xs: seq<A>, ys: seq<B>)
    requires xs != []
    requires Covers(p, xs[..|xs| - 1], ys, Collect(p, xs[..|xs| - 1], ys))
    ensures Covers(p, xs, ys, Collect(p, xs, ys))
  {
    var n := |xs| - 1;
    var init := xs[..n];
    var acc := Collect(p, init, ys);
    var r := Collect(p, xs, ys);
    ScanCovers(p, n, xs[n], ys, |ys|, acc);
    forall j | 0 <= j < |ys|
      ensures j in Inner(r) <==> Matched(p, xs, ys[j])
    {
      MatchedSnoc(p, xs, ys[j]);
    }
  }

  /** Each inner document is picked at most once; a pick's documents meet
      the condition; it is picked while visiting the first outer document
      that matches it; and the inner documents picked are exactly those some
      outer document matches. */
  lemma {:induction false} CollectPicked<A, B>(p: (A, B) -> bool, xs: seq<A>, ys: seq<B>)
    ensures Picked(p, xs, ys, Collect(p, xs, ys))
    decreases |xs|
  {
    if xs != [] {
      CollectPicked(p, xs[..|xs| - 1], ys);
      FirstMatchesStep(p, xs, ys);
      CoversStep(p, xs, ys);
    }
  }

  /** The positions among the first m of ys whose documents satisfy q, in
      increasing order. */
  function Positions<B>(q: B -> bool, ys: seq<B>, m: nat): (r: seq<nat>)
    requires m <= |ys|
    ensures forall j | 0 <= j < m :: j in r <==> q(ys[j])
    ensures forall j | j in r :: j < m
    ensures forall k | 0 <= k < |r| :: r[k] < m
  {
    if m == 0 then [] else Positions(q, ys, m - 1) + (if q(ys[m - 1]) then [m - 1] else [])
  }

  /** A scan with a condition that splits into a test of x and a test of the
      inner document: a failing x picks nothing, and a passing x adds the
      untaken matching positions, in increasing order. */
  lemma {:induction false} ScanSeparable<A, B>(p: (A, B) -> bool, g: A -> bool, q: B -> bool,
                                               i: nat, x: A, ys: seq<B>, m: nat, acc: seq<Pick>)
    requires m <= |ys|
    requires forall a, b :: p(a, b) == (g(a) && q(b))
    ensures !g(x) ==> Scan(p, i, x, ys, m, acc) == acc
    ensures g(x) && acc == [] ==> Inner(Scan(p, i, x, ys, m, acc)) == Positions(q, ys, m)
    ensures g(x) && Inner(acc) == Positions(q, ys, |ys|) ==> Scan(p, i, x, ys, m, acc) == acc
    decreases m
  {
    if m > 0 {
      ScanSeparable(p, g, q, i, x, ys, m - 1, acc);
      var a := Scan(p, i, x, ys, m - 1, acc);
      if g(x) && acc == [] {
        ScanCovers(p, i, x, ys, m - 1, acc);
        assert m - 1 !in Inner(a);
        InnerAppend(a, (i, m - 1));
      }
      if g(x) && Inner(acc) == Positions(q, ys, |ys|) && q(ys[m - 1]) {
        assert m - 1 in Inner(a);
      }
    }
  }

  /** With a separable condition the picked inner positions are all the
      positions satisfying q, in increasing order, when some outer document
      passes g, and none otherwise. */
  lemma {:induction false} CollectSeparable<A, B>(p: (A, B) -> bool, g: A -> bool, q: B -> bool, xs: seq<A>, ys: seq<B>)
    requires forall a, b :: p(a, b) == (g(a) && q(b))
    ensures Inner(Collect(p, xs, ys)) == if exists i | 0 <= i < |xs| :: g(xs[i]) then Positions(q, ys, |ys|) else []
    decreases |xs|
  {
    if xs != [] {
      var n := |xs| - 1;
      var init := xs[..n];
      CollectSeparable(p, g, q, init, ys);
      var acc := Collect(p, init, ys);
      ScanSeparable(p, g, q, n, xs[n], ys, |ys|, acc);
      assert forall i | 0 <= i < n :: init[i] == xs[i];
      if exists i | 0 <= i < n :: g(init[i]) {
        var i :| 0 <= i < n && g(init[i]);
        assert g(xs[i]);
      } else if g(xs[n]) {
        assert acc == [];
      } else {
        assert forall i | 0 <= i < |xs| :: !g(xs[i]) by {
          forall i | 0 <= i < |xs| ensures !g(xs[i]) {
            if i < n {
              assert !g(init[i]);
            }
          }
        }
      }
    }
  }

  /** The documents at the positions meeting q are the filter by q. */
  lemma {:induction false} SelectPositions<B>(q: B -> bool, ys: seq<B>, m: nat)
    requires m <= |ys|
    ensures Select(ys, Positions(q, ys, m)) == Filter(q, ys[..m])
    decreases m
  {
    if m > 0 {
      SelectPositions(q, ys, m - 1);
      assert ys[..m][..m - 1] == ys[..m - 1];
      var ps := Positions(q, ys, m - 1);
      var extra := if q(ys[m - 1]) then [m - 1] else [];
      assert Select(ys, ps + extra) == Select(ys, ps) + Select(ys, extra);
    }
  }

  /** Every pick names an outer position below nx and an inner position
      below ny. */
  predicate InBounds(acc: seq<Pick>, nx: nat, ny: nat)
  {
    forall k | 0 <= k < |acc| :: acc[k].0 < nx && acc[k].1 < ny
  }

  lemma CollectInBounds<A, B>(p: (A, B) -> bool, xs: seq<A>, ys: seq<B>)
    ensures InBounds(Collect(p, xs, ys), |xs|, |ys|)
  {
    CollectPicked(p, xs, ys);
  }
}
