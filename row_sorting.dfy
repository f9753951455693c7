/** rel.sort(cols, order): the caller's list of key columns is reversed in
    place, and the rows are then sorted with Python's stable sorted() once
    per key, from the last key to the first. Keys are the string values of
    the rows, compared the way Python compares str. */
module RowSorting {
  import opened Wrappers
  import opened Relations
  import JavaText

  /** Python's a < b on str: lexicographic by code point, a proper prefix first. */
  predicate StrLt(a: string, b: string)
    decreases |a|
  {
    b != [] && (a == [] || (if a[0] != b[0] then a[0] < b[0] else StrLt(a[1..], b[1..])))
  }

  lemma {:induction false} StrLtIrreflexive(a: string)
    ensures !StrLt(a, a)
    decreases |a|
  {
    if a != [] {
      StrLtIrreflexive(a[1..]);
    }
  }

  lemma {:induction false} StrLtTransitive(a: string, b: string, c: string)
    requires StrLt(a, b) && StrLt(b, c)
    ensures StrLt(a, c)
    decreases |a|
  {
    if a != [] && a[0] == b[0] && b[0] == c[0] {
      StrLtTransitive(a[1..], b[1..], c[1..]);
    }
  }

  /** Two different strings are ordered one way or the other. */
  lemma {:induction false} StrLtTotal(a: string, b: string)
    requires a != b
    ensures StrLt(a, b) || StrLt(b, a)
    decreases |a|
  {
    if a != [] && b != [] && a[0] == b[0] {
      assert a == [a[0]] + a[1..] && b == [b[0]] + b[1..];
      StrLtTotal(a[1..], b[1..]);
    }
  }

  /** Row p goes strictly before row q when sorting on column k. */
  predicate KeyBefore(p: Row, q: Row, k: nat, desc: bool)
    requires k < |p| && k < |q|
  {
    if desc then StrLt(q[k], p[k]) else StrLt(p[k], q[k])
  }

  lemma KeyBeforeTransitive(p: Row, q: Row, r: Row, k: nat, desc: bool)
    requires k < |p| && k < |q| && k < |r|
    requires KeyBefore(p, q, k, desc) && KeyBefore(q, r, k, desc)
    ensures KeyBefore(p, r, k, desc)
  {
    if desc {
      StrLtTransitive(r[k], q[k], p[k]);
    } else {
      StrLtTransitive(p[k], q[k], r[k]);
    }
  }

  /** A row that is not strictly before another is after it or tied with it. */
  lemma KeyNotBefore(p: Row, q: Row, k: nat, desc: bool)
    requires k < |p| && k < |q| && !KeyBefore(p, q, k, desc)
    ensures KeyBefore(q, p, k, desc) || p[k] == q[k]
  {
    if p[k] != q[k] {
      StrLtTotal(p[k], q[k]);
    }
  }

  predicate KeysBelow(ks: seq<nat>, n: nat)
  {
    forall i | 0 <= i < |ks| :: ks[i] < n
  }

  /** p may stand before q in a list sorted on the columns ks, the first
      column deciding and later ones breaking ties. */
  predicate InOrder(p: Row, q: Row, n: nat, ks: seq<nat>, desc: bool)
    requires |p| == n && |q| == n && KeysBelow(ks, n)
    decreases |ks|
  {
    ks == [] || KeyBefore(p, q, ks[0], desc) || (p[ks[0]] == q[ks[0]] && InOrder(p, q, n, ks[1..], desc))
  }

  lemma InOrderCons(p: Row, q: Row, n: nat, k: nat, rest: seq<nat>, desc: bool)
    requires |p| == n && |q| == n && k < n && KeysBelow(rest, n)
    ensures KeysBelow([k] + rest, n)
    ensures InOrder(p, q, n, [k] + rest, desc)
        <==> KeyBefore(p, q, k, desc) || (p[k] == q[k] && InOrder(p, q, n, rest, desc))
  {
    assert ([k] + rest)[1..] == rest;
  }

  /** xs is in order on the columns ks. */
  predicate SortedOn(xs: seq<Row>, n: nat, ks: seq<nat>, desc: bool)
    requires Fit(xs, n) && KeysBelow(ks, n)
  {
    forall i, j | 0 <= i < j < |xs| :: InOrder(xs[i], xs[j], n, ks, desc)
  }

  lemma SortedCons(x: Row, s: seq<Row>, n: nat, ks: seq<nat>, desc: bool)
    requires |x| == n && Fit(s, n) && KeysBelow(ks, n)
    requires SortedOn(s, n, ks, desc)
    requires forall y | y in s :: InOrder(x, y, n, ks, desc)
    ensures Fit([x] + s, n) && SortedOn([x] + s, n, ks, desc)
  {
    var t := [x] + s;
    assert forall r | r in t :: r == x || r in s;
    forall i, j | 0 <= i < j < |t| ensures InOrder(t[i], t[j], n, ks, desc) {
      assert t[j] == s[j - 1];
      if i > 0 {
        assert t[i] == s[i - 1];
      }
    }
  }

  /** One step of a stable insertion: x, which came after every row of s,
      goes after every row of s that is not strictly after it. */
  function Insert(x: Row, s: seq<Row>, n: nat, k: nat, desc: bool): (r: seq<Row>)
    requires |x| == n && Fit(s, n) && k < n
    ensures Fit(r, n) && multiset(r) == multiset(s) + multiset{x}
  {
    if s == [] || KeyBefore(x, s[0], k, desc) then [x] + s
    else
      assert s == [s[0]] + s[1..];
      [s[0]] + Insert(x, s[1..], n, k, desc)
  }

  /** sorted(xs, key=attrgetter(field), reverse=desc) where field is column k:
      a stable sort, so rows with equal keys keep their relative order, also
      when reverse is True. */
  function SortBy(xs: seq<Row>, n: nat, k: nat, desc: bool): (r: seq<Row>)
    requires Fit(xs, n) && k < n
    ensures Fit(r, n) && multiset(r) == multiset(xs)
  {
    if xs == [] then []
    else
      assert xs == xs[..|xs| - 1] + [xs[|xs| - 1]];
      Insert(xs[|xs| - 1], SortBy(xs[..|xs| - 1], n, k, desc), n, k, desc)
  }

  /** x strictly before the first row of a sorted s is before all of s. */
  lemma InsertFront(x: Row, s: seq<Row>, n: nat, k: nat, rest: seq<nat>, desc: bool)
    requires |x| == n && Fit(s, n) && k < n && KeysBelow(rest, n)
    requires KeysBelow([k] + rest, n) && SortedOn(s, n, [k] + rest, desc)
    requires s != [] && KeyBefore(x, s[0], k, desc)
    ensures forall y | y in s :: InOrder(x, y, n, [k] + rest, desc)
  {
    forall y | y in s ensures InOrder(x, y, n, [k] + rest, desc) {
      var j :| 0 <= j < |s| && s[j] == y;
      InOrderCons(x, y, n, k, rest, desc);
      if j > 0 {
        assert InOrder(s[0], s[j], n, [k] + rest, desc);
        InOrderCons(s[0], y, n, k, rest, desc);
        if KeyBefore(s[0], y, k, desc) {
          KeyBeforeTransitive(x, s[0], y, k, desc);
        }
      }
    }
  }

  /** The first row of a sorted s, when x is not strictly before it, is
      before x and before the rest of s. */
  lemma InsertBehind(x: Row, s: seq<Row>, t: seq<Row>, n: nat, k: nat, rest: seq<nat>, desc: bool)
    requires |x| == n && Fit(s, n) && k < n && KeysBelow(rest, n)
    requires KeysBelow([k] + rest, n) && SortedOn(s, n, [k] + rest, desc)
    requires forall e | e in s :: InOrder(e, x, n, rest, desc)
    requires s != [] && !KeyBefore(x, s[0], k, desc)
    requires multiset(t) == multiset(s[1..]) + multiset{x}
    ensures forall y | y in t :: |y| == n && InOrder(s[0], y, n, [k] + rest, desc)
  {
    forall y | y in t ensures |y| == n && InOrder(s[0], y, n, [k] + rest, desc) {
      assert y in multiset(t);
      if y == x {
        KeyNotBefore(x, s[0], k, desc);
        InOrderCons(s[0], x, n, k, rest, desc);
      } else {
        assert y in multiset(s[1..]);
        var j :| 0 <= j < |s[1..]| && s[1..][j] == y;
        assert s[j + 1] == y;
      }
    }
  }

  lemma {:induction false} InsertSorted(x: Row, s: seq<Row>, n: nat, k: nat, rest: seq<nat>, desc: bool)
    requires |x| == n && Fit(s, n) && k < n && KeysBelow(rest, n)
    requires KeysBelow([k] + rest, n) && SortedOn(s, n, [k] + rest, desc)
    requires forall e | e in s :: InOrder(e, x, n, rest, desc)
    ensures SortedOn(Insert(x, s, n, k, desc), n, [k] + rest, desc)
    decreases |s|
  {
    if s == [] {
    } else if KeyBefore(x, s[0], k, desc) {
      InsertFront(x, s, n, k, rest, desc);
      SortedCons(x, s, n, [k] + rest, desc);
    } else {
      assert forall i, j | 0 <= i < j < |s[1..]| :: s[1..][i] == s[i + 1] && s[1..][j] == s[j + 1];
      InsertSorted(x, s[1..], n, k, rest, desc);
      var t := Insert(x, s[1..], n, k, desc);
      InsertBehind(x, s, t, n, k, rest, desc);
      SortedCons(s[0], t, n, [k] + rest, desc);
    }
  }

  /** In a sorted list every row but the last is in order with the last,
      and the rows before the last are sorted. */
  lemma SortedLast(xs: seq<Row>, init: seq<Row>, n: nat, ks: seq<nat>, desc: bool)
    requires Fit(xs, n) && KeysBelow(ks, n) && SortedOn(xs, n, ks, desc) && xs != []
    requires init == xs[..|xs| - 1]
    ensures Fit(init, n) && SortedOn(init, n, ks, desc)
    ensures forall e | e in init :: InOrder(e, xs[|xs| - 1], n, ks, desc)
  {
    assert forall i | 0 <= i < |init| :: init[i] == xs[i];
    forall e | e in init ensures InOrder(e, xs[|xs| - 1], n, ks, desc) {
      var i :| 0 <= i < |init| && init[i] == e;
      assert InOrder(xs[i], xs[|xs| - 1], n, ks, desc);
    }
  }

  /** A rearrangement keeps every row in order with x. */
  lemma InOrderRearranged(p: seq<Row>, q: seq<Row>, x: Row, n: nat, ks: seq<nat>, desc: bool)
    requires Fit(p, n) && Fit(q, n) && |x| == n && KeysBelow(ks, n) && multiset(p) == multiset(q)
    requires forall e | e in p :: InOrder(e, x, n, ks, desc)
    ensures forall e | e in q :: InOrder(e, x, n, ks, desc)
  {
    forall e | e in q ensures InOrder(e, x, n, ks, desc) {
      assert e in multiset(q);
      assert e in p;
    }
  }

  /** Sorting stably on column k a list already in order on the columns rest
      gives a list in order on k and then rest. */
  lemma {:induction false} SortBySorted(xs: seq<Row>, n: nat, k: nat, rest: seq<nat>, desc: bool)
    requires Fit(xs, n) && k < n && KeysBelow(rest, n) && SortedOn(xs, n, rest, desc)
    ensures KeysBelow([k] + rest, n) && SortedOn(SortBy(xs, n, k, desc), n, [k] + rest, desc)
    decreases |xs|
  {
    assert forall i | 0 <= i < |rest| :: ([k] + rest)[i + 1] == rest[i];
    if xs != [] {
      var init := xs[..|xs| - 1];
      var last := xs[|xs| - 1];
      SortedLast(xs, init, n, rest, desc);
      SortBySorted(init, n, k, rest, desc);
      var s := SortBy(init, n, k, desc);
      InOrderRearranged(init, s, last, n, rest, desc);
      InsertSorted(last, s, n, k, rest, desc);
    }
  }

  /** When every row has the same key, stability leaves the order as it was. */
  lemma {:induction false} SortByTies(xs: seq<Row>, n: nat, k: nat, v: string, desc: bool)
    requires Fit(xs, n) && k < n
    requires forall r | r in xs :: r[k] == v
    ensures SortBy(xs, n, k, desc) == xs
    decreases |xs|
  {
    if xs != [] {
      var init := xs[..|xs| - 1];
      var last := xs[|xs| - 1];
      assert last in xs;
      assert forall r | r in init :: r in xs;
      SortByTies(init, n, k, v, desc);
      InsertTied(last, init, n, k, desc);
      calc {
        SortBy(xs, n, k, desc);
        Insert(last, SortBy(init, n, k, desc), n, k, desc);
        Insert(last, init, n, k, desc);
        init + [last];
        { InitLast(xs); }
        xs;
      }
    }
  }

  lemma InitLast(xs: seq<Row>)
    requires xs != []
    ensures xs[..|xs| - 1] + [xs[|xs| - 1]] == xs
  {
  }

  lemma HeadTail(xs: seq<Row>)
    requires xs != []
    ensures [xs[0]] + xs[1..] == xs
  {
  }

  lemma {:induction false} InsertTied(x: Row, s: seq<Row>, n: nat, k: nat, desc: bool)
    requires |x| == n && Fit(s, n) && k < n
    requires forall r | r in s :: r[k] == x[k]
    ensures Insert(x, s, n, k, desc) == s + [x]
    decreases |s|
  {
    if s != [] {
      assert s[0] in s;
      StrLtIrreflexive(x[k]);
      assert !KeyBefore(x, s[0], k, desc);
      var tail := s[1..];
      HeadTail(s);
      assert forall r | r in tail :: r in s;
      InsertTied(x, tail, n, k, desc);
      assert Insert(x, s, n, k, desc) == [s[0]] + (tail + [x]);
      JavaText.AppendAssoc([s[0]], tail, [x]);
    }
  }

  /** s backwards. */
  function Reversed<T>(s: seq<T>): (r: seq<T>)
    ensures |r| == |s| && forall i | 0 <= i < |s| :: r[i] == s[|s| - 1 - i]
  {
    if s == [] then [] else [s[|s| - 1]] + Reversed(s[..|s| - 1])
  }

  /** cols.reverse(): the caller's list is reversed in place. */
  method ReverseInPlace(a: array<string>)
    modifies a
    ensures a[..] == Reversed(old(a[..]))
  {
    ghost var s0 := a[..];
    var n := a.Length;
    for i := 0 to n / 2
      invariant forall k | 0 <= k < i :: a[k] == s0[n - 1 - k] && a[n - 1 - k] == s0[k]
      invariant forall k | i <= k < n - i :: a[k] == s0[k]
    {
      a[i], a[n - 1 - i] := a[n - 1 - i], a[i];
    }
    ReversedAt(s0, a[..]);
  }

  /** A sequence whose k-th element is the k-th from the end of s is s reversed. */
  lemma ReversedAt<T>(s: seq<T>, r: seq<T>)
    requires |r| == |s| && forall k | 0 <= k < |s| :: r[k] == s[|s| - 1 - k]
    ensures r == Reversed(s)
  {
  }

  /** The column positions of the key names. */
  function Indices(cols: seq<string>, keys: seq<string>): (ks: seq<nat>)
    requires forall f | f in keys :: f in cols
    ensures |ks| == |keys| && KeysBelow(ks, |cols|)
    ensures forall i | 0 <= i < |keys| :: cols[ks[i]] == keys[i]
  {
    seq(|keys|, i requires 0 <= i < |keys| => IndexOf(cols, keys[i]))
  }

  lemma IndicesReversed(cols: seq<string>, keys: seq<string>)
    requires forall f | f in keys :: f in cols
    ensures forall f | f in Reversed(keys) :: f in cols
    ensures Indices(cols, Reversed(keys)) == Reversed(Indices(cols, keys))
  {
    var rk := Reversed(keys);
    ReversedIn(keys);
    var a, b := Indices(cols, rk), Reversed(Indices(cols, keys));
    forall i | 0 <= i < |a| ensures a[i] == b[i] {
      assert rk[i] == keys[|keys| - 1 - i];
    }
  }

  /** Every name of a reversed list is in the list. */
  lemma ReversedIn(keys: seq<string>)
    ensures forall f | f in Reversed(keys) :: f in keys
  {
    var rk := Reversed(keys);
    forall f | f in rk ensures f in keys {
      var i :| 0 <= i < |keys| && rk[i] == f;
      assert keys[|keys| - 1 - i] == f;
    }
  }

  /** The loop of rel.sort: sorted() once per key position of ks, in the order
      given. */
  function SortAll(xs: seq<Row>, n: nat, ks: seq<nat>, desc: bool): (r: seq<Row>)
    requires Fit(xs, n) && KeysBelow(ks, n)
    ensures Fit(r, n) && multiset(r) == multiset(xs)
  {
    if ks == [] then xs else SortBy(SortAll(xs, n, ks[..|ks| - 1], desc), n, ks[|ks| - 1], desc)
  }

  /** Sorting on the keys one by one, from the last key to the first, leaves
      the rows in lexicographic order on the keys in their original order. */
  lemma {:induction false} SortAllSorted(xs: seq<Row>, n: nat, ks: seq<nat>, desc: bool)
    requires Fit(xs, n) && KeysBelow(ks, n)
    ensures KeysBelow(Reversed(ks), n) && SortedOn(SortAll(xs, n, ks, desc), n, Reversed(ks), desc)
    decreases |ks|
  {
    if ks != [] {
      var init := ks[..|ks| - 1];
      SortAllSorted(xs, n, init, desc);
      SortBySorted(SortAll(xs, n, init, desc), n, ks[|ks| - 1], Reversed(init), desc);
    }
  }

  /** What rel.sort returns, given the reversed key list revKeys and the order
      xs in which the frozenset is first visited. sorted() computes every key,
      so a missing key column raises as soon as there is a row. */
  function SortRows(rel: Relation, revKeys: seq<string>, desc: bool, xs: seq<Row>): Result<Relation, Error>
    requires Valid(rel) && IsEnumeration(xs, rel.rows)
  {
    if xs == [] then Ok(Relation(rel.cols, RowTuple([]), rel.listCols))
    else if exists f | f in revKeys :: f !in rel.cols then Err(NoSuchAttribute(FirstMissing(revKeys, rel.cols)))
    else
      EnumerationFits(xs, rel);
      Ok(Relation(rel.cols, RowTuple(SortAll(xs, |rel.cols|, Indices(rel.cols, revKeys), desc)), rel.listCols))
  }

  lemma EnumerationFits(xs: seq<Row>, rel: Relation)
    requires Valid(rel) && IsEnumeration(xs, rel.rows)
    ensures Fit(xs, |rel.cols|)
    ensures forall r :: r in xs <==> r in Members(rel.rows)
    ensures |xs| == Size(rel.rows)
  {
    EnumerationMembers(xs, rel.rows);
  }

  /** A successful sort keeps the columns and every row, as many times as the
      visit order holds it. */
  lemma SortRowsKeeps(rel: Relation, revKeys: seq<string>, desc: bool, xs: seq<Row>)
    requires Valid(rel) && IsEnumeration(xs, rel.rows)
    requires SortRows(rel, revKeys, desc, xs).Ok?
    ensures var res := SortRows(rel, revKeys, desc, xs).value;
      && res.cols == rel.cols && res.rows.RowTuple?
      && multiset(res.rows.items) == multiset(xs)
      && |res.rows.items| == Size(rel.rows)
      && Members(res.rows) == Members(rel.rows)
  {
    EnumerationFits(xs, rel);
    if xs != [] {
      var items := SortAll(xs, |rel.cols|, Indices(rel.cols, revKeys), desc);
      assert SortRows(rel, revKeys, desc, xs).value.rows.items == items;
      SameMultiset(items, xs);
    }
  }

  /** Two sequences with the same multiset have the same length and members. */
  lemma SameMultiset(p: seq<Row>, q: seq<Row>)
    requires multiset(p) == multiset(q)
    ensures |p| == |q| && forall r :: r in p <==> r in q
  {
    assert |p| == |multiset(p)| && |q| == |multiset(q)|;
    assert forall r :: r in p <==> r in multiset(p);
    assert forall r :: r in q <==> r in multiset(q);
  }

  /** Every name of a list is in its reversal. */
  lemma ReversedHas(keys: seq<string>)
    ensures forall f | f in keys :: f in Reversed(keys)
  {
    forall f | f in keys ensures f in Reversed(keys) {
      var i :| 0 <= i < |keys| && keys[i] == f;
      assert Reversed(keys)[|keys| - 1 - i] == f;
    }
  }

  /** A successful sort of a non-empty relation has every key as a column and
      leaves the rows in lexicographic order on the keys as the caller listed
      them, descending when order is True. */
  lemma SortRowsOrdered(rel: Relation, keys: seq<string>, desc: bool, xs: seq<Row>)
    requires Valid(rel) && IsEnumeration(xs, rel.rows) && xs != []
    requires SortRows(rel, Reversed(keys), desc, xs).Ok?
    ensures forall f | f in keys :: f in rel.cols
    ensures var items := SortRows(rel, Reversed(keys), desc, xs).value.rows.items;
      Fit(items, |rel.cols|) && SortedOn(items, |rel.cols|, Indices(rel.cols, keys), desc)
  {
    EnumerationFits(xs, rel);
    ReversedHas(keys);
    var n := |rel.cols|;
    var ks := Indices(rel.cols, Reversed(keys));
    SortAllSorted(xs, n, ks, desc);
    IndicesReversed(rel.cols, keys);
    ReversedTwice(Indices(rel.cols, keys));
  }

  lemma ReversedTwice<T>(s: seq<T>)
    ensures Reversed(Reversed(s)) == s
  {
  }

  lemma SortAllStep(xs: seq<Row>, n: nat, cols: seq<string>, revKeys: seq<string>, i: nat, desc: bool)
    requires Fit(xs, n) && |cols| == n && i < |revKeys|
    requires forall f | f in revKeys[..i] :: f in cols
    requires revKeys[i] in cols
    ensures forall f | f in revKeys[..i + 1] :: f in cols
    ensures SortAll(xs, n, Indices(cols, revKeys[..i + 1]), desc)
         == SortBy(SortAll(xs, n, Indices(cols, revKeys[..i]), desc), n, IndexOf(cols, revKeys[i]), desc)
  {
    assert revKeys[..i + 1] == revKeys[..i] + [revKeys[i]];
    assert Indices(cols, revKeys[..i + 1])[..i] == Indices(cols, revKeys[..i]);
  }

  /** The loop of rel.sort over a non-empty list of rows. */
  method SortLoop(rel: Relation, revKeys: seq<string>, desc: bool, xs: seq<Row>) returns (res: Result<Relation, Error>)
    requires Valid(rel) && IsEnumeration(xs, rel.rows) && xs != []
    ensures res == SortRows(rel, revKeys, desc, xs)
  {
    EnumerationFits(xs, rel);
    var n := |rel.cols|;
    var sortedRows := xs;
    for i := 0 to |revKeys|
      invariant forall f | f in revKeys[..i] :: f in rel.cols
      invariant sortedRows == SortAll(xs, n, Indices(rel.cols, revKeys[..i]), desc)
    {
      var field := revKeys[i];
      if field !in rel.cols {
        SortRowsMissing(rel, revKeys, desc, xs, i);
        return Err(NoSuchAttribute(field));
      }
      SortAllStep(xs, n, rel.cols, revKeys, i, desc);
      sortedRows := SortBy(sortedRows, n, IndexOf(rel.cols, field), desc);
    }
    assert revKeys[..|revKeys|] == revKeys;
    SortRowsAll(rel, revKeys, desc, xs);
    res := Ok(Relation(rel.cols, RowTuple(sortedRows), rel.listCols));
  }

  /** The first key that is not a column is the one sort reports. */
  lemma SortRowsMissing(rel: Relation, revKeys: seq<string>, desc: bool, xs: seq<Row>, i: nat)
    requires Valid(rel) && IsEnumeration(xs, rel.rows) && xs != []
    requires i < |revKeys| && revKeys[i] !in rel.cols
    requires forall f | f in revKeys[..i] :: f in rel.cols
    ensures SortRows(rel, revKeys, desc, xs) == Err(NoSuchAttribute(revKeys[i]))
  {
    forall j | 0 <= j < i
      ensures revKeys[j] in rel.cols
    {
      assert revKeys[j] in revKeys[..i];
    }
    FirstMissingAt(revKeys, rel.cols, i);
  }

  /** With every key a column, sort applies one stable sort per key. */
  lemma SortRowsAll(rel: Relation, revKeys: seq<string>, desc: bool, xs: seq<Row>)
    requires Valid(rel) && IsEnumeration(xs, rel.rows) && xs != []
    requires forall f | f in revKeys :: f in rel.cols
    ensures Fit(xs, |rel.cols|)
    ensures SortRows(rel, revKeys, desc, xs) == Ok(Relation(rel.cols, RowTuple(SortAll(xs, |rel.cols|, Indices(rel.cols, revKeys), desc)), rel.listCols))
  {
    EnumerationFits(xs, rel);
  }

  /** rel.sort(cols, order). */
  method Sort(rel: Relation, keys: array<string>, desc: bool) returns (res: Result<Relation, Error>, ghost visited: seq<Row>)
    requires Valid(rel)
    modifies keys
    ensures keys[..] == Reversed(old(keys[..]))
    ensures IsEnumeration(visited, rel.rows)
    ensures res == SortRows(rel, keys[..], desc, visited)
  {
    ReverseInPlace(keys);
    var xs := Enumerate(rel.rows);
    visited := xs;
    if xs == [] {
      // sorted() never looks a key up
      return Ok(Relation(rel.cols, RowTuple([]), rel.listCols)), visited;
    }
    res := SortLoop(rel, keys[..], desc, xs);
  }
}
