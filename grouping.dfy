/** rel.groupby(cols) and the aggregates count and sum of the GroupWrap it
    returns. Only the first grouping column is used as the key; the results
    are frozensets of (key, text) rows. */
module Grouping {
  import opened Wrappers
  import opened Relations
  import Decimal

  /** The object groupby returns: the rows as a frozenset and the grouping columns. */
  datatype GroupWrap = GroupWrap(allGrouped: Relation, cols: seq<string>)

  /** What groupby builds: a valid relation whose rows form a frozenset. */
  predicate WrapValid(g: GroupWrap)
  {
    Valid(g.allGrouped) && g.allGrouped.rows.FrozenSet?
  }

  /** rel.groupby(cols): the rows are rebuilt into a frozenset, which
      collapses the duplicates a tuple of rows may hold; cols is not looked
      at until an aggregate runs. */
  function GroupBy(rel: Relation, cols: seq<string>): (g: GroupWrap)
    requires Valid(rel)
    ensures WrapValid(g) && g.cols == cols
    ensures g.allGrouped.cols == rel.cols && Members(g.allGrouped.rows) == Members(rel.rows)
  {
    var rows := set r | r in Members(rel.rows) :: Rebuild(rel.cols, r);
    assert rows == Members(rel.rows) by {
      forall r | r in Members(rel.rows) ensures Rebuild(rel.cols, r) == r { }
    }
    GroupWrap(Relation(rel.cols, FrozenSet(rows)), cols)
  }

  /** The distinct keys of a set of rows: their values in column c. */
  function Keys(cols: seq<string>, s: set<Row>, c: string): set<string>
    requires c in cols && forall r | r in s :: |r| == |cols|
  {
    set r | r in s :: Value(cols, r, c)
  }

  /** The rows of s whose value in column c is k. */
  function Group(cols: seq<string>, s: set<Row>, c: string, k: string): set<Row>
    requires c in cols && forall r | r in s :: |r| == |cols|
  {
    set r | r in s && Value(cols, r, c) == k
  }

  /** What groupby(...).count(col) returns: one row (key, str(n)) per distinct
      key, n being the number of rows with that key. namedtuple first refuses
      the pair of column names unless both are valid and distinct field names. */
  function CountSpec(g: GroupWrap, col: string): Result<Relation, Error>
    requires WrapValid(g)
  {
    var rel := g.allGrouped;
    var s := Members(rel.rows);
    if g.cols == [] then Err(IndexOutOfRange)
    else if !FieldNames([g.cols[0], "count_" + col]) then Err(BadFieldNames)
    else if s != {} && g.cols[0] !in rel.cols then Err(NoSuchAttribute(g.cols[0]))
    else if s == {} then Ok(Relation([g.cols[0], "count_" + col], FrozenSet({})))
    else
      Ok(Relation([g.cols[0], "count_" + col], FrozenSet(
        set k | k in Keys(rel.cols, s, g.cols[0]) :: [k, Decimal.IntText(|Group(rel.cols, s, g.cols[0], k)|)])))
  }

  /** The number of rows of ys whose value in column c is k. */
  function Tally(cols: seq<string>, ys: seq<Row>, c: string, k: string): nat
    requires c in cols && Fit(ys, |cols|)
  {
    if ys == [] then 0
    else
      assert ys[|ys| - 1] in ys;
      Tally(cols, ys[..|ys| - 1], c, k) + (if Value(cols, ys[|ys| - 1], c) == k then 1 else 0)
  }

  /** The keys met in ys. */
  function KeysIn(cols: seq<string>, ys: seq<Row>, c: string): set<string>
    requires c in cols && Fit(ys, |cols|)
  {
    set r | r in ys :: Value(cols, r, c)
  }

  lemma KeysInStep(cols: seq<string>, ys: seq<Row>, c: string, i: nat)
    requires c in cols && Fit(ys, |cols|) && i < |ys|
    ensures Fit(ys[..i], |cols|) && Fit(ys[..i + 1], |cols|) && |ys[i]| == |cols|
    ensures KeysIn(cols, ys[..i + 1], c) == KeysIn(cols, ys[..i], c) + {Value(cols, ys[i], c)}
  {
    assert ys[i] in ys;
    assert ys[..i + 1] == ys[..i] + [ys[i]];
    assert forall r :: r in ys[..i + 1] <==> r in ys[..i] || r == ys[i];
  }

  lemma TallyStep(cols: seq<string>, ys: seq<Row>, c: string, i: nat)
    requires c in cols && Fit(ys, |cols|) && i < |ys|
    ensures Fit(ys[..i], |cols|) && Fit(ys[..i + 1], |cols|) && |ys[i]| == |cols|
    ensures forall k :: Tally(cols, ys[..i + 1], c, k) == Tally(cols, ys[..i], c, k) + (if Value(cols, ys[i], c) == k then 1 else 0)
  {
    assert ys[i] in ys;
    assert ys[..i + 1][..i] == ys[..i];
    assert forall r :: r in ys[..i + 1] <==> r in ys[..i] || r == ys[i];
  }

  /** The loop of count: counts[key] = counts.get(key, 0) + 1 per visited row. */
  method CountLoop(cols: seq<string>, xs: seq<Row>, c: string) returns (counts: map<string, nat>)
    requires c in cols && Fit(xs, |cols|)
    ensures counts.Keys == KeysIn(cols, xs, c)
    ensures forall k | k in counts :: counts[k] == Tally(cols, xs, c, k)
  {
    counts := map[];
    for i := 0 to |xs|
      invariant Fit(xs[..i], |cols|)
      invariant counts.Keys == KeysIn(cols, xs[..i], c)
      invariant forall k | k in counts :: counts[k] == Tally(cols, xs[..i], c, k)
    {
      KeysInStep(cols, xs, c, i);
      TallyStep(cols, xs, c, i);
      var key := Value(cols, xs[i], c);
      if key !in counts {
        TallyAbsent(cols, xs[..i], c, key);
      }
      counts := counts[key := (if key in counts then counts[key] else 0) + 1];
    }
    assert xs[..|xs|] == xs;
  }

  /** A key that does not occur has tally zero. */
  lemma {:induction false} TallyAbsent(cols: seq<string>, ys: seq<Row>, c: string, k: string)
    requires c in cols && Fit(ys, |cols|) && k !in KeysIn(cols, ys, c)
    ensures Tally(cols, ys, c, k) == 0
  {
    if ys != [] {
      var init := ys[..|ys| - 1];
      assert ys[|ys| - 1] in ys;
      assert forall r | r in init :: r in ys;
      assert KeysIn(cols, init, c) <= KeysIn(cols, ys, c);
      TallyAbsent(cols, init, c, k);
    }
  }

  /** The rows of ys with key k. */
  function GroupIn(cols: seq<string>, ys: seq<Row>, c: string, k: string): set<Row>
    requires c in cols && Fit(ys, |cols|)
  {
    set r | r in ys && Value(cols, r, c) == k
  }

  lemma NoDupInit(ys: seq<Row>)
    requires NoDup(ys) && ys != []
    ensures NoDup(ys[..|ys| - 1]) && ys[|ys| - 1] !in ys[..|ys| - 1]
  {
    var init := ys[..|ys| - 1];
    forall i, j | 0 <= i < j < |init| ensures init[i] != init[j] {
      assert init[i] == ys[i] && init[j] == ys[j];
    }
    forall i | 0 <= i < |init| ensures init[i] != ys[|ys| - 1] {
      assert init[i] == ys[i];
    }
  }

  lemma GroupInLast(cols: seq<string>, ys: seq<Row>, c: string, k: string)
    requires c in cols && Fit(ys, |cols|) && ys != []
    ensures Fit(ys[..|ys| - 1], |cols|) && |ys[|ys| - 1]| == |cols|
    ensures GroupIn(cols, ys, c, k)
        == GroupIn(cols, ys[..|ys| - 1], c, k) + (if Value(cols, ys[|ys| - 1], c) == k then {ys[|ys| - 1]} else {})
  {
    assert ys[|ys| - 1] in ys;
    assert ys == ys[..|ys| - 1] + [ys[|ys| - 1]];
    assert forall r :: r in ys <==> r in ys[..|ys| - 1] || r == ys[|ys| - 1];
  }

  /** In a list without repeats the tally of a key is the size of its group. */
  lemma {:induction false} TallyGroup(cols: seq<string>, ys: seq<Row>, c: string, k: string)
    requires c in cols && Fit(ys, |cols|) && NoDup(ys)
    ensures Tally(cols, ys, c, k) == |GroupIn(cols, ys, c, k)|
  {
    if ys != [] {
      NoDupInit(ys);
      GroupInLast(cols, ys, c, k);
      TallyGroup(cols, ys[..|ys| - 1], c, k);
      assert ys[|ys| - 1] !in GroupIn(cols, ys[..|ys| - 1], c, k);
    }
  }

  /** The rows count builds from the tallies: [key, str(counts[key])]. */
  function CountedRows(counts: map<string, nat>): set<Row>
  {
    set k | k in counts :: [k, Decimal.IntText(counts[k])]
  }

  /** Count's loop over an enumeration of the frozenset gives the rows of the
      specification. */
  lemma CountLoopRows(g: GroupWrap, col: string, xs: seq<Row>, counts: map<string, nat>)
    requires WrapValid(g) && g.cols != [] && g.cols[0] in g.allGrouped.cols
    requires IsEnumeration(xs, g.allGrouped.rows) && xs != []
    requires Fit(xs, |g.allGrouped.cols|)
    requires counts.Keys == KeysIn(g.allGrouped.cols, xs, g.cols[0])
    requires forall k | k in counts :: counts[k] == Tally(g.allGrouped.cols, xs, g.cols[0], k)
    requires FieldNames([g.cols[0], "count_" + col])
    ensures CountSpec(g, col) == Ok(Relation([g.cols[0], "count_" + col], FrozenSet(CountedRows(counts))))
  {
    var rel := g.allGrouped;
    var c := g.cols[0];
    var s := Members(rel.rows);
    EnumerationMembers(xs, rel.rows);
    assert xs[0] in s;
    forall k | k in counts ensures counts[k] == |Group(rel.cols, s, c, k)| {
      TallyGroup(rel.cols, xs, c, k);
      assert GroupIn(rel.cols, xs, c, k) == Group(rel.cols, s, c, k);
    }
    assert counts.Keys == Keys(rel.cols, s, c);
    var spec := set k | k in Keys(rel.cols, s, c) :: [k, Decimal.IntText(|Group(rel.cols, s, c, k)|)];
    assert CountedRows(counts) == spec by {
      forall z | z in spec ensures z in CountedRows(counts) {
        var k :| k in Keys(rel.cols, s, c) && z == [k, Decimal.IntText(|Group(rel.cols, s, c, k)|)];
        assert k in counts;
      }
    }
  }

  /** groupby(cols).count(col). */
  method Count(g: GroupWrap, col: string) returns (res: Result<Relation, Error>)
    requires WrapValid(g)
    ensures res == CountSpec(g, col)
  {
    if g.cols == [] {
      return Err(IndexOutOfRange);
    }
    var newCols := [g.cols[0], "count_" + col];
    if !FieldNames(newCols) {
      return Err(BadFieldNames);
    }
    var rel := g.allGrouped;
    var xs := Enumerate(rel.rows);
    EnumerationMembers(xs, rel.rows);
    EnumerationRowLengths(xs, rel);
    if xs == [] {
      return Ok(Relation(newCols, FrozenSet({})));
    }
    assert xs[0] in Members(rel.rows);
    if g.cols[0] !in rel.cols {
      return Err(NoSuchAttribute(g.cols[0]));
    }
    var counts := CountLoop(rel.cols, xs, g.cols[0]);
    CountLoopRows(g, col, xs, counts);
    res := Ok(Relation(newCols, FrozenSet(CountedRows(counts))));
  }

  /** The counts do not depend on the counted column: only the name of the
      second column does. */
  lemma CountIgnoresColumn(g: GroupWrap, col1: string, col2: string)
    requires WrapValid(g) && CountSpec(g, col1).Ok? && CountSpec(g, col2).Ok?
    ensures CountSpec(g, col1).value.rows == CountSpec(g, col2).value.rows
    ensures CountSpec(g, col1).value.cols[0] == CountSpec(g, col2).value.cols[0]
  {
  }

  /** The sizes of the groups of the keys listed in ks, added up. */
  function GroupSizes(cols: seq<string>, s: set<Row>, c: string, ks: seq<string>): nat
    requires c in cols && forall r | r in s :: |r| == |cols|
  {
    if ks == [] then 0
    else GroupSizes(cols, s, c, ks[..|ks| - 1]) + |Group(cols, s, c, ks[|ks| - 1])|
  }

  lemma {:induction false} GroupSizesCover(cols: seq<string>, s: set<Row>, c: string, ks: seq<string>)
    requires c in cols && forall r | r in s :: |r| == |cols|
    requires NoDup(ks)
    ensures GroupSizes(cols, s, c, ks) == |set r | r in s && Value(cols, r, c) in ks|
  {
    if ks == [] {
      assert (set r | r in s && Value(cols, r, c) in ks) == {};
    } else {
      var init := ks[..|ks| - 1];
      var k := ks[|ks| - 1];
      assert NoDup(init) by {
        forall i, j | 0 <= i < j < |init| ensures init[i] != init[j] {
          assert init[i] == ks[i] && init[j] == ks[j];
        }
      }
      assert k !in init by {
        forall i | 0 <= i < |init| ensures init[i] != k {
          assert init[i] == ks[i];
        }
      }
      GroupSizesCover(cols, s, c, init);
      assert ks == init + [k];
      KeyedAppend(cols, s, c, init, k);
    }
  }

  /** The rows keyed by init + [k] are those keyed by init and the group of k,
      which is disjoint from them when k is not in init. */
  lemma KeyedAppend(cols: seq<string>, s: set<Row>, c: string, init: seq<string>, k: string)
    requires c in cols && forall r | r in s :: |r| == |cols|
    requires k !in init
    ensures var before := set r | r in s && Value(cols, r, c) in init;
      && (set r | r in s && Value(cols, r, c) in init + [k]) == before + Group(cols, s, c, k)
      && before !! Group(cols, s, c, k)
  {
    assert forall v :: v in init + [k] <==> v in init || v == k;
  }

  /** The counts of a successful count add up to the number of rows grouped:
      the groups split the rows, each row falling in the group of its key. */
  lemma CountsAddUp(g: GroupWrap, col: string, ks: seq<string>)
    requires WrapValid(g) && CountSpec(g, col).Ok? && g.allGrouped.rows.members != {}
    requires NoDup(ks) && forall k :: k in ks <==> k in Keys(g.allGrouped.cols, g.allGrouped.rows.members, g.cols[0])
    ensures GroupSizes(g.allGrouped.cols, g.allGrouped.rows.members, g.cols[0], ks) == Size(g.allGrouped.rows)
  {
    var rel := g.allGrouped;
    var s := rel.rows.members;
    var c := g.cols[0];
    GroupSizesCover(rel.cols, s, c, ks);
    assert (set r | r in s && Value(rel.cols, r, c) in ks) == s;
  }

  /** A successful count is a valid relation of (key, count) rows. */
  lemma CountValid(g: GroupWrap, col: string)
    requires WrapValid(g) && CountSpec(g, col).Ok?
    ensures Valid(CountSpec(g, col).value) && CountSpec(g, col).value.cols == [g.cols[0], "count_" + col]
  {
  }

  /** The row count builds for key k. */
  lemma CountRowOf(g: GroupWrap, col: string, r: Row)
    requires WrapValid(g) && CountSpec(g, col).Ok? && r in Members(g.allGrouped.rows)
    ensures var c := g.cols[0]; var rel := g.allGrouped;
      [Value(rel.cols, r, c), Decimal.IntText(|Group(rel.cols, rel.rows.members, c, Value(rel.cols, r, c))|)]
        in Members(CountSpec(g, col).value.rows)
  {
  }

  /** What groupby(...).sum(col) returns when the rows are visited in the
      order xs: per distinct key, str of the sum of int() of col over its rows.
      The first row visited whose value int() refuses raises ValueError, after
      namedtuple has accepted the pair of column names. */
  function SumSpec(g: GroupWrap, col: string, xs: seq<Row>): Result<Relation, Error>
    requires WrapValid(g) && IsEnumeration(xs, g.allGrouped.rows)
  {
    SumWith(g, col, xs, Decimal.PyInt)
  }

  /** The same with read in place of int(). */
  function SumWith(g: GroupWrap, col: string, xs: seq<Row>, read: string -> Option<int>): Result<Relation, Error>
    requires WrapValid(g) && IsEnumeration(xs, g.allGrouped.rows)
  {
    var rel := g.allGrouped;
    if g.cols == [] then Err(IndexOutOfRange)
    else if !FieldNames([g.cols[0], "sum_" + col]) then Err(BadFieldNames)
    else if xs == [] then Ok(Relation([g.cols[0], "sum_" + col], FrozenSet({})))
    else if g.cols[0] !in rel.cols then Err(NoSuchAttribute(g.cols[0]))
    else if col !in rel.cols then Err(NoSuchAttribute(col))
    else
      EnumerationRowLengths(xs, rel);
      EnumerationFitsSeq(xs, rel);
      if !AllParse(rel.cols, xs, col, read) then Err(NotAnInteger(Value(rel.cols, xs[FirstBad(rel.cols, xs, col, read)], col)))
      else
        Ok(Relation([g.cols[0], "sum_" + col], FrozenSet(
          set k | k in KeysIn(rel.cols, xs, g.cols[0]) :: [k, Decimal.IntText(Total(rel.cols, xs, g.cols[0], col, k, read))])))
  }

  lemma EnumerationFitsSeq(xs: seq<Row>, rel: Relation)
    requires Valid(rel) && IsEnumeration(xs, rel.rows)
    ensures Fit(xs, |rel.cols|)
  {
    EnumerationMembers(xs, rel.rows);
  }

  /** int() accepts the value of col in every row of ys. */
  predicate AllParse(cols: seq<string>, ys: seq<Row>, col: string, read: string -> Option<int>)
    requires col in cols && Fit(ys, |cols|)
  {
    forall j | 0 <= j < |ys| :: read(Value(cols, ys[j], col)).Some?
  }

  /** The position of the first row of ys whose value int() refuses. */
  function FirstBad(cols: seq<string>, ys: seq<Row>, col: string, read: string -> Option<int>): (j: nat)
    requires col in cols && Fit(ys, |cols|) && !AllParse(cols, ys, col, read)
    ensures j < |ys| && read(Value(cols, ys[j], col)).None?
    ensures AllParse(cols, ys[..j], col, read)
  {
    assert ys[0] in ys;
    if read(Value(cols, ys[0], col)).None? then 0
    else
      BadInTail(cols, ys, col, read);
      var j := 1 + FirstBad(cols, ys[1..], col, read);
      ParsePrefixCons(cols, ys, col, j, read);
      j
  }

  /** When the first row parses, the refused value lies in the tail. */
  lemma BadInTail(cols: seq<string>, ys: seq<Row>, col: string, read: string -> Option<int>)
    requires col in cols && Fit(ys, |cols|) && !AllParse(cols, ys, col, read) && ys != []
    requires |ys[0]| == |cols| && read(Value(cols, ys[0], col)).Some?
    ensures Fit(ys[1..], |cols|) && !AllParse(cols, ys[1..], col, read)
  {
    assert forall r | r in ys[1..] :: r in ys;
    var j :| 0 <= j < |ys| && read(Value(cols, ys[j], col)).None?;
    assert ys[1..][j - 1] == ys[j];
  }

  /** A parsing first row followed by j - 1 parsing rows of the tail. */
  lemma ParsePrefixCons(cols: seq<string>, ys: seq<Row>, col: string, j: nat, read: string -> Option<int>)
    requires col in cols && Fit(ys, |cols|) && 1 <= j <= |ys|
    requires |ys[0]| == |cols| && read(Value(cols, ys[0], col)).Some?
    requires Fit(ys[1..][..j - 1], |cols|) && AllParse(cols, ys[1..][..j - 1], col, read)
    ensures Fit(ys[..j], |cols|) && AllParse(cols, ys[..j], col, read)
  {
    assert forall r | r in ys[..j] :: r in ys;
    forall i | 0 <= i < j ensures read(Value(cols, ys[..j][i], col)).Some? {
      if i > 0 {
        assert ys[..j][i] == ys[1..][..j - 1][i - 1];
      }
    }
  }

  /** The sum of int() of col over the rows of ys whose key is k. */
  function Total(cols: seq<string>, ys: seq<Row>, c: string, col: string, k: string, read: string -> Option<int>): int
    requires c in cols && col in cols && Fit(ys, |cols|) && AllParse(cols, ys, col, read)
  {
    if ys == [] then 0
    else
      var last := ys[|ys| - 1];
      assert last in ys;
      assert forall r | r in ys[..|ys| - 1] :: r in ys;
      assert forall j | 0 <= j < |ys| - 1 :: ys[..|ys| - 1][j] == ys[j];
      Total(cols, ys[..|ys| - 1], c, col, k, read)
        + (if Value(cols, last, c) == k then read(Value(cols, last, col)).value else 0)
  }

  lemma TotalStep(cols: seq<string>, ys: seq<Row>, c: string, col: string, i: nat, read: string -> Option<int>)
    requires c in cols && col in cols && Fit(ys, |cols|) && i < |ys|
    requires AllParse(cols, ys[..i], col, read) && read(Value(cols, ys[i], col)).Some?
    ensures Fit(ys[..i], |cols|) && Fit(ys[..i + 1], |cols|) && |ys[i]| == |cols|
    ensures AllParse(cols, ys[..i + 1], col, read)
    ensures forall k :: (Total(cols, ys[..i + 1], c, col, k, read)
      == Total(cols, ys[..i], c, col, k, read) + (if Value(cols, ys[i], c) == k then read(Value(cols, ys[i], col)).value else 0))
  {
    assert ys[i] in ys;
    assert ys[..i + 1] == ys[..i] + [ys[i]];
    assert ys[..i + 1][..i] == ys[..i];
    assert forall r :: r in ys[..i + 1] <==> r in ys[..i] || r == ys[i];
    assert forall j | 0 <= j < i :: ys[..i + 1][j] == ys[..i][j];
  }

  /** A key that does not occur sums to zero. */
  lemma {:induction false} TotalAbsent(cols: seq<string>, ys: seq<Row>, c: string, col: string, k: string, read: string -> Option<int>)
    requires c in cols && col in cols && Fit(ys, |cols|) && AllParse(cols, ys, col, read) && k !in KeysIn(cols, ys, c)
    ensures Total(cols, ys, c, col, k, read) == 0
  {
    if ys != [] {
      var init := ys[..|ys| - 1];
      assert ys[|ys| - 1] in ys;
      assert forall r | r in init :: r in ys;
      assert forall j | 0 <= j < |init| :: init[j] == ys[j];
      assert KeysIn(cols, init, c) <= KeysIn(cols, ys, c);
      TotalAbsent(cols, init, c, col, k, read);
    }
  }

  /** The first refused value is at the first position whose value int() refuses. */
  lemma {:induction false} FirstBadAt(cols: seq<string>, ys: seq<Row>, col: string, i: nat, read: string -> Option<int>)
    requires col in cols && Fit(ys, |cols|) && i < |ys|
    requires AllParse(cols, ys[..i], col, read) && read(Value(cols, ys[i], col)).None?
    ensures !AllParse(cols, ys, col, read) && FirstBad(cols, ys, col, read) == i
  {
    assert ys[i] in ys;
    var j := FirstBad(cols, ys, col, read);
    assert forall m | 0 <= m < i :: ys[..i][m] == ys[m];
    assert forall m | 0 <= m < j :: ys[..j][m] == ys[m];
  }

  /** sums holds the total of every key met in ys, and only those keys. */
  predicate SumsMatch(cols: seq<string>, ys: seq<Row>, c: string, col: string, sums: map<string, int>, read: string -> Option<int>)
    requires c in cols && col in cols && Fit(ys, |cols|) && AllParse(cols, ys, col, read)
  {
    sums.Keys == KeysIn(cols, ys, c) && forall k | k in sums :: sums[k] == Total(cols, ys, c, col, k, read)
  }

  lemma SumStep(cols: seq<string>, xs: seq<Row>, c: string, col: string, i: nat, sums: map<string, int>, key: string, v: int, read: string -> Option<int>)
    requires c in cols && col in cols && Fit(xs, |cols|) && i < |xs|
    requires Fit(xs[..i], |cols|) && AllParse(cols, xs[..i], col, read)
    requires SumsMatch(cols, xs[..i], c, col, sums, read)
    requires |xs[i]| == |cols| && key == Value(cols, xs[i], c)
    requires read(Value(cols, xs[i], col)) == Some(v)
    ensures Fit(xs[..i + 1], |cols|) && AllParse(cols, xs[..i + 1], col, read)
    ensures SumsMatch(cols, xs[..i + 1], c, col, sums[key := (if key in sums then sums[key] else 0) + v], read)
  {
    KeysInStep(cols, xs, c, i);
    TotalStep(cols, xs, c, col, i, read);
    if key !in sums {
      TotalAbsent(cols, xs[..i], c, col, key, read);
    }
    var next := sums[key := (if key in sums then sums[key] else 0) + v];
    assert next.Keys == sums.Keys + {key};
    forall k | k in next ensures next[k] == Total(cols, xs[..i + 1], c, col, k, read) {
      assert Total(cols, xs[..i + 1], c, col, k, read) == Total(cols, xs[..i], c, col, k, read) + (if key == k then v else 0);
      if k != key {
        assert next[k] == sums[k];
      }
    }
  }

  /** The loop of sum: sums[key] = sums.get(key, 0) + int(getattr(row, col)). */
  method SumLoop(cols: seq<string>, xs: seq<Row>, c: string, col: string, read: string -> Option<int>) returns (res: Result<map<string, int>, Error>)
    requires c in cols && col in cols && Fit(xs, |cols|)
    ensures res.Err? <==> !AllParse(cols, xs, col, read)
    ensures res.Err? ==> res.error == NotAnInteger(Value(cols, xs[FirstBad(cols, xs, col, read)], col))
    ensures res.Ok? ==> SumsMatch(cols, xs, c, col, res.value, read)
  {
    var sums: map<string, int> := map[];
    for i := 0 to |xs|
      invariant Fit(xs[..i], |cols|) && AllParse(cols, xs[..i], col, read)
      invariant SumsMatch(cols, xs[..i], c, col, sums, read)
    {
      var next, text := SumRow(cols, xs, c, col, i, sums, read);
      if next.None? {
        return Err(NotAnInteger(text));
      }
      sums := next.value;
    }
    assert xs[..|xs|] == xs;
    res := Ok(sums);
  }

  /** One visit of the sum loop: the totals with row i added, or None when
      int() refuses its value, which is then the first refused one. */
  method SumRow(cols: seq<string>, xs: seq<Row>, c: string, col: string, i: nat, sums: map<string, int>, read: string -> Option<int>)
    returns (next: Option<map<string, int>>, text: string)
    requires c in cols && col in cols && Fit(xs, |cols|) && i < |xs|
    requires Fit(xs[..i], |cols|) && AllParse(cols, xs[..i], col, read)
    requires SumsMatch(cols, xs[..i], c, col, sums, read)
    ensures Fit(xs[..i + 1], |cols|) && |xs[i]| == |cols| && text == Value(cols, xs[i], col)
    ensures next.None? ==> !AllParse(cols, xs, col, read) && FirstBad(cols, xs, col, read) == i
    ensures next.Some? ==> AllParse(cols, xs[..i + 1], col, read) && SumsMatch(cols, xs[..i + 1], c, col, next.value, read)
  {
    assert xs[i] in xs;
    KeysInStep(cols, xs, c, i);
    var key := Value(cols, xs[i], c);
    text := Value(cols, xs[i], col);
    var parsed := read(text);
    if parsed.None? {
      FirstBadAt(cols, xs, col, i, read);
      return None, text;
    }
    SumStep(cols, xs, c, col, i, sums, key, parsed.value, read);
    next := Some(sums[key := (if key in sums then sums[key] else 0) + parsed.value]);
  }

  /** The rows sum builds from the totals: [key, str(sums[key])]. */
  function SummedRows(sums: map<string, int>): set<Row>
  {
    set k | k in sums :: [k, Decimal.IntText(sums[k])]
  }

  /** groupby(cols).sum(col), visiting the rows in the order it returns. */
  method Sum(g: GroupWrap, col: string) returns (res: Result<Relation, Error>, ghost visited: seq<Row>)
    requires WrapValid(g)
    ensures IsEnumeration(visited, g.allGrouped.rows)
    ensures res == SumSpec(g, col, visited)
  {
    var rel := g.allGrouped;
    var xs := Enumerate(rel.rows);
    visited := xs;
    if g.cols == [] {
      return Err(IndexOutOfRange), visited;
    }
    var newCols := [g.cols[0], "sum_" + col];
    if !FieldNames(newCols) {
      return Err(BadFieldNames), visited;
    }
    if xs == [] {
      return Ok(Relation(newCols, FrozenSet({}))), visited;
    }
    if g.cols[0] !in rel.cols {
      return Err(NoSuchAttribute(g.cols[0])), visited;
    }
    if col !in rel.cols {
      return Err(NoSuchAttribute(col)), visited;
    }
    EnumerationFitsSeq(xs, rel);
    var sums := SumLoop(rel.cols, xs, g.cols[0], col, Decimal.PyInt);
    if sums.Err? {
      return Err(sums.error), visited;
    }
    SummedRowsSpec(g, col, xs, sums.value, Decimal.PyInt);
    res := Ok(Relation(newCols, FrozenSet(SummedRows(sums.value))));
  }

  lemma SummedRowsSpec(g: GroupWrap, col: string, xs: seq<Row>, sums: map<string, int>, read: string -> Option<int>)
    requires WrapValid(g) && IsEnumeration(xs, g.allGrouped.rows) && xs != []
    requires g.cols != [] && FieldNames([g.cols[0], "sum_" + col])
    requires g.cols[0] in g.allGrouped.cols && col in g.allGrouped.cols
    requires Fit(xs, |g.allGrouped.cols|) && AllParse(g.allGrouped.cols, xs, col, read)
    requires SumsMatch(g.allGrouped.cols, xs, g.cols[0], col, sums, read)
    ensures SumWith(g, col, xs, read) == Ok(Relation([g.cols[0], "sum_" + col], FrozenSet(SummedRows(sums))))
  {
    var rel := g.allGrouped;
    var c := g.cols[0];
    var spec := set k | k in KeysIn(rel.cols, xs, c) :: [k, Decimal.IntText(Total(rel.cols, xs, c, col, k, read))];
    assert SummedRows(sums) == spec by {
      forall z | z in spec ensures z in SummedRows(sums) {
        var k :| k in KeysIn(rel.cols, xs, c) && z == [k, Decimal.IntText(Total(rel.cols, xs, c, col, k, read))];
        assert k in sums;
      }
    }
  }

  /** Summing a column of ones adds one per row. */
  lemma {:induction false} TotalOfOnes(cols: seq<string>, ys: seq<Row>, c: string, col: string, k: string, read: string -> Option<int>)
    requires c in cols && col in cols && Fit(ys, |cols|)
    requires forall r | r in ys :: Value(cols, r, col) == "1"
    requires read("1") == Some(1)
    ensures AllParse(cols, ys, col, read)
    ensures Total(cols, ys, c, col, k, read) == Tally(cols, ys, c, k)
  {
    assert forall j | 0 <= j < |ys| :: ys[j] in ys;
    if ys != [] {
      var init := ys[..|ys| - 1];
      assert forall r | r in init :: r in ys;
      assert forall j | 0 <= j < |init| :: init[j] == ys[j];
      TotalOfOnes(cols, init, c, col, k, read);
    }
  }

  /** Summing a column holding "1" in every row gives the same rows as count. */
  lemma SumOfOnesIsCount(g: GroupWrap, col: string, other: string, xs: seq<Row>)
    requires WrapValid(g) && IsEnumeration(xs, g.allGrouped.rows) && xs != []
    requires col in g.allGrouped.cols
    requires forall r | r in Members(g.allGrouped.rows) :: Value(g.allGrouped.cols, r, col) == "1"
    requires SumSpec(g, col, xs).Ok? && CountSpec(g, other).Ok?
    ensures SumSpec(g, col, xs).value.rows == CountSpec(g, other).value.rows
  {
    assert Decimal.PyInt("1") == Some(1) by {
      assert Decimal.IntText(1) == "1";
      Decimal.PyIntRoundTrip(1);
    }
    SumOfOnesWith(g, col, other, xs, Decimal.PyInt);
  }

  lemma SumOfOnesWith(g: GroupWrap, col: string, other: string, xs: seq<Row>, read: string -> Option<int>)
    requires WrapValid(g) && IsEnumeration(xs, g.allGrouped.rows) && xs != []
    requires col in g.allGrouped.cols && read("1") == Some(1)
    requires forall r | r in Members(g.allGrouped.rows) :: Value(g.allGrouped.cols, r, col) == "1"
    requires SumWith(g, col, xs, read).Ok? && CountSpec(g, other).Ok?
    ensures SumWith(g, col, xs, read).value.rows == CountSpec(g, other).value.rows
  {
    var rel := g.allGrouped;
    EnumerationMembers(xs, rel.rows);
    assert xs[0] in Members(rel.rows);
    SumWithRows(g, col, xs, read);
    CountSpecRows(g, other);
    OnesTotals(rel.cols, xs, Members(rel.rows), g.cols[0], col, read);
  }

  /** Over a column of ones, the totals per key are the group sizes. */
  lemma OnesTotals(cols: seq<string>, xs: seq<Row>, s: set<Row>, c: string, col: string, read: string -> Option<int>)
    requires c in cols && col in cols && Fit(xs, |cols|) && NoDup(xs) && read("1") == Some(1)
    requires forall r :: r in xs <==> r in s
    requires forall r | r in s :: |r| == |cols| && Value(cols, r, col) == "1"
    ensures AllParse(cols, xs, col, read)
    ensures KeysIn(cols, xs, c) == Keys(cols, s, c)
    ensures forall k :: Total(cols, xs, c, col, k, read) == |Group(cols, s, c, k)|
  {
    forall k ensures Total(cols, xs, c, col, k, read) == |Group(cols, s, c, k)| {
      TotalOfOnes(cols, xs, c, col, k, read);
      TallyGroup(cols, xs, c, k);
      assert GroupIn(cols, xs, c, k) == Group(cols, s, c, k);
    }
    TotalOfOnes(cols, xs, c, col, c, read);
  }

  /** A successful sum over rows, written out. */
  lemma SumWithRows(g: GroupWrap, col: string, xs: seq<Row>, read: string -> Option<int>)
    requires WrapValid(g) && IsEnumeration(xs, g.allGrouped.rows) && xs != [] && SumWith(g, col, xs, read).Ok?
    ensures var rel := g.allGrouped;
      && g.cols != [] && g.cols[0] in rel.cols && col in rel.cols && Fit(xs, |rel.cols|)
      && AllParse(rel.cols, xs, col, read)
      && SumWith(g, col, xs, read).value.rows
         == FrozenSet(set k | k in KeysIn(rel.cols, xs, g.cols[0]) :: [k, Decimal.IntText(Total(rel.cols, xs, g.cols[0], col, k, read))])
  {
    EnumerationFitsSeq(xs, g.allGrouped);
  }

  /** A successful count over rows, written out. */
  lemma CountSpecRows(g: GroupWrap, col: string)
    requires WrapValid(g) && Members(g.allGrouped.rows) != {} && CountSpec(g, col).Ok?
    ensures var rel := g.allGrouped; var s := Members(rel.rows);
      && g.cols != [] && g.cols[0] in rel.cols
      && CountSpec(g, col).value.rows
         == FrozenSet(set k | k in Keys(rel.cols, s, g.cols[0]) :: [k, Decimal.IntText(|Group(rel.cols, s, g.cols[0], k)|)])
  {
  }
}
