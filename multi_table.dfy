/** The multi-table operators: product, union, join, semijoin, antijoin and
    outerjoin. The join family reads its condition as three space-separated
    tokens "A op B"; the comparison the source evaluates with eval is passed
    in as cmp, applied to the value of A in the left row and of B in the right. */
module MultiTable {
  import opened Wrappers
  import opened Relations
  import JavaText

  /** rel.product(other): every left row followed by every right row.
      self.cols + other.cols raises TypeError when one is a list and the other
      a tuple; otherwise the result's columns are of the left kind. */
  function Product(a: Relation, b: Relation): (res: Result<Relation, Error>)
    requires Valid(a) && Valid(b)
    ensures res.Err? <==> a.listCols != b.listCols || !NoDup(a.cols + b.cols)
    ensures a.listCols != b.listCols ==> res == Err(ConcatTypeError)
    ensures a.listCols == b.listCols && !NoDup(a.cols + b.cols) ==> res == Err(BadFieldNames)
    ensures res.Ok? ==> Valid(res.value) && res.value.cols == a.cols + b.cols && res.value.rows.FrozenSet?
    ensures res.Ok? ==> res.value.listCols == a.listCols
    ensures res.Ok? ==> forall x, y | x in Members(a.rows) && y in Members(b.rows) :: x + y in Members(res.value.rows)
    ensures res.Ok? ==> forall z | z in Members(res.value.rows) ::
      z[..|a.cols|] in Members(a.rows) && z[|a.cols|..] in Members(b.rows)
  {
    if a.listCols != b.listCols then Err(ConcatTypeError)
    else if !NoDup(a.cols + b.cols) then Err(BadFieldNames)
    else
      AllFieldNamesFrom(a.cols + b.cols, a.cols, b.cols);
      var rows := Pairs(Members(a.rows), Members(b.rows));
      assert forall z | z in rows :: z[..|a.cols|] in Members(a.rows) && z[|a.cols|..] in Members(b.rows) by {
        forall z | z in rows ensures z[..|a.cols|] in Members(a.rows) && z[|a.cols|..] in Members(b.rows) {
          var x, y :| x in Members(a.rows) && y in Members(b.rows) && z == x + y;
          assert z[..|a.cols|] == x && z[|a.cols|..] == y;
        }
      }
      Ok(Relation(a.cols + b.cols, FrozenSet(rows), a.listCols))
  }

  /** The product has |self| * |other| rows: left rows all have the same
      length, so distinct pairs give distinct concatenations. */
  lemma ProductSize(a: Relation, b: Relation)
    requires Valid(a) && Valid(b) && Product(a, b).Ok?
    ensures Size(Product(a, b).value.rows) == |Members(a.rows)| * |Members(b.rows)|
  {
    PairsCard(Members(a.rows), Members(b.rows), |a.cols|);
  }

  /** Every x + y with x from s and y from t. */
  function Pairs(s: set<Row>, t: set<Row>): set<Row>
  {
    set x, y | x in s && y in t :: x + y
  }

  /** Every x0 + y with y from t. */
  function Prefixed(x0: Row, t: set<Row>): set<Row>
  {
    set y | y in t :: x0 + y
  }

  lemma PairsSplit(s: set<Row>, t: set<Row>, x0: Row)
    requires x0 in s
    ensures Pairs(s, t) == Pairs(s - {x0}, t) + Prefixed(x0, t)
  {
  }

  lemma PairsDisjoint(s: set<Row>, t: set<Row>, x0: Row, n: nat)
    requires forall x | x in s :: |x| == n
    requires x0 in s
    ensures Pairs(s - {x0}, t) !! Prefixed(x0, t)
  {
    forall z | z in Pairs(s - {x0}, t) ensures z !in Prefixed(x0, t) {
      var x, y :| x in s - {x0} && y in t && z == x + y;
      assert z[..n] == x;
      forall y0 | y0 in t ensures z != x0 + y0 {
        assert (x0 + y0)[..n] == x0;
      }
    }
  }

  lemma MultiplyStep(k: nat, m: nat)
    requires k > 0
    ensures k * m == (k - 1) * m + m
  {
  }

  lemma {:induction false} PairsCard(s: set<Row>, t: set<Row>, n: nat)
    requires forall x | x in s :: |x| == n
    ensures |Pairs(s, t)| == |s| * |t|
    decreases |s|
  {
    if s == {} {
      assert Pairs(s, t) == {};
    } else {
      var x0 :| x0 in s;
      PairsCard(s - {x0}, t, n);
      PrefixCard(x0, t);
      PairsSplit(s, t, x0);
      PairsDisjoint(s, t, x0, n);
      MultiplyStep(|s|, |t|);
    }
  }

  lemma {:induction false} PrefixCard(x0: Row, t: set<Row>)
    ensures |Prefixed(x0, t)| == |t|
    decreases |t|
  {
    if t != {} {
      var y0 :| y0 in t;
      PrefixCard(x0, t - {y0});
      var rest := Prefixed(x0, t - {y0});
      assert Prefixed(x0, t) == rest + {x0 + y0};
      assert x0 + y0 !in rest by {
        forall z | z in rest ensures z != x0 + y0 {
          var y :| y in t - {y0} && z == x0 + y;
          assert z[|x0|..] == y;
          assert (x0 + y0)[|x0|..] == y0;
        }
      }
    }
  }

  /** rel.union(other): all left rows and then all right rows, as a tuple that
      keeps duplicates; ValueError unless the two column lists compare equal,
      which a list and a tuple never do. The result's columns are a tuple. */
  method Union(a: Relation, b: Relation) returns (res: Result<Relation, Error>)
    requires Valid(a) && Valid(b)
    ensures res.Err? <==> a.cols != b.cols || a.listCols != b.listCols
    ensures res.Err? ==> res.error == NotUnionCompatible
    ensures res.Ok? ==> res.value.cols == a.cols && !res.value.listCols && IsUnionOf(res.value.rows, a.rows, b.rows)
  {
    if a.cols != b.cols || a.listCols != b.listCols {
      return Err(NotUnionCompatible);
    }
    var returnRows := UnionRows(a, b);
    res := Ok(Relation(a.cols, RowTuple(returnRows)));
  }

  /** The two loops of union over relations with the same columns. */
  method UnionRows(a: Relation, b: Relation) returns (returnRows: seq<Row>)
    requires Valid(a) && Valid(b) && a.cols == b.cols
    ensures IsUnionOf(RowTuple(returnRows), a.rows, b.rows)
  {
    var xs := Enumerate(a.rows);
    var ys := Enumerate(b.rows);
    EnumerationRowLengths(xs, a);
    EnumerationRowLengths(ys, b);
    returnRows := [];
    returnRows := AppendRows(returnRows, a.cols, xs);
    returnRows := AppendRows(returnRows, b.cols, ys);
    assert returnRows == xs + ys;
    ConcatEnumerations(xs, ys, a.rows, b.rows);
  }

  /** One loop of union: each visited row is rebuilt and appended. */
  method AppendRows(acc: seq<Row>, cols: seq<string>, xs: seq<Row>) returns (out: seq<Row>)
    requires NoDup(cols) && forall j | 0 <= j < |xs| :: |xs[j]| == |cols|
    ensures out == acc + xs
  {
    out := acc;
    for i := 0 to |xs|
      invariant out == acc + xs[..i]
    {
      var rebuilt := RebuildRow(cols, xs[i]);
      out := out + [rebuilt];
      assert xs[..i + 1] == xs[..i] + [xs[i]];
    }
    assert xs[..|xs|] == xs;
  }

  /** u is the tuple union builds from ra and rb: the rows of ra in iteration
      order followed by those of rb, len(ra) + len(rb) of them. */
  predicate IsUnionOf(u: Rows, ra: Rows, rb: Rows)
  {
    && u.RowTuple?
    && |u.items| == Size(ra) + Size(rb)
    && IsEnumeration(u.items[..Size(ra)], ra)
    && IsEnumeration(u.items[Size(ra)..], rb)
  }

  /** The union's rows are the rows of both, and it is a valid relation again. */
  lemma UnionMembers(a: Relation, b: Relation, u: Rows)
    requires Valid(a) && Valid(b) && a.cols == b.cols && IsUnionOf(u, a.rows, b.rows)
    ensures Members(u) == Members(a.rows) + Members(b.rows)
    ensures Valid(Relation(a.cols, u))
  {
    ConcatEnumerations(u.items[..Size(a.rows)], u.items[Size(a.rows)..], a.rows, b.rows);
    assert u.items == u.items[..Size(a.rows)] + u.items[Size(a.rows)..];
  }

  /** Two enumerations one after the other: the first part enumerates the
      first collection, the rest the second, and the members are the union. */
  lemma ConcatEnumerations(xs: seq<Row>, ys: seq<Row>, ra: Rows, rb: Rows)
    requires IsEnumeration(xs, ra) && IsEnumeration(ys, rb)
    ensures IsUnionOf(RowTuple(xs + ys), ra, rb)
    ensures Members(RowTuple(xs + ys)) == Members(ra) + Members(rb)
  {
    EnumerationMembers(xs, ra);
    EnumerationMembers(ys, rb);
    assert (xs + ys)[..|xs|] == xs && (xs + ys)[|xs|..] == ys;
    assert forall r :: r in xs + ys <==> r in xs || r in ys;
  }

  /** The string the join family hands to eval: "row.A op row2.B". */
  function ConditionText(t: seq<string>): string
    requires |t| >= 3
  {
    "row." + t[0] + " " + t[1] + " row2." + t[2]
  }

  /** Both compared column names occur in the condition text. */
  lemma ConditionMentions(t: seq<string>)
    requires |t| >= 3
    ensures JavaText.Occurs(t[0], ConditionText(t)) && JavaText.Occurs(t[2], ConditionText(t))
  {
    var cs := ConditionText(t);
    assert cs[4..4 + |t[0]|] == t[0];
    JavaText.OccursAt(t[0], cs, 4);
    var k := |cs| - |t[2]|;
    assert cs[k..k + |t[2]|] == t[2];
    JavaText.OccursAt(t[2], cs, k);
  }

  /** The columns join keeps: those whose name is not a substring of cs. */
  function KeptColumns(cols: seq<string>, cs: string): (r: seq<string>)
    ensures forall c | c in r :: c in cols && !JavaText.Occurs(c, cs)
    ensures forall c | c in cols && !JavaText.Occurs(c, cs) :: c in r
  {
    if cols == [] then []
    else (if JavaText.Occurs(cols[0], cs) then [] else [cols[0]]) + KeptColumns(cols[1..], cs)
  }

  /** The values of row r in the kept columns, in column order. */
  function KeptValues(cols: seq<string>, r: Row, cs: string): (v: Row)
    requires |r| == |cols|
    ensures |v| == |KeptColumns(cols, cs)|
  {
    if cols == [] then []
    else (if JavaText.Occurs(cols[0], cs) then [] else [r[0]]) + KeptValues(cols[1..], r[1..], cs)
  }

  /** The comparison of the condition holds between rows x and y. */
  predicate Matches(a: Relation, b: Relation, left: string, right: string, cmp: (string, string) -> bool, x: Row, y: Row)
    requires |x| == |a.cols| && |y| == |b.cols| && left in a.cols && right in b.cols
  {
    cmp(Value(a.cols, x, left), Value(b.cols, y, right))
  }

  /** What rel.join(other, condition) returns: self.cols + other.cols raises
      TypeError when one is a list and the other a tuple, and the kept columns
      are always a list. */
  function JoinSpec(a: Relation, b: Relation, condition: string, cmp: (string, string) -> bool): Result<Relation, Error>
    requires Valid(a) && Valid(b)
  {
    var t := JavaText.Fields(condition, ' ');
    if |t| < 3 then Err(IndexOutOfRange)
    else if a.listCols != b.listCols then Err(ConcatTypeError)
    else
      var cs := ConditionText(t);
      var cols := KeptColumns(a.cols, cs) + KeptColumns(b.cols, cs);
      if !NoDup(cols) then Err(BadFieldNames)
      else if Members(a.rows) != {} && Members(b.rows) != {} && t[0] !in a.cols then Err(NoSuchAttribute(t[0]))
      else if Members(a.rows) != {} && Members(b.rows) != {} && t[2] !in b.cols then Err(NoSuchAttribute(t[2]))
      else
        Ok(Relation(cols, FrozenSet(JoinedPairs(a, b, t[0], t[2], cmp, cs)), true))
  }

  /** The rows join builds: the kept values of each matching pair. */
  function JoinedPairs(a: Relation, b: Relation, left: string, right: string, cmp: (string, string) -> bool, cs: string): set<Row>
    requires Valid(a) && Valid(b)
    requires Members(a.rows) != {} && Members(b.rows) != {} ==> left in a.cols && right in b.cols
  {
    set x, y | x in Members(a.rows) && y in Members(b.rows) && Matches(a, b, left, right, cmp, x, y) ::
      KeptValues(a.cols, x, cs) + KeptValues(b.cols, y, cs)
  }

  /** A successful join has exactly the columns of both relations whose names
      do not occur in the condition text, so the compared columns are gone. */
  lemma JoinColumns(a: Relation, b: Relation, condition: string, cmp: (string, string) -> bool)
    requires Valid(a) && Valid(b) && JoinSpec(a, b, condition, cmp).Ok?
    ensures var t := JavaText.Fields(condition, ' '); var res := JoinSpec(a, b, condition, cmp).value;
      && Valid(res) && res.listCols
      && t[0] !in res.cols && t[2] !in res.cols
      && forall c :: c in res.cols <==> (c in a.cols || c in b.cols) && !JavaText.Occurs(c, ConditionText(t))
  {
    ConditionMentions(JavaText.Fields(condition, ' '));
    JoinSpecForm(a, b, condition, cmp);
    JoinValid(a, b, condition, cmp);
  }

  /** The result of a successful join, written out. */
  lemma JoinSpecForm(a: Relation, b: Relation, condition: string, cmp: (string, string) -> bool)
    requires Valid(a) && Valid(b) && JoinSpec(a, b, condition, cmp).Ok?
    ensures var t := JavaText.Fields(condition, ' ');
      && |t| >= 3 && (Members(a.rows) != {} && Members(b.rows) != {} ==> t[0] in a.cols && t[2] in b.cols)
      && var cs := ConditionText(t);
      && NoDup(KeptColumns(a.cols, cs) + KeptColumns(b.cols, cs))
      && JoinSpec(a, b, condition, cmp).value
         == Relation(KeptColumns(a.cols, cs) + KeptColumns(b.cols, cs), FrozenSet(JoinedPairs(a, b, t[0], t[2], cmp, cs)), true)
  {
  }

  /** A successful join is a relation whose columns are a list. */
  lemma JoinValid(a: Relation, b: Relation, condition: string, cmp: (string, string) -> bool)
    requires Valid(a) && Valid(b) && JoinSpec(a, b, condition, cmp).Ok?
    ensures Valid(JoinSpec(a, b, condition, cmp).value) && JoinSpec(a, b, condition, cmp).value.listCols
  {
    var cs := ConditionText(JavaText.Fields(condition, ' '));
    AllFieldNamesFrom(KeptColumns(a.cols, cs) + KeptColumns(b.cols, cs), a.cols, b.cols);
  }

  /** The joined rows the pairs of xs and ys produce. */
  function JoinedRows(a: Relation, b: Relation, left: string, right: string, cmp: (string, string) -> bool, cs: string, xs: seq<Row>, ys: seq<Row>): set<Row>
    requires left in a.cols && right in b.cols && Fit(xs, |a.cols|) && Fit(ys, |b.cols|)
  {
    set x, y | x in xs && y in ys && Matches(a, b, left, right, cmp, x, y) ::
      KeptValues(a.cols, x, cs) + KeptValues(b.cols, y, cs)
  }

  /** The joined rows one left row x produces against the rows ys. */
  function JoinedWith(a: Relation, b: Relation, left: string, right: string, cmp: (string, string) -> bool, cs: string, x: Row, ys: seq<Row>): set<Row>
    requires left in a.cols && right in b.cols && |x| == |a.cols| && Fit(ys, |b.cols|)
  {
    set y | y in ys && Matches(a, b, left, right, cmp, x, y) ::
      KeptValues(a.cols, x, cs) + KeptValues(b.cols, y, cs)
  }

  lemma JoinedRowsStep(a: Relation, b: Relation, left: string, right: string, cmp: (string, string) -> bool, cs: string, xs: seq<Row>, x: Row, ys: seq<Row>)
    requires left in a.cols && right in b.cols && Fit(xs + [x], |a.cols|) && Fit(ys, |b.cols|)
    ensures Fit(xs, |a.cols|) && |x| == |a.cols|
    ensures JoinedRows(a, b, left, right, cmp, cs, xs + [x], ys)
         == JoinedRows(a, b, left, right, cmp, cs, xs, ys) + JoinedWith(a, b, left, right, cmp, cs, x, ys)
  {
    assert x in xs + [x];
    assert forall r :: r in xs + [x] <==> r in xs || r == x;
  }

  lemma JoinedWithStep(a: Relation, b: Relation, left: string, right: string, cmp: (string, string) -> bool, cs: string, x: Row, ys: seq<Row>, y: Row)
    requires left in a.cols && right in b.cols && |x| == |a.cols| && Fit(ys + [y], |b.cols|)
    ensures Fit(ys, |b.cols|) && |y| == |b.cols|
    ensures JoinedWith(a, b, left, right, cmp, cs, x, ys + [y])
         == JoinedWith(a, b, left, right, cmp, cs, x, ys)
          + (if Matches(a, b, left, right, cmp, x, y) then {KeptValues(a.cols, x, cs) + KeptValues(b.cols, y, cs)} else {})
  {
    assert y in ys + [y];
    assert forall r :: r in ys + [y] <==> r in ys || r == y;
  }

  /** The pairs of x with the first j + 1 rows of ys are those with the
      first j and the pair with ys[j]. */
  lemma JoinedWithAt(a: Relation, b: Relation, left: string, right: string, cmp: (string, string) -> bool, cs: string, x: Row, ys: seq<Row>, j: nat)
    requires left in a.cols && right in b.cols && |x| == |a.cols| && Fit(ys, |b.cols|) && j < |ys|
    ensures Fit(ys[..j], |b.cols|) && Fit(ys[..j + 1], |b.cols|)
    ensures JoinedWith(a, b, left, right, cmp, cs, x, ys[..j + 1])
         == JoinedWith(a, b, left, right, cmp, cs, x, ys[..j])
          + (if Matches(a, b, left, right, cmp, x, ys[j]) then {KeptValues(a.cols, x, cs) + KeptValues(b.cols, ys[j], cs)} else {})
  {
    assert ys[..j + 1] == ys[..j] + [ys[j]];
    JoinedWithStep(a, b, left, right, cmp, cs, x, ys[..j], ys[j]);
  }

  /** The pairs of the first i + 1 rows of xs are those of the first i and
      the pairs of xs[i]. */
  lemma JoinedRowsAt(a: Relation, b: Relation, left: string, right: string, cmp: (string, string) -> bool, cs: string, xs: seq<Row>, i: nat, ys: seq<Row>)
    requires left in a.cols && right in b.cols && Fit(xs, |a.cols|) && Fit(ys, |b.cols|) && i < |xs|
    ensures Fit(xs[..i], |a.cols|) && Fit(xs[..i + 1], |a.cols|) && |xs[i]| == |a.cols|
    ensures JoinedRows(a, b, left, right, cmp, cs, xs[..i + 1], ys)
         == JoinedRows(a, b, left, right, cmp, cs, xs[..i], ys) + JoinedWith(a, b, left, right, cmp, cs, xs[i], ys)
  {
    assert xs[..i + 1] == xs[..i] + [xs[i]];
    JoinedRowsStep(a, b, left, right, cmp, cs, xs[..i], xs[i], ys);
  }

  /** The inner loop of join for one left row. */
  method JoinRow(a: Relation, b: Relation, left: string, right: string, cmp: (string, string) -> bool, cs: string, row: Row, ys: seq<Row>)
    returns (found: set<Row>)
    requires left in a.cols && right in b.cols && |row| == |a.cols| && Fit(ys, |b.cols|)
    ensures found == JoinedWith(a, b, left, right, cmp, cs, row, ys)
  {
    found := {};
    for j := 0 to |ys|
      invariant Fit(ys[..j], |b.cols|)
      invariant found == JoinedWith(a, b, left, right, cmp, cs, row, ys[..j])
    {
      var row2 := ys[j];
      JoinedWithAt(a, b, left, right, cmp, cs, row, ys, j);
      if cmp(Value(a.cols, row, left), Value(b.cols, row2, right)) {
        found := found + {KeptValues(a.cols, row, cs) + KeptValues(b.cols, row2, cs)};
      }
    }
    assert ys[..|ys|] == ys;
  }

  /** The outer loop of join. */
  method JoinLoop(a: Relation, b: Relation, left: string, right: string, cmp: (string, string) -> bool, cs: string, xs: seq<Row>, ys: seq<Row>)
    returns (rows: set<Row>)
    requires left in a.cols && right in b.cols && Fit(xs, |a.cols|) && Fit(ys, |b.cols|)
    ensures rows == JoinedRows(a, b, left, right, cmp, cs, xs, ys)
  {
    rows := {};
    for i := 0 to |xs|
      invariant Fit(xs[..i], |a.cols|)
      invariant rows == JoinedRows(a, b, left, right, cmp, cs, xs[..i], ys)
    {
      var row := xs[i];
      JoinedRowsAt(a, b, left, right, cmp, cs, xs, i, ys);
      var found := JoinRow(a, b, left, right, cmp, cs, row, ys);
      rows := rows + found;
    }
    assert xs[..|xs|] == xs;
  }

  /** The rows of an enumeration fit their relation. */
  lemma EnumerationFits(xs: seq<Row>, rel: Relation)
    requires Valid(rel) && IsEnumeration(xs, rel.rows)
    ensures Fit(xs, |rel.cols|)
    ensures forall r :: r in xs <==> r in Members(rel.rows)
  {
    EnumerationMembers(xs, rel.rows);
  }

  /** The loops' rows are the join's rows once the enumerations are fixed. */
  lemma JoinSpecRows(a: Relation, b: Relation, condition: string, cmp: (string, string) -> bool, xs: seq<Row>, ys: seq<Row>)
    requires Valid(a) && Valid(b) && IsEnumeration(xs, a.rows) && IsEnumeration(ys, b.rows)
    requires var t := JavaText.Fields(condition, ' '); |t| >= 3 && t[0] in a.cols && t[2] in b.cols
    requires var cs := ConditionText(JavaText.Fields(condition, ' '));
      NoDup(KeptColumns(a.cols, cs) + KeptColumns(b.cols, cs)) && a.listCols == b.listCols
    ensures Fit(xs, |a.cols|) && Fit(ys, |b.cols|)
    ensures JoinSpec(a, b, condition, cmp).Ok?
    ensures var t := JavaText.Fields(condition, ' ');
      JoinSpec(a, b, condition, cmp).value.rows.members == JoinedRows(a, b, t[0], t[2], cmp, ConditionText(t), xs, ys)
  {
    EnumerationFits(xs, a);
    EnumerationFits(ys, b);
    var t := JavaText.Fields(condition, ' ');
    var cs := ConditionText(t);
    JoinedRowsOver(a, b, t[0], t[2], cmp, cs, xs, ys);
  }

  /** JoinedRows over enumerations of the rows of a and b is the join of their rows. */
  lemma JoinedRowsOver(a: Relation, b: Relation, left: string, right: string, cmp: (string, string) -> bool, cs: string,
                       xs: seq<Row>, ys: seq<Row>)
    requires Valid(a) && Valid(b) && left in a.cols && right in b.cols && Fit(xs, |a.cols|) && Fit(ys, |b.cols|)
    requires (forall r :: r in xs <==> r in Members(a.rows)) && (forall r :: r in ys <==> r in Members(b.rows))
    ensures JoinedRows(a, b, left, right, cmp, cs, xs, ys) == JoinedPairs(a, b, left, right, cmp, cs)
  {
  }

  /** With rows on both sides, a join attribute missing from its side is
      reported by name, the left one first. */
  lemma JoinSpecMissing(a: Relation, b: Relation, condition: string, cmp: (string, string) -> bool)
    requires Valid(a) && Valid(b) && Members(a.rows) != {} && Members(b.rows) != {}
    requires var t := JavaText.Fields(condition, ' '); |t| >= 3
    requires var cs := ConditionText(JavaText.Fields(condition, ' '));
      NoDup(KeptColumns(a.cols, cs) + KeptColumns(b.cols, cs)) && a.listCols == b.listCols
    ensures var t := JavaText.Fields(condition, ' ');
      && (t[0] !in a.cols ==> JoinSpec(a, b, condition, cmp) == Err(NoSuchAttribute(t[0])))
      && (t[0] in a.cols && t[2] !in b.cols ==> JoinSpec(a, b, condition, cmp) == Err(NoSuchAttribute(t[2])))
  {
  }

  /** When one side is empty no pair is visited and the join is empty. */
  lemma JoinSpecNoPairs(a: Relation, b: Relation, condition: string, cmp: (string, string) -> bool)
    requires Valid(a) && Valid(b) && |JavaText.Fields(condition, ' ')| >= 3
    requires var cs := ConditionText(JavaText.Fields(condition, ' '));
      NoDup(KeptColumns(a.cols, cs) + KeptColumns(b.cols, cs)) && a.listCols == b.listCols
    requires Members(a.rows) == {} || Members(b.rows) == {}
    ensures JoinSpec(a, b, condition, cmp).Ok?
    ensures JoinSpec(a, b, condition, cmp).value.rows.members == {}
  {
  }

  /** rel.join(other, condition). */
  method Join(a: Relation, b: Relation, condition: string, cmp: (string, string) -> bool) returns (res: Result<Relation, Error>)
    requires Valid(a) && Valid(b)
    ensures res == JoinSpec(a, b, condition, cmp)
  {
    var t := JavaText.Fields(condition, ' ');
    if |t| < 3 {
      return Err(IndexOutOfRange);
    }
    if a.listCols != b.listCols {
      return Err(ConcatTypeError);
    }
    var cs := ConditionText(t);
    var newCols := KeptColumns(a.cols, cs) + KeptColumns(b.cols, cs);
    if !NoDup(newCols) {
      return Err(BadFieldNames);
    }
    res := JoinPairs(a, b, condition, cmp);
  }

  /** The part of join after the column check: the visit of every pair. */
  method JoinPairs(a: Relation, b: Relation, condition: string, cmp: (string, string) -> bool) returns (res: Result<Relation, Error>)
    requires Valid(a) && Valid(b) && |JavaText.Fields(condition, ' ')| >= 3
    requires var cs := ConditionText(JavaText.Fields(condition, ' '));
      NoDup(KeptColumns(a.cols, cs) + KeptColumns(b.cols, cs)) && a.listCols == b.listCols
    ensures res == JoinSpec(a, b, condition, cmp)
  {
    var t := JavaText.Fields(condition, ' ');
    var cs := ConditionText(t);
    var newCols := KeptColumns(a.cols, cs) + KeptColumns(b.cols, cs);
    var xs := Enumerate(a.rows);
    var ys := Enumerate(b.rows);
    EnumerationFits(xs, a);
    EnumerationFits(ys, b);
    if xs == [] || ys == [] {
      // no pair is visited, so eval never runs
      JoinSpecNoPairs(a, b, condition, cmp);
      return Ok(Relation(newCols, FrozenSet({}), true));
    }
    res := JoinVisit(a, b, condition, cmp, xs, ys);
  }

  /** The part of join with a pair to visit: eval reads row.A and then
      row2.B on the first pair, and the loops build the rows. */
  method JoinVisit(a: Relation, b: Relation, condition: string, cmp: (string, string) -> bool, xs: seq<Row>, ys: seq<Row>)
    returns (res: Result<Relation, Error>)
    requires Valid(a) && Valid(b) && |JavaText.Fields(condition, ' ')| >= 3
    requires var cs := ConditionText(JavaText.Fields(condition, ' '));
      NoDup(KeptColumns(a.cols, cs) + KeptColumns(b.cols, cs)) && a.listCols == b.listCols
    requires IsEnumeration(xs, a.rows) && IsEnumeration(ys, b.rows) && xs != [] && ys != []
    ensures res == JoinSpec(a, b, condition, cmp)
  {
    var t := JavaText.Fields(condition, ' ');
    var cs := ConditionText(t);
    var newCols := KeptColumns(a.cols, cs) + KeptColumns(b.cols, cs);
    EnumerationFits(xs, a);
    EnumerationFits(ys, b);
    assert xs[0] in Members(a.rows) && ys[0] in Members(b.rows);
    JoinSpecMissing(a, b, condition, cmp);
    if t[0] !in a.cols {
      return Err(NoSuchAttribute(t[0]));
    }
    if t[2] !in b.cols {
      return Err(NoSuchAttribute(t[2]));
    }
    var rows := JoinLoop(a, b, t[0], t[2], cmp, cs, xs, ys);
    JoinSpecRows(a, b, condition, cmp, xs, ys);
    res := Ok(Relation(newCols, FrozenSet(rows), true));
  }

  /** Some row of ys matches the left row x. */
  predicate HasMatch(a: Relation, b: Relation, left: string, right: string, cmp: (string, string) -> bool, x: Row, ys: seq<Row>)
    requires left in a.cols && right in b.cols && |x| == |a.cols| && Fit(ys, |b.cols|)
  {
    exists y | y in ys :: Matches(a, b, left, right, cmp, x, y)
  }

  lemma HasMatchStep(a: Relation, b: Relation, left: string, right: string, cmp: (string, string) -> bool, x: Row, ys: seq<Row>, y: Row)
    requires left in a.cols && right in b.cols && |x| == |a.cols| && Fit(ys + [y], |b.cols|)
    ensures Fit(ys, |b.cols|) && |y| == |b.cols|
    ensures HasMatch(a, b, left, right, cmp, x, ys + [y])
        <==> HasMatch(a, b, left, right, cmp, x, ys) || Matches(a, b, left, right, cmp, x, y)
  {
    assert y in ys + [y];
    assert forall r :: r in ys + [y] <==> r in ys || r == y;
  }

  /** What rel.semijoin(other, condition) returns: the left rows, unchanged,
      that match at least one right row, under the columns of self. */
  function SemiJoinSpec(a: Relation, b: Relation, condition: string, cmp: (string, string) -> bool): Result<Relation, Error>
    requires Valid(a) && Valid(b)
  {
    var t := JavaText.Fields(condition, ' ');
    if |t| < 3 then Err(IndexOutOfRange)
    else if Members(a.rows) != {} && Members(b.rows) != {} && t[0] !in a.cols then Err(NoSuchAttribute(t[0]))
    else if Members(a.rows) != {} && Members(b.rows) != {} && t[2] !in b.cols then Err(NoSuchAttribute(t[2]))
    else
      Ok(Relation(a.cols, FrozenSet(
        set x | x in Members(a.rows) && exists y | y in Members(b.rows) :: Matches(a, b, t[0], t[2], cmp, x, y)), a.listCols))
  }

  /** The inner loop of semijoin for one left row: it appends the row once
      per match, which in the frozenset is the row once if there is a match. */
  method MatchAny(a: Relation, b: Relation, left: string, right: string, cmp: (string, string) -> bool, row: Row, ys: seq<Row>)
    returns (matched: bool)
    requires left in a.cols && right in b.cols && |row| == |a.cols| && Fit(ys, |b.cols|)
    ensures matched == HasMatch(a, b, left, right, cmp, row, ys)
  {
    matched := false;
    for j := 0 to |ys|
      invariant Fit(ys[..j], |b.cols|)
      invariant matched == HasMatch(a, b, left, right, cmp, row, ys[..j])
    {
      var row2 := ys[j];
      assert ys[..j + 1] == ys[..j] + [row2];
      HasMatchStep(a, b, left, right, cmp, row, ys[..j], row2);
      if cmp(Value(a.cols, row, left), Value(b.cols, row2, right)) {
        matched := true;
      }
    }
    assert ys[..|ys|] == ys;
  }

  /** The left rows of xs that match some row of ys. */
  function MatchedRows(a: Relation, b: Relation, left: string, right: string, cmp: (string, string) -> bool, xs: seq<Row>, ys: seq<Row>): set<Row>
    requires left in a.cols && right in b.cols && Fit(xs, |a.cols|) && Fit(ys, |b.cols|)
  {
    set x | x in xs && HasMatch(a, b, left, right, cmp, x, ys)
  }

  /** The outer loop of semijoin. */
  method SemiJoinLoop(a: Relation, b: Relation, left: string, right: string, cmp: (string, string) -> bool, xs: seq<Row>, ys: seq<Row>)
    returns (rows: set<Row>)
    requires left in a.cols && right in b.cols && Fit(xs, |a.cols|) && Fit(ys, |b.cols|)
    ensures rows == MatchedRows(a, b, left, right, cmp, xs, ys)
  {
    rows := {};
    for i := 0 to |xs|
      invariant rows == MatchedRows(a, b, left, right, cmp, xs[..i], ys)
    {
      var row := xs[i];
      assert xs[..i + 1] == xs[..i] + [row];
      assert forall r :: r in xs[..i + 1] <==> r in xs[..i] || r == row;
      assert row in xs;
      var matched := MatchAny(a, b, left, right, cmp, row, ys);
      if matched {
        rows := rows + {row};
      }
    }
    assert xs[..|xs|] == xs;
  }

  /** rel.semijoin(other, condition). */
  method SemiJoin(a: Relation, b: Relation, condition: string, cmp: (string, string) -> bool) returns (res: Result<Relation, Error>)
    requires Valid(a) && Valid(b)
    ensures res == SemiJoinSpec(a, b, condition, cmp)
  {
    var t := JavaText.Fields(condition, ' ');
    if |t| < 3 {
      return Err(IndexOutOfRange);
    }
    res := SemiJoinPairs(a, b, condition, cmp);
  }

  /** The part of semijoin after the token check: the visit of every pair. */
  method SemiJoinPairs(a: Relation, b: Relation, condition: string, cmp: (string, string) -> bool) returns (res: Result<Relation, Error>)
    requires Valid(a) && Valid(b) && |JavaText.Fields(condition, ' ')| >= 3
    ensures res == SemiJoinSpec(a, b, condition, cmp)
  {
    var t := JavaText.Fields(condition, ' ');
    var xs := Enumerate(a.rows);
    var ys := Enumerate(b.rows);
    EnumerationFits(xs, a);
    EnumerationFits(ys, b);
    if xs == [] || ys == [] {
      // no pair is visited, so eval never runs
      SemiJoinNoPairs(a, b, condition, cmp);
      return Ok(Relation(a.cols, FrozenSet({}), a.listCols));
    }
    assert xs[0] in Members(a.rows) && ys[0] in Members(b.rows);
    SemiJoinSpecMissing(a, b, condition, cmp);
    if t[0] !in a.cols {
      return Err(NoSuchAttribute(t[0]));
    }
    if t[2] !in b.cols {
      return Err(NoSuchAttribute(t[2]));
    }
    var rows := SemiJoinLoop(a, b, t[0], t[2], cmp, xs, ys);
    SemiJoinSpecRows(a, b, condition, cmp, xs, ys);
    res := Ok(Relation(a.cols, FrozenSet(rows), a.listCols));
  }

  /** With rows on both sides, a semijoin attribute missing from its side is
      reported by name, the left one first. */
  lemma SemiJoinSpecMissing(a: Relation, b: Relation, condition: string, cmp: (string, string) -> bool)
    requires Valid(a) && Valid(b) && Members(a.rows) != {} && Members(b.rows) != {}
    requires |JavaText.Fields(condition, ' ')| >= 3
    ensures var t := JavaText.Fields(condition, ' ');
      && (t[0] !in a.cols ==> SemiJoinSpec(a, b, condition, cmp) == Err(NoSuchAttribute(t[0])))
      && (t[0] in a.cols && t[2] !in b.cols ==> SemiJoinSpec(a, b, condition, cmp) == Err(NoSuchAttribute(t[2])))
  {
  }

  /** When one side is empty no pair is visited and the semijoin is empty. */
  lemma SemiJoinNoPairs(a: Relation, b: Relation, condition: string, cmp: (string, string) -> bool)
    requires Valid(a) && Valid(b) && |JavaText.Fields(condition, ' ')| >= 3
    requires Members(a.rows) == {} || Members(b.rows) == {}
    ensures SemiJoinSpec(a, b, condition, cmp).Ok?
    ensures SemiJoinSpec(a, b, condition, cmp).value.rows.members == {}
  {
    var rows := SemiJoinSpec(a, b, condition, cmp).value.rows.members;
    assert rows <= Members(a.rows);
    assert forall x | x in rows :: exists y :: y in Members(b.rows);
  }

  /** The loops' rows are the semijoin's rows once the enumerations are fixed. */
  lemma SemiJoinSpecRows(a: Relation, b: Relation, condition: string, cmp: (string, string) -> bool, xs: seq<Row>, ys: seq<Row>)
    requires Valid(a) && Valid(b) && IsEnumeration(xs, a.rows) && IsEnumeration(ys, b.rows)
    requires var t := JavaText.Fields(condition, ' '); |t| >= 3 && t[0] in a.cols && t[2] in b.cols
    ensures Fit(xs, |a.cols|) && Fit(ys, |b.cols|)
    ensures SemiJoinSpec(a, b, condition, cmp).Ok?
    ensures var t := JavaText.Fields(condition, ' ');
      SemiJoinSpec(a, b, condition, cmp).value.rows.members == MatchedRows(a, b, t[0], t[2], cmp, xs, ys)
  {
    EnumerationFits(xs, a);
    EnumerationFits(ys, b);
  }

  /** The semijoin keeps left rows only: a subset of self with its columns. */
  lemma SemiJoinSubset(a: Relation, b: Relation, condition: string, cmp: (string, string) -> bool)
    requires Valid(a) && Valid(b) && SemiJoinSpec(a, b, condition, cmp).Ok?
    ensures var res := SemiJoinSpec(a, b, condition, cmp).value;
      res.cols == a.cols && res.listCols == a.listCols && Valid(res) && Members(res.rows) <= Members(a.rows)
  {
  }

  /** Some row of ys holds v in column right. */
  predicate HasEqual(b: Relation, right: string, v: string, ys: seq<Row>)
    requires right in b.cols && Fit(ys, |b.cols|)
  {
    exists y | y in ys :: Value(b.cols, y, right) == v
  }

  /** What rel.antijoin(other, condition) returns: the left rows whose value
      of A equals the value of B in no right row. The operator token is not
      looked at. getattr(row, A) runs for every left row, also when other
      is empty. */
  function AntiJoinSpec(a: Relation, b: Relation, condition: string): Result<Relation, Error>
    requires Valid(a) && Valid(b)
  {
    var t := JavaText.Fields(condition, ' ');
    if |t| < 3 then Err(IndexOutOfRange)
    else if Members(a.rows) != {} && t[0] !in a.cols then Err(NoSuchAttribute(t[0]))
    else if Members(a.rows) != {} && Members(b.rows) != {} && t[2] !in b.cols then Err(NoSuchAttribute(t[2]))
    else
      Ok(Relation(a.cols, FrozenSet(
        set x | x in Members(a.rows) && !exists y | y in Members(b.rows) :: Value(b.cols, y, t[2]) == Value(a.cols, x, t[0]))))
  }

  /** With left rows, a missing left attribute is reported by name; with
      right rows too, so is a missing right attribute. */
  lemma AntiJoinSpecMissing(a: Relation, b: Relation, condition: string)
    requires Valid(a) && Valid(b) && Members(a.rows) != {}
    requires |JavaText.Fields(condition, ' ')| >= 3
    ensures var t := JavaText.Fields(condition, ' ');
      && (t[0] !in a.cols ==> AntiJoinSpec(a, b, condition) == Err(NoSuchAttribute(t[0])))
      && (t[0] in a.cols && t[2] !in b.cols && Members(b.rows) != {} ==> AntiJoinSpec(a, b, condition) == Err(NoSuchAttribute(t[2])))
  {
  }

  /** An empty left relation gives an empty antijoin. */
  lemma AntiJoinNoRows(a: Relation, b: Relation, condition: string)
    requires Valid(a) && Valid(b) && |JavaText.Fields(condition, ' ')| >= 3
    requires Members(a.rows) == {}
    ensures AntiJoinSpec(a, b, condition).Ok?
    ensures AntiJoinSpec(a, b, condition).value.rows.members == {}
  {
    assert AntiJoinSpec(a, b, condition).value.rows.members <= Members(a.rows);
  }

  /** The inner loop of antijoin: scan the right rows until one holds the
      value, then break. */
  method FindEqual(b: Relation, right: string, check: string, ys: seq<Row>) returns (matched: bool)
    requires right in b.cols && Fit(ys, |b.cols|)
    ensures matched == HasEqual(b, right, check, ys)
  {
    matched := false;
    var j := 0;
    while j < |ys|
      invariant 0 <= j <= |ys|
      invariant !HasEqual(b, right, check, ys[..j])
    {
      assert ys[j] in ys;
      if check == Value(b.cols, ys[j], right) {
        matched := true;
        break;
      }
      assert forall r :: r in ys[..j + 1] <==> r in ys[..j] || r == ys[j];
      j := j + 1;
    }
    assert !matched ==> ys[..j] == ys;
  }

  /** The left rows of xs whose value of left no row of ys holds in right. */
  function UnmatchedRows(a: Relation, b: Relation, left: string, right: string, xs: seq<Row>, ys: seq<Row>): set<Row>
    requires left in a.cols && right in b.cols && Fit(xs, |a.cols|) && Fit(ys, |b.cols|)
  {
    set x | x in xs && !HasEqual(b, right, Value(a.cols, x, left), ys)
  }

  /** The outer loop of antijoin. */
  method AntiJoinLoop(a: Relation, b: Relation, left: string, right: string, xs: seq<Row>, ys: seq<Row>)
    returns (rows: set<Row>)
    requires Valid(a) && left in a.cols && right in b.cols && Fit(xs, |a.cols|) && Fit(ys, |b.cols|)
    ensures rows == UnmatchedRows(a, b, left, right, xs, ys)
  {
    rows := {};
    for i := 0 to |xs|
      invariant rows == UnmatchedRows(a, b, left, right, xs[..i], ys)
    {
      var row := xs[i];
      assert xs[..i + 1] == xs[..i] + [row];
      assert forall r :: r in xs[..i + 1] <==> r in xs[..i] || r == row;
      assert row in xs;
      var check := Value(a.cols, row, left);
      var matched := FindEqual(b, right, check, ys);
      if !matched {
        var rebuilt := RebuildRow(a.cols, row);
        rows := rows + {rebuilt};
      }
    }
    assert xs[..|xs|] == xs;
  }

  /** rel.antijoin(other, condition). */
  method AntiJoin(a: Relation, b: Relation, condition: string) returns (res: Result<Relation, Error>)
    requires Valid(a) && Valid(b)
    ensures res == AntiJoinSpec(a, b, condition)
  {
    var t := JavaText.Fields(condition, ' ');
    if |t| < 3 {
      return Err(IndexOutOfRange);
    }
    var xs := Enumerate(a.rows);
    var ys := Enumerate(b.rows);
    EnumerationFits(xs, a);
    EnumerationFits(ys, b);
    if xs == [] {
      AntiJoinNoRows(a, b, condition);
      return Ok(Relation(a.cols, FrozenSet({})));
    }
    res := AntiJoinVisit(a, b, condition, xs, ys);
  }

  /** The part of antijoin with a left row to visit: the left attribute is
      read first, the right one only when there is a right row. */
  method AntiJoinVisit(a: Relation, b: Relation, condition: string, xs: seq<Row>, ys: seq<Row>) returns (res: Result<Relation, Error>)
    requires Valid(a) && Valid(b) && |JavaText.Fields(condition, ' ')| >= 3
    requires IsEnumeration(xs, a.rows) && IsEnumeration(ys, b.rows) && xs != []
    ensures res == AntiJoinSpec(a, b, condition)
  {
    var t := JavaText.Fields(condition, ' ');
    EnumerationFits(xs, a);
    EnumerationFits(ys, b);
    assert xs[0] in Members(a.rows);
    AntiJoinSpecMissing(a, b, condition);
    if t[0] !in a.cols {
      return Err(NoSuchAttribute(t[0]));
    }
    if ys != [] {
      assert ys[0] in Members(b.rows);
      if t[2] !in b.cols {
        return Err(NoSuchAttribute(t[2]));
      }
    } else {
      assert Members(b.rows) == {};
      // no right row is visited: every left row is kept
      var rows := AntiJoinAll(a, t[0], xs);
      AntiJoinSpecAll(a, b, condition, xs);
      return Ok(Relation(a.cols, FrozenSet(rows)));
    }
    var rows := AntiJoinLoop(a, b, t[0], t[2], xs, ys);
    AntiJoinSpecRows(a, b, condition, xs, ys);
    res := Ok(Relation(a.cols, FrozenSet(rows)));
  }

  /** The loops' rows are the antijoin's rows once the enumerations are fixed. */
  lemma AntiJoinSpecRows(a: Relation, b: Relation, condition: string, xs: seq<Row>, ys: seq<Row>)
    requires Valid(a) && Valid(b) && IsEnumeration(xs, a.rows) && IsEnumeration(ys, b.rows)
    requires var t := JavaText.Fields(condition, ' '); |t| >= 3 && t[0] in a.cols && t[2] in b.cols
    ensures Fit(xs, |a.cols|) && Fit(ys, |b.cols|)
    ensures AntiJoinSpec(a, b, condition).Ok?
    ensures var t := JavaText.Fields(condition, ' ');
      AntiJoinSpec(a, b, condition).value.rows.members == UnmatchedRows(a, b, t[0], t[2], xs, ys)
  {
    EnumerationFits(xs, a);
    EnumerationFits(ys, b);
  }

  /** Against an empty right relation the antijoin is all of self. */
  lemma AntiJoinSpecAll(a: Relation, b: Relation, condition: string, xs: seq<Row>)
    requires Valid(a) && Valid(b) && IsEnumeration(xs, a.rows) && Members(b.rows) == {}
    requires var t := JavaText.Fields(condition, ' '); |t| >= 3 && (Members(a.rows) != {} ==> t[0] in a.cols)
    ensures AntiJoinSpec(a, b, condition).Ok?
    ensures AntiJoinSpec(a, b, condition).value.rows.members == set x | x in xs
  {
    EnumerationMembers(xs, a.rows);
  }

  /** The outer loop of antijoin against an empty right relation: the inner
      loop never runs, so every rebuilt row is kept. */
  method AntiJoinAll(a: Relation, left: string, xs: seq<Row>) returns (rows: set<Row>)
    requires Valid(a) && left in a.cols && Fit(xs, |a.cols|)
    ensures rows == set x | x in xs
  {
    rows := {};
    for i := 0 to |xs|
      invariant rows == set x | x in xs[..i]
    {
      var row := xs[i];
      assert xs[..i + 1] == xs[..i] + [row];
      assert forall r :: r in xs[..i + 1] <==> r in xs[..i] || r == row;
      assert row in xs;
      var check := Value(a.cols, row, left);
      var rebuilt := RebuildRow(a.cols, row);
      rows := rows + {rebuilt};
    }
    assert xs[..|xs|] == xs;
  }

  /** With an equality condition the semijoin and the antijoin split self:
      every left row is in exactly one of them. */
  lemma SemiAntiPartition(a: Relation, b: Relation, condition: string, cmp: (string, string) -> bool)
    requires Valid(a) && Valid(b)
    requires forall p, q :: cmp(p, q) <==> p == q
    requires SemiJoinSpec(a, b, condition, cmp).Ok? && AntiJoinSpec(a, b, condition).Ok?
    ensures var semi := Members(SemiJoinSpec(a, b, condition, cmp).value.rows);
      var anti := Members(AntiJoinSpec(a, b, condition).value.rows);
      semi + anti == Members(a.rows) && semi !! anti
  {
    var t := JavaText.Fields(condition, ' ');
    var semi := Members(SemiJoinSpec(a, b, condition, cmp).value.rows);
    var anti := Members(AntiJoinSpec(a, b, condition).value.rows);
    forall x | x in Members(a.rows)
      ensures x in anti <==> x !in semi
    {
      if Members(b.rows) != {} {
        assert (exists y | y in Members(b.rows) :: Matches(a, b, t[0], t[2], cmp, x, y))
            <==> (exists y | y in Members(b.rows) :: Value(b.cols, y, t[2]) == Value(a.cols, x, t[0]));
      }
    }
    SplitSet(Members(a.rows), semi, anti);
  }

  lemma SplitSet(m: set<Row>, p: set<Row>, q: set<Row>)
    requires p <= m && q <= m
    requires forall x | x in m :: x in q <==> x !in p
    ensures p + q == m && p !! q
  {
  }

  /** One "NULL" per column of the other relation. */
  function Nulls(n: nat): (r: Row)
    ensures |r| == n && forall k | 0 <= k < n :: r[k] == "NULL"
  {
    seq(n, _ => "NULL")
  }

  /** What rel.outerjoin(other, condition) returns: every matching pair
      concatenated, and every left row matching nothing padded with NULLs.
      self.cols + other.cols raises TypeError when one is a list and the other
      a tuple; otherwise the result's columns are of the left kind. */
  function OuterJoinSpec(a: Relation, b: Relation, condition: string, cmp: (string, string) -> bool): Result<Relation, Error>
    requires Valid(a) && Valid(b)
  {
    var t := JavaText.Fields(condition, ' ');
    if |t| < 3 then Err(IndexOutOfRange)
    else if a.listCols != b.listCols then Err(ConcatTypeError)
    else if !NoDup(a.cols + b.cols) then Err(BadFieldNames)
    else if Members(a.rows) != {} && Members(b.rows) != {} && t[0] !in a.cols then Err(NoSuchAttribute(t[0]))
    else if Members(a.rows) != {} && Members(b.rows) != {} && t[2] !in b.cols then Err(NoSuchAttribute(t[2]))
    else
      Ok(Relation(a.cols + b.cols, FrozenSet(OuterJoined(a, b, t[0], t[2], cmp)), a.listCols))
  }

  /** The rows outerjoin builds: every matching pair concatenated, and every
      left row matching nothing padded with NULLs. */
  function OuterJoined(a: Relation, b: Relation, left: string, right: string, cmp: (string, string) -> bool): set<Row>
    requires Valid(a) && Valid(b)
    requires Members(a.rows) != {} && Members(b.rows) != {} ==> left in a.cols && right in b.cols
  {
    (set x, y | x in Members(a.rows) && y in Members(b.rows) && Matches(a, b, left, right, cmp, x, y) :: x + y)
    + (set x | x in Members(a.rows) && !(exists y | y in Members(b.rows) :: Matches(a, b, left, right, cmp, x, y)) ::
         x + Nulls(|b.cols|))
  }

  /** The rows one left row x produces against ys: one per match. */
  function PairedWith(a: Relation, b: Relation, left: string, right: string, cmp: (string, string) -> bool, x: Row, ys: seq<Row>): set<Row>
    requires left in a.cols && right in b.cols && |x| == |a.cols| && Fit(ys, |b.cols|)
  {
    set y | y in ys && Matches(a, b, left, right, cmp, x, y) :: x + y
  }

  /** The rows outerjoin builds from the pairs of xs and ys. */
  function OuterRows(a: Relation, b: Relation, left: string, right: string, cmp: (string, string) -> bool, xs: seq<Row>, ys: seq<Row>): set<Row>
    requires left in a.cols && right in b.cols && Fit(xs, |a.cols|) && Fit(ys, |b.cols|)
  {
    MatchedPairs(a, b, left, right, cmp, xs, ys) + Unmatched(a, b, left, right, cmp, xs, ys)
  }

  /** Each matching pair of a row of xs and a row of ys, concatenated. */
  function MatchedPairs(a: Relation, b: Relation, left: string, right: string, cmp: (string, string) -> bool, xs: seq<Row>, ys: seq<Row>): set<Row>
    requires left in a.cols && right in b.cols && Fit(xs, |a.cols|) && Fit(ys, |b.cols|)
  {
    set x, y | x in xs && y in ys && Matches(a, b, left, right, cmp, x, y) :: x + y
  }

  /** Each row of xs that matches no row of ys, padded with NULLs. */
  function Unmatched(a: Relation, b: Relation, left: string, right: string, cmp: (string, string) -> bool, xs: seq<Row>, ys: seq<Row>): set<Row>
    requires left in a.cols && right in b.cols && Fit(xs, |a.cols|) && Fit(ys, |b.cols|)
  {
    set x | x in xs && !HasMatch(a, b, left, right, cmp, x, ys) :: x + Nulls(|b.cols|)
  }

  lemma OuterRowsStep(a: Relation, b: Relation, left: string, right: string, cmp: (string, string) -> bool, xs: seq<Row>, x: Row, ys: seq<Row>)
    requires left in a.cols && right in b.cols && Fit(xs + [x], |a.cols|) && Fit(ys, |b.cols|)
    ensures Fit(xs, |a.cols|) && |x| == |a.cols|
    ensures OuterRows(a, b, left, right, cmp, xs + [x], ys)
         == OuterRows(a, b, left, right, cmp, xs, ys) + PairedWith(a, b, left, right, cmp, x, ys)
          + (if HasMatch(a, b, left, right, cmp, x, ys) then {} else {x + Nulls(|b.cols|)})
  {
    MatchedPairsStep(a, b, left, right, cmp, xs, x, ys);
    UnmatchedStep(a, b, left, right, cmp, xs, x, ys);
  }

  lemma MatchedPairsStep(a: Relation, b: Relation, left: string, right: string, cmp: (string, string) -> bool, xs: seq<Row>, x: Row, ys: seq<Row>)
    requires left in a.cols && right in b.cols && Fit(xs + [x], |a.cols|) && Fit(ys, |b.cols|)
    ensures Fit(xs, |a.cols|) && |x| == |a.cols|
    ensures MatchedPairs(a, b, left, right, cmp, xs + [x], ys)
         == MatchedPairs(a, b, left, right, cmp, xs, ys) + PairedWith(a, b, left, right, cmp, x, ys)
  {
    assert x in xs + [x];
    assert forall r :: r in xs + [x] <==> r in xs || r == x;
  }

  lemma UnmatchedStep(a: Relation, b: Relation, left: string, right: string, cmp: (string, string) -> bool, xs: seq<Row>, x: Row, ys: seq<Row>)
    requires left in a.cols && right in b.cols && Fit(xs + [x], |a.cols|) && Fit(ys, |b.cols|)
    ensures Fit(xs, |a.cols|) && |x| == |a.cols|
    ensures Unmatched(a, b, left, right, cmp, xs + [x], ys)
         == Unmatched(a, b, left, right, cmp, xs, ys) + (if HasMatch(a, b, left, right, cmp, x, ys) then {} else {x + Nulls(|b.cols|)})
  {
    assert x in xs + [x];
    assert forall r :: r in xs + [x] <==> r in xs || r == x;
  }

  lemma PairedWithStep(a: Relation, b: Relation, left: string, right: string, cmp: (string, string) -> bool, x: Row, ys: seq<Row>, y: Row)
    requires left in a.cols && right in b.cols && |x| == |a.cols| && Fit(ys + [y], |b.cols|)
    ensures Fit(ys, |b.cols|) && |y| == |b.cols|
    ensures PairedWith(a, b, left, right, cmp, x, ys + [y])
         == PairedWith(a, b, left, right, cmp, x, ys) + (if Matches(a, b, left, right, cmp, x, y) then {x + y} else {})
  {
    assert y in ys + [y];
    assert forall r :: r in ys + [y] <==> r in ys || r == y;
  }

  /** The inner loop of outerjoin for one left row: the matched rows, and
      whether there was any match. */
  method OuterRow(a: Relation, b: Relation, left: string, right: string, cmp: (string, string) -> bool, row: Row, ys: seq<Row>)
    returns (found: set<Row>, matched: bool)
    requires left in a.cols && right in b.cols && |row| == |a.cols| && Fit(ys, |b.cols|)
    ensures found == PairedWith(a, b, left, right, cmp, row, ys)
    ensures matched == HasMatch(a, b, left, right, cmp, row, ys)
  {
    found := {};
    matched := false;
    for j := 0 to |ys|
      invariant Fit(ys[..j], |b.cols|)
      invariant found == PairedWith(a, b, left, right, cmp, row, ys[..j])
      invariant matched == HasMatch(a, b, left, right, cmp, row, ys[..j])
    {
      var row2 := ys[j];
      assert ys[..j + 1] == ys[..j] + [row2];
      PairedWithStep(a, b, left, right, cmp, row, ys[..j], row2);
      HasMatchStep(a, b, left, right, cmp, row, ys[..j], row2);
      if cmp(Value(a.cols, row, left), Value(b.cols, row2, right)) {
        matched := true;
        found := found + {row + row2};
      }
    }
    assert ys[..|ys|] == ys;
  }

  /** OuterRowsStep at position i of a fixed enumeration. */
  lemma OuterRowsAt(a: Relation, b: Relation, left: string, right: string, cmp: (string, string) -> bool, xs: seq<Row>, i: nat, ys: seq<Row>)
    requires left in a.cols && right in b.cols && i < |xs| && Fit(xs, |a.cols|) && Fit(ys, |b.cols|)
    ensures Fit(xs[..i], |a.cols|) && Fit(xs[..i + 1], |a.cols|) && |xs[i]| == |a.cols|
    ensures OuterRows(a, b, left, right, cmp, xs[..i + 1], ys)
         == OuterRows(a, b, left, right, cmp, xs[..i], ys) + PairedWith(a, b, left, right, cmp, xs[i], ys)
          + (if HasMatch(a, b, left, right, cmp, xs[i], ys) then {} else {xs[i] + Nulls(|b.cols|)})
  {
    assert xs[..i + 1] == xs[..i] + [xs[i]];
    OuterRowsStep(a, b, left, right, cmp, xs[..i], xs[i], ys);
  }

  /** The outer loop of outerjoin. */
  method OuterJoinLoop(a: Relation, b: Relation, left: string, right: string, cmp: (string, string) -> bool, xs: seq<Row>, ys: seq<Row>)
    returns (rows: set<Row>)
    requires left in a.cols && right in b.cols && Fit(xs, |a.cols|) && Fit(ys, |b.cols|)
    ensures rows == OuterRows(a, b, left, right, cmp, xs, ys)
  {
    rows := {};
    assert xs[..0] == [];
    for i := 0 to |xs|
      invariant Fit(xs[..i], |a.cols|)
      invariant rows == OuterRows(a, b, left, right, cmp, xs[..i], ys)
    {
      var row := xs[i];
      OuterRowsAt(a, b, left, right, cmp, xs, i, ys);
      var found, matched := OuterRow(a, b, left, right, cmp, row, ys);
      rows := rows + found;
      if !matched {
        rows := rows + {row + Nulls(|b.cols|)};
      }
    }
    assert xs[..|xs|] == xs;
  }

  /** The outer loop of outerjoin when no pair is visited: every left row
      is padded. */
  method PadAll(xs: seq<Row>, n: nat) returns (rows: set<Row>)
    ensures rows == set x | x in xs :: x + Nulls(n)
  {
    rows := {};
    for i := 0 to |xs|
      invariant rows == set x | x in xs[..i] :: x + Nulls(n)
    {
      assert xs[..i + 1] == xs[..i] + [xs[i]];
      assert forall r :: r in xs[..i + 1] <==> r in xs[..i] || r == xs[i];
      rows := rows + {xs[i] + Nulls(n)};
    }
    assert xs[..|xs|] == xs;
  }

  /** OuterRows over enumerations of the rows of a and b is the outer join of their rows. */
  lemma OuterRowsOver(a: Relation, b: Relation, left: string, right: string, cmp: (string, string) -> bool,
                      xs: seq<Row>, ys: seq<Row>)
    requires Valid(a) && Valid(b) && left in a.cols && right in b.cols && Fit(xs, |a.cols|) && Fit(ys, |b.cols|)
    requires (forall r :: r in xs <==> r in Members(a.rows)) && (forall r :: r in ys <==> r in Members(b.rows))
    ensures OuterRows(a, b, left, right, cmp, xs, ys) == OuterJoined(a, b, left, right, cmp)
  {
    assert forall x | x in Members(a.rows) ::
      (exists y | y in Members(b.rows) :: Matches(a, b, left, right, cmp, x, y)) == HasMatch(a, b, left, right, cmp, x, ys);
  }

  lemma OuterJoinSpecRows(a: Relation, b: Relation, condition: string, cmp: (string, string) -> bool, xs: seq<Row>, ys: seq<Row>)
    requires Valid(a) && Valid(b) && IsEnumeration(xs, a.rows) && IsEnumeration(ys, b.rows)
    requires var t := JavaText.Fields(condition, ' '); |t| >= 3 && t[0] in a.cols && t[2] in b.cols
    requires NoDup(a.cols + b.cols) && a.listCols == b.listCols
    ensures Fit(xs, |a.cols|) && Fit(ys, |b.cols|)
    ensures OuterJoinSpec(a, b, condition, cmp).Ok?
    ensures var t := JavaText.Fields(condition, ' ');
      OuterJoinSpec(a, b, condition, cmp).value.rows.members == OuterRows(a, b, t[0], t[2], cmp, xs, ys)
  {
    EnumerationFits(xs, a);
    EnumerationFits(ys, b);
    var t := JavaText.Fields(condition, ' ');
    OuterRowsOver(a, b, t[0], t[2], cmp, xs, ys);
  }

  /** With one side empty the outerjoin pads every left row. */
  lemma OuterJoinSpecPadded(a: Relation, b: Relation, condition: string, cmp: (string, string) -> bool, xs: seq<Row>)
    requires Valid(a) && Valid(b) && IsEnumeration(xs, a.rows)
    requires Members(a.rows) == {} || Members(b.rows) == {}
    requires |JavaText.Fields(condition, ' ')| >= 3 && NoDup(a.cols + b.cols) && a.listCols == b.listCols
    ensures OuterJoinSpec(a, b, condition, cmp).Ok?
    ensures OuterJoinSpec(a, b, condition, cmp).value.rows.members == set x | x in xs :: x + Nulls(|b.cols|)
  {
    EnumerationMembers(xs, a.rows);
    if Members(a.rows) == {} {
      OuterJoinNoLeft(a, b, condition, cmp);
    } else {
      OuterJoinNoRight(a, b, condition, cmp);
      PaddedImage(xs, Members(a.rows), |b.cols|);
    }
  }


  /** Padding every row of a sequence gives the padded rows of the set it enumerates. */
  lemma PaddedImage(xs: seq<Row>, m: set<Row>, n: nat)
    requires forall r :: r in xs <==> r in m
    ensures (set x | x in xs :: x + Nulls(n)) == set x | x in m :: x + Nulls(n)
  {
  }

  lemma OuterJoinNoLeft(a: Relation, b: Relation, condition: string, cmp: (string, string) -> bool)
    requires Valid(a) && Valid(b) && Members(a.rows) == {}
    requires |JavaText.Fields(condition, ' ')| >= 3 && NoDup(a.cols + b.cols) && a.listCols == b.listCols
    ensures OuterJoinSpec(a, b, condition, cmp).Ok?
    ensures OuterJoinSpec(a, b, condition, cmp).value.rows.members == {}
  {
    var t := JavaText.Fields(condition, ' ');
    OuterJoinSpecOk(a, b, condition, cmp);
    OuterJoinedNoLeft(a, b, t[0], t[2], cmp);
  }

  lemma OuterJoinedNoLeft(a: Relation, b: Relation, left: string, right: string, cmp: (string, string) -> bool)
    requires Valid(a) && Valid(b) && Members(a.rows) == {}
    ensures OuterJoined(a, b, left, right, cmp) == {}
  {
  }

  /** With rows on both sides, a missing attribute of the condition is reported by name. */
  lemma OuterJoinSpecMissing(a: Relation, b: Relation, condition: string, cmp: (string, string) -> bool)
    requires Valid(a) && Valid(b) && Members(a.rows) != {} && Members(b.rows) != {}
    requires |JavaText.Fields(condition, ' ')| >= 3 && NoDup(a.cols + b.cols) && a.listCols == b.listCols
    ensures var t := JavaText.Fields(condition, ' ');
      && (t[0] !in a.cols ==> OuterJoinSpec(a, b, condition, cmp) == Err(NoSuchAttribute(t[0])))
      && (t[0] in a.cols && t[2] !in b.cols ==> OuterJoinSpec(a, b, condition, cmp) == Err(NoSuchAttribute(t[2])))
  {
  }

  /** With the columns accepted and every attribute eval reads present, outerjoin succeeds. */
  lemma OuterJoinSpecOk(a: Relation, b: Relation, condition: string, cmp: (string, string) -> bool)
    requires Valid(a) && Valid(b)
    requires |JavaText.Fields(condition, ' ')| >= 3 && NoDup(a.cols + b.cols) && a.listCols == b.listCols
    requires var t := JavaText.Fields(condition, ' ');
      Members(a.rows) != {} && Members(b.rows) != {} ==> t[0] in a.cols && t[2] in b.cols
    ensures var t := JavaText.Fields(condition, ' ');
      OuterJoinSpec(a, b, condition, cmp) == Ok(Relation(a.cols + b.cols, FrozenSet(OuterJoined(a, b, t[0], t[2], cmp)), a.listCols))
  {
  }

  lemma OuterJoinNoRight(a: Relation, b: Relation, condition: string, cmp: (string, string) -> bool)
    requires Valid(a) && Valid(b) && Members(b.rows) == {}
    requires |JavaText.Fields(condition, ' ')| >= 3 && NoDup(a.cols + b.cols) && a.listCols == b.listCols
    ensures OuterJoinSpec(a, b, condition, cmp).Ok?
    ensures OuterJoinSpec(a, b, condition, cmp).value.rows.members
      == set x | x in Members(a.rows) :: x + Nulls(|b.cols|)
  {
    var t := JavaText.Fields(condition, ' ');
    OuterJoinedNoRight(a, b, t[0], t[2], cmp);
  }

  lemma OuterJoinedNoRight(a: Relation, b: Relation, left: string, right: string, cmp: (string, string) -> bool)
    requires Valid(a) && Valid(b) && Members(b.rows) == {}
    ensures OuterJoined(a, b, left, right, cmp) == set x | x in Members(a.rows) :: x + Nulls(|b.cols|)
  {
    var padded := set x | x in Members(a.rows) :: x + Nulls(|b.cols|);
    forall z | z in padded ensures z in OuterJoined(a, b, left, right, cmp) {
      var x :| x in Members(a.rows) && z == x + Nulls(|b.cols|);
      assert !(exists y :: y in Members(b.rows));
    }
  }


  /** rel.outerjoin(other, condition). */
  method OuterJoin(a: Relation, b: Relation, condition: string, cmp: (string, string) -> bool) returns (res: Result<Relation, Error>)
    requires Valid(a) && Valid(b)
    ensures res == OuterJoinSpec(a, b, condition, cmp)
  {
    var t := JavaText.Fields(condition, ' ');
    if |t| < 3 {
      return Err(IndexOutOfRange);
    }
    if a.listCols != b.listCols {
      return Err(ConcatTypeError);
    }
    var newCols := a.cols + b.cols;
    if !NoDup(newCols) {
      return Err(BadFieldNames);
    }
    var xs := Enumerate(a.rows);
    var ys := Enumerate(b.rows);
    EnumerationFits(xs, a);
    EnumerationFits(ys, b);
    if xs == [] || ys == [] {
      // no pair is visited, so eval never runs
      var rows := PadAll(xs, |b.cols|);
      OuterJoinSpecPadded(a, b, condition, cmp, xs);
      return Ok(Relation(newCols, FrozenSet(rows), a.listCols));
    }
    res := OuterJoinVisit(a, b, condition, cmp, xs, ys);
  }

  /** The part of outerjoin with a pair to visit: eval reads row.A and then
      row2.B on the first pair, and the loops build the rows. */
  method OuterJoinVisit(a: Relation, b: Relation, condition: string, cmp: (string, string) -> bool, xs: seq<Row>, ys: seq<Row>)
    returns (res: Result<Relation, Error>)
    requires Valid(a) && Valid(b) && |JavaText.Fields(condition, ' ')| >= 3 && NoDup(a.cols + b.cols) && a.listCols == b.listCols
    requires IsEnumeration(xs, a.rows) && IsEnumeration(ys, b.rows) && xs != [] && ys != []
    ensures res == OuterJoinSpec(a, b, condition, cmp)
  {
    var t := JavaText.Fields(condition, ' ');
    var newCols := a.cols + b.cols;
    EnumerationFits(xs, a);
    EnumerationFits(ys, b);
    assert xs[0] in Members(a.rows) && ys[0] in Members(b.rows);
    OuterJoinSpecMissing(a, b, condition, cmp);
    if t[0] !in a.cols {
      return Err(NoSuchAttribute(t[0]));
    }
    if t[2] !in b.cols {
      return Err(NoSuchAttribute(t[2]));
    }
    var rows := OuterJoinLoop(a, b, t[0], t[2], cmp, xs, ys);
    OuterJoinSpecRows(a, b, condition, cmp, xs, ys);
    res := Ok(Relation(newCols, FrozenSet(rows), a.listCols));
  }

  /** Every row of a successful outerjoin is a left row followed by either a
      matching right row or NULLs, and every left row survives as the front
      of some result row. */
  lemma OuterJoinKeepsLeft(a: Relation, b: Relation, condition: string, cmp: (string, string) -> bool)
    requires Valid(a) && Valid(b) && OuterJoinSpec(a, b, condition, cmp).Ok?
    ensures var res := OuterJoinSpec(a, b, condition, cmp).value;
      && Valid(res) && res.cols == a.cols + b.cols && res.listCols == a.listCols
      && (forall z | z in Members(res.rows) ::
            z[..|a.cols|] in Members(a.rows) && (z[|a.cols|..] in Members(b.rows) || z[|a.cols|..] == Nulls(|b.cols|)))
      && (forall x | x in Members(a.rows) :: exists z | z in Members(res.rows) :: z[..|a.cols|] == x)
  {
    var t := JavaText.Fields(condition, ' ');
    AllFieldNamesFrom(a.cols + b.cols, a.cols, b.cols);
    OuterJoinedShape(a, b, t[0], t[2], cmp);
    OuterJoinedCovers(a, b, t[0], t[2], cmp);
  }

  lemma OuterJoinedShape(a: Relation, b: Relation, left: string, right: string, cmp: (string, string) -> bool)
    requires Valid(a) && Valid(b)
    requires Members(a.rows) != {} && Members(b.rows) != {} ==> left in a.cols && right in b.cols
    ensures forall z | z in OuterJoined(a, b, left, right, cmp) ::
      && |z| == |a.cols| + |b.cols|
      && z[..|a.cols|] in Members(a.rows)
      && (z[|a.cols|..] in Members(b.rows) || z[|a.cols|..] == Nulls(|b.cols|))
  {
    var n := |a.cols|;
    forall z | z in OuterJoined(a, b, left, right, cmp)
      ensures |z| == n + |b.cols| && z[..n] in Members(a.rows) && (z[n..] in Members(b.rows) || z[n..] == Nulls(|b.cols|))
    {
      if x, y :| x in Members(a.rows) && y in Members(b.rows) && Matches(a, b, left, right, cmp, x, y) && z == x + y {
        assert z[..n] == x && z[n..] == y;
      } else {
        var x :| x in Members(a.rows) && z == x + Nulls(|b.cols|);
        assert z[..n] == x && z[n..] == Nulls(|b.cols|);
      }
    }
  }

  lemma OuterJoinedCovers(a: Relation, b: Relation, left: string, right: string, cmp: (string, string) -> bool)
    requires Valid(a) && Valid(b)
    requires Members(a.rows) != {} && Members(b.rows) != {} ==> left in a.cols && right in b.cols
    ensures forall x | x in Members(a.rows) :: exists z | z in OuterJoined(a, b, left, right, cmp) :: z[..|a.cols|] == x
  {
    var n := |a.cols|;
    forall x | x in Members(a.rows) ensures exists z | z in OuterJoined(a, b, left, right, cmp) :: z[..n] == x {
      if y :| y in Members(b.rows) && Matches(a, b, left, right, cmp, x, y) {
        assert (x + y)[..n] == x;
        assert x + y in OuterJoined(a, b, left, right, cmp);
      } else {
        assert (x + Nulls(|b.cols|))[..n] == x;
        assert x + Nulls(|b.cols|) in OuterJoined(a, b, left, right, cmp);
      }
    }
  }

}
