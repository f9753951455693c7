/** The single-table operators: project, rename, select, query and head. */
module SingleTable {
  import opened Wrappers
  import opened Relations
  import opened PyNames
  import JavaText

  /** The row r of a relation with columns `from`, cut down to the columns
      `to`: the value of each requested column, in the requested order. */
  function ProjectRow(from: seq<string>, r: Row, to: seq<string>): (r2: Row)
    requires |r| == |from| && forall c | c in to :: c in from
    ensures |r2| == |to| && forall j | 0 <= j < |to| :: r2[j] == Value(from, r, to[j])
  {
    seq(|to|, j requires 0 <= j < |to| => Value(from, r, to[j]))
  }

  /** rel.project(cols): namedtuple refuses repeated or invalid names even for
      an empty relation, while a missing column is found only when a row is
      visited. The result's columns are a tuple. */
  function Project(rel: Relation, cols: seq<string>): (res: Result<Relation, Error>)
    requires Valid(rel)
    ensures res.Ok? <==> FieldNames(cols) && (Members(rel.rows) == {} || forall c | c in cols :: c in rel.cols)
    ensures !FieldNames(cols) ==> res == Err(BadFieldNames)
    ensures res.Err? && FieldNames(cols) ==> res.error.NoSuchAttribute? && res.error.name in cols && res.error.name !in rel.cols
    ensures res.Ok? ==> Valid(res.value) && res.value.cols == cols && !res.value.listCols && res.value.rows.FrozenSet?
    ensures res.Ok? ==> Members(res.value.rows) == set r | r in Members(rel.rows) :: ProjectRow(rel.cols, r, cols)
  {
    if !FieldNames(cols) then Err(BadFieldNames)
    else if Members(rel.rows) != {} && exists c | c in cols :: c !in rel.cols then
      Err(NoSuchAttribute(FirstMissing(cols, rel.cols)))
    else
      Ok(Relation(cols, FrozenSet(set r | r in Members(rel.rows) :: ProjectRow(rel.cols, r, cols))))
  }

  /** Projecting a relation onto its own columns gives back its rows. */
  lemma ProjectOwnColumns(rel: Relation)
    requires Valid(rel)
    ensures Project(rel, rel.cols) == Ok(Relation(rel.cols, FrozenSet(Members(rel.rows))))
  {
    forall r | r in Members(rel.rows) ensures ProjectRow(rel.cols, r, rel.cols) == r {
      forall j | 0 <= j < |rel.cols| ensures ProjectRow(rel.cols, r, rel.cols)[j] == r[j] {
        IndexOfNoDup(rel.cols, j);
      }
    }
    assert (set r | r in Members(rel.rows) :: ProjectRow(rel.cols, r, rel.cols)) == Members(rel.rows);
  }

  /** Projecting never yields more rows than there were. */
  lemma ProjectSize(rel: Relation, cols: seq<string>)
    requires Valid(rel) && Project(rel, cols).Ok?
    ensures Size(Project(rel, cols).value.rows) <= |Members(rel.rows)|
  {
    if Members(rel.rows) != {} {
      ImageCard(Members(rel.rows), Members(Project(rel, cols).value.rows), rel.cols, cols);
    }
  }

  lemma {:induction false} ImageCard(s: set<Row>, t: set<Row>, from: seq<string>, to: seq<string>)
    requires forall r | r in s :: |r| == |from|
    requires forall c | c in to :: c in from
    requires forall y | y in t :: exists r | r in s :: y == ProjectRow(from, r, to)
    ensures |t| <= |s|
    decreases |s|
  {
    if s == {} {
      assert forall y | y in t :: false;
      assert t == {};
    } else {
      var x :| x in s;
      var t' := t - {ProjectRow(from, x, to)};
      forall y | y in t' ensures exists r | r in s - {x} :: y == ProjectRow(from, r, to) {
        var r :| r in s && y == ProjectRow(from, r, to);
        assert r != x;
      }
      ImageCard(s - {x}, t', from, to);
    }
  }

  /** A row cut down to c1 and then to c2 is the row cut down to c2. */
  lemma ProjectRowTwice(from: seq<string>, r: Row, c1: seq<string>, c2: seq<string>)
    requires |r| == |from| && (forall c | c in c1 :: c in from) && (forall c | c in c2 :: c in c1)
    ensures ProjectRow(c1, ProjectRow(from, r, c1), c2) == ProjectRow(from, r, c2)
  {
    var r1 := ProjectRow(from, r, c1);
    forall j | 0 <= j < |c2| ensures Value(c1, r1, c2[j]) == Value(from, r, c2[j]) {
      var k := IndexOf(c1, c2[j]);
      assert r1[k] == Value(from, r, c1[k]);
    }
  }

  lemma ProjectRowsTwice(m: set<Row>, i1: set<Row>, from: seq<string>, c1: seq<string>, c2: seq<string>)
    requires forall r | r in m :: |r| == |from|
    requires (forall c | c in c1 :: c in from) && (forall c | c in c2 :: c in c1)
    requires i1 == set r | r in m :: ProjectRow(from, r, c1)
    ensures (set r2 | r2 in i1 :: ProjectRow(c1, r2, c2)) == (set r | r in m :: ProjectRow(from, r, c2))
  {
    forall r | r in m ensures ProjectRow(c1, ProjectRow(from, r, c1), c2) == ProjectRow(from, r, c2) {
      ProjectRowTwice(from, r, c1, c2);
    }
  }

  /** With distinct requested columns that all exist, projection succeeds and
      yields the image of the rows. */
  lemma ProjectPresent(rel: Relation, cols: seq<string>)
    requires Valid(rel) && NoDup(cols) && forall c | c in cols :: c in rel.cols
    ensures Project(rel, cols) == Ok(Relation(cols, FrozenSet(set r | r in Members(rel.rows) :: ProjectRow(rel.cols, r, cols))))
  {
    AllFieldNamesFrom(cols, rel.cols, rel.cols);
  }

  /** Projecting twice is projecting once onto the second column list. */
  lemma ProjectTwice(rel: Relation, c1: seq<string>, c2: seq<string>)
    requires Valid(rel) && Project(rel, c1).Ok?
    requires NoDup(c2) && forall c | c in c2 :: c in c1
    ensures Project(Project(rel, c1).value, c2) == Project(rel, c2)
  {
    var m := Members(rel.rows);
    if m != {} {
      assert forall c | c in c1 :: c in rel.cols;
      ProjectPresent(rel, c1);
      ProjectPresent(rel, c2);
      var p1 := Project(rel, c1).value;
      ProjectPresent(p1, c2);
      ProjectRowsTwice(m, Members(p1.rows), rel.cols, p1.cols, c2);
    } else {
      AllFieldNamesFrom(c2, c1, c1);
      ProjectEmpty(rel, c1);
      ProjectEmpty(rel, c2);
      ProjectEmpty(Project(rel, c1).value, c2);
    }
  }

  /** An empty relation projects onto any distinct columns, to an empty relation. */
  lemma ProjectEmpty(rel: Relation, cols: seq<string>)
    requires Valid(rel) && FieldNames(cols) && Members(rel.rows) == {}
    ensures Project(rel, cols) == Ok(Relation(cols, FrozenSet({})))
  {
    var res := Project(rel, cols);
    assert forall x :: x !in Members(res.value.rows);
    assert res.value.rows.members == {};
  }

  /** The column list after renaming oldName to newName, position by position. */
  function RenamedColumns(cols: seq<string>, oldName: string, newName: string): (r: seq<string>)
    ensures |r| == |cols|
    ensures forall j | 0 <= j < |cols| :: r[j] == if cols[j] == oldName then newName else cols[j]
  {
    seq(|cols|, j requires 0 <= j < |cols| => if cols[j] == oldName then newName else cols[j])
  }

  /** Renaming keeps distinct names distinct, unless oldName is a column and newName
      already names another column. */
  lemma RenamedColumnsNoDup(cols: seq<string>, oldName: string, newName: string)
    requires NoDup(cols)
    ensures NoDup(RenamedColumns(cols, oldName, newName)) <==>
      (oldName !in cols || newName == oldName || newName !in cols)
  {
    var nc := RenamedColumns(cols, oldName, newName);
    if oldName in cols && newName != oldName && newName in cols {
      var i := IndexOf(cols, oldName);
      var j := IndexOf(cols, newName);
      assert nc[i] == nc[j] && i != j;
    } else {
      forall i, j | 0 <= i < j < |nc| ensures nc[i] != nc[j] {
        if cols[i] == oldName {
          assert cols[j] != oldName;
          assert newName != oldName ==> cols[j] != newName;
        } else if cols[j] == oldName {
          assert newName != oldName ==> cols[i] != newName;
        }
      }
    }
  }

  /** Renaming keeps the names valid field names unless oldName is a column and
      newName either already names another column or is not a valid name. */
  lemma RenamedColumnsFieldNames(cols: seq<string>, oldName: string, newName: string)
    requires FieldNames(cols)
    ensures FieldNames(RenamedColumns(cols, oldName, newName)) <==>
      !(oldName in cols && ((newName in cols && newName != oldName) || !FieldName(newName)))
  {
    var nc := RenamedColumns(cols, oldName, newName);
    AllFieldNamesIn(cols);
    AllFieldNamesIn(nc);
    if oldName in cols && newName in cols && newName != oldName {
      var i := IndexOf(cols, oldName);
      var j := IndexOf(cols, newName);
      assert nc[i] == nc[j] && i != j;
    } else if oldName in cols && !FieldName(newName) {
      var i := IndexOf(cols, oldName);
      assert nc[i] == newName;
    } else {
      forall c | c in nc ensures FieldName(c) {
        var j :| 0 <= j < |nc| && nc[j] == c;
        assert cols[j] in cols;
      }
    }
  }

  /** The values of one renamed row, field by field as the comprehension reads them. */
  function RenameRow(cols: seq<string>, r: Row, oldName: string, newName: string): Row
    requires |r| == |cols|
    requires oldName in cols || newName !in cols
  {
    var nc := RenamedColumns(cols, oldName, newName);
    seq(|nc|, j requires 0 <= j < |nc| =>
      if nc[j] == newName then Value(cols, r, oldName) else Value(cols, r, nc[j]))
  }

  lemma RenameRowKeeps(cols: seq<string>, r: Row, oldName: string, newName: string)
    requires |r| == |cols| && NoDup(cols) && FieldNames(RenamedColumns(cols, oldName, newName))
    requires oldName in cols || newName !in cols
    ensures RenameRow(cols, r, oldName, newName) == r
  {
    var nc := RenamedColumns(cols, oldName, newName);
    if oldName in cols {
      assert nc[IndexOf(cols, oldName)] == newName;
    }
    forall j | 0 <= j < |cols| ensures RenameRow(cols, r, oldName, newName)[j] == r[j] {
      IndexOfNoDup(cols, j);
    }
  }

  /** rel.rename(old, new): namedtuple refuses the new name when it already names another
      column or is not a valid field name; when the old name is missing but the new one is
      present, the old name is looked up, which raises as soon as a row is visited. */
  function Rename(rel: Relation, oldName: string, newName: string): (res: Result<Relation, Error>)
    requires Valid(rel)
    ensures res.Err? <==>
      || (oldName in rel.cols && ((newName in rel.cols && newName != oldName) || !FieldName(newName)))
      || (oldName !in rel.cols && newName in rel.cols && Members(rel.rows) != {})
    ensures oldName in rel.cols && ((newName in rel.cols && newName != oldName) || !FieldName(newName)) ==>
      res == Err(BadFieldNames)
    ensures oldName !in rel.cols && newName in rel.cols && Members(rel.rows) != {} ==> res == Err(NoSuchAttribute(oldName))
    ensures res.Ok? ==> Valid(res.value)
    ensures res.Ok? ==> res.value == Relation(RenamedColumns(rel.cols, oldName, newName), FrozenSet(Members(rel.rows)))
  {
    var nc := RenamedColumns(rel.cols, oldName, newName);
    RenamedColumnsFieldNames(rel.cols, oldName, newName);
    if !FieldNames(nc) then Err(BadFieldNames)
    else if Members(rel.rows) != {} && newName in nc && oldName !in rel.cols then Err(NoSuchAttribute(oldName))
    else
    var rows := set r | r in Members(rel.rows) :: RenameRow(rel.cols, r, oldName, newName);
      assert rows == Members(rel.rows) by {
        forall r | r in Members(rel.rows) ensures RenameRow(rel.cols, r, oldName, newName) == r {
          RenameRowKeeps(rel.cols, r, oldName, newName);
        }
      }
      Ok(Relation(nc, FrozenSet(rows)))
  }

  /** Renaming a column to a fresh name and back restores the columns, and the
      rows are the same throughout. */
  lemma RenameBack(rel: Relation, oldName: string, newName: string)
    requires Valid(rel) && oldName in rel.cols && newName !in rel.cols && FieldName(newName)
    ensures Rename(rel, oldName, newName).Ok?
    ensures Rename(Rename(rel, oldName, newName).value, newName, oldName) == Ok(Relation(rel.cols, FrozenSet(Members(rel.rows))))
  {
    var nc := RenamedColumns(rel.cols, oldName, newName);
    assert newName in nc by {
      assert nc[IndexOf(rel.cols, oldName)] == newName;
    }
    assert RenamedColumns(nc, newName, oldName) == rel.cols;
  }

  /** The operand list of select for one row: a column name stands for the
      row's value in that column, anything else for itself. */
  function Operands(cols: seq<string>, r: Row, operands: seq<string>): (vs: seq<string>)
    requires |r| == |cols|
    ensures |vs| == |operands|
    ensures forall k | 0 <= k < |operands| ::
      vs[k] == if operands[k] in cols then Value(cols, r, operands[k]) else operands[k]
  {
    seq(|operands|, k requires 0 <= k < |operands| =>
      if operands[k] in cols then Value(cols, r, operands[k]) else operands[k])
  }

  /** The rows select keeps. */
  function SelectedRows(rel: Relation, op: seq<string> -> bool, operands: seq<string>): set<Row>
    requires Valid(rel)
  {
    set r | r in Members(rel.rows) && op(Operands(rel.cols, r, operands))
  }

  /** rel.select(op, *operands): exactly the rows on whose operand values op holds. */
  method Select(rel: Relation, op: seq<string> -> bool, operands: seq<string>) returns (res: Relation)
    requires Valid(rel)
    ensures res == Relation(rel.cols, FrozenSet(SelectedRows(rel, op, operands)), rel.listCols)
    ensures Valid(res) && Members(res.rows) <= Members(rel.rows)
  {
    var xs := Enumerate(rel.rows);
    EnumerationMembers(xs, rel.rows);
    var result: set<Row> := {};
    var i := 0;
    while i < |xs|
      invariant 0 <= i <= |xs|
      invariant result == set r | r in xs[..i] && op(Operands(rel.cols, r, operands))
    {
      var row := xs[i];
      var evaluated := Operands(rel.cols, row, operands);
      if op(evaluated) {
        result := result + {row};
      }
      assert xs[..i + 1] == xs[..i] + [row];
      i := i + 1;
    }
    assert xs[..i] == xs;
    assert result == SelectedRows(rel, op, operands);
    res := Relation(rel.cols, FrozenSet(result), rel.listCols);
    ValidSubset(rel, res.rows, rel.listCols);
  }

  /** Row r passes the query on tokens a and b: its value in column a equals
      its value in column b, or b itself when b is not a column. */
  predicate QueryMatch(cols: seq<string>, r: Row, a: string, b: string)
    requires |r| == |cols| && a in cols
  {
    Value(cols, r, a) == if b in cols then Value(cols, r, b) else b
  }

  /** The rows query keeps for the tokens a and b. */
  function QueryRows(rel: Relation, a: string, b: string): set<Row>
    requires Valid(rel) && a in rel.cols
  {
    set r | r in Members(rel.rows) && QueryMatch(rel.cols, r, a, b)
  }

  /** rel.query(q): q is split on single spaces; the first and third tokens are
      compared with equality whatever the second token says. */
  method Query(rel: Relation, q: string) returns (res: Result<Relation, Error>)
    requires Valid(rel)
    ensures var t := JavaText.Fields(q, ' ');
      && (|t| < 3 ==> res == Err(IndexOutOfRange))
      && (|t| >= 3 && t[0] !in rel.cols && Members(rel.rows) != {} ==> res == Err(NoSuchAttribute(t[0])))
      && (|t| >= 3 && t[0] !in rel.cols && Members(rel.rows) == {} ==> res == Ok(Relation(rel.cols, FrozenSet({}))))
      && (|t| >= 3 && t[0] in rel.cols ==> res == Ok(Relation(rel.cols, FrozenSet(QueryRows(rel, t[0], t[2])))))
  {
    var query := JavaText.Fields(q, ' ');
    if |query| < 3 {
      return Err(IndexOutOfRange);
    }
    res := QueryTokens(rel, query[0], query[2]);
  }

  /** The loop of query once the tokens a and b are known. */
  method QueryTokens(rel: Relation, a: string, b: string) returns (res: Result<Relation, Error>)
    requires Valid(rel)
    ensures a !in rel.cols && Members(rel.rows) != {} ==> res == Err(NoSuchAttribute(a))
    ensures a !in rel.cols && Members(rel.rows) == {} ==> res == Ok(Relation(rel.cols, FrozenSet({})))
    ensures a in rel.cols ==> res == Ok(Relation(rel.cols, FrozenSet(QueryRows(rel, a, b))))
  {
    var fieldBool := b in rel.cols;
    var xs := Enumerate(rel.rows);
    EnumerationMembers(xs, rel.rows);
    if a !in rel.cols {
      // getattr(row, a) raises on the first row visited
      if xs != [] {
        assert xs[0] in Members(rel.rows);
        return Err(NoSuchAttribute(a));
      }
      assert forall r :: r !in Members(rel.rows);
      return Ok(Relation(rel.cols, FrozenSet({})));
    }
    assert Fit(xs, |rel.cols|);
    var queried := QueryLoop(rel.cols, a, b, xs);
    assert queried == QueryRows(rel, a, b);
    res := Ok(Relation(rel.cols, FrozenSet(queried)));
  }

  /** The rows of xs passing the query on tokens a and b. */
  function QueriedIn(cols: seq<string>, a: string, b: string, xs: seq<Row>): set<Row>
    requires a in cols && Fit(xs, |cols|)
  {
    set r | r in xs && QueryMatch(cols, r, a, b)
  }

  lemma QueriedStep(cols: seq<string>, a: string, b: string, xs: seq<Row>, i: nat)
    requires a in cols && Fit(xs, |cols|) && i < |xs|
    ensures Fit(xs[..i], |cols|) && Fit(xs[..i + 1], |cols|) && |xs[i]| == |cols|
    ensures QueriedIn(cols, a, b, xs[..i + 1])
      == QueriedIn(cols, a, b, xs[..i]) + (if QueryMatch(cols, xs[i], a, b) then {xs[i]} else {})
  {
    assert xs[i] in xs;
    assert xs[..i + 1] == xs[..i] + [xs[i]];
    assert forall r :: r in xs[..i + 1] <==> r in xs[..i] || r == xs[i];
  }

  /** The loop of query: for every row, the value in column a compared with
      the value in column b, or with b itself when b is not a column. */
  method QueryLoop(cols: seq<string>, a: string, b: string, xs: seq<Row>) returns (queried: set<Row>)
    requires NoDup(cols) && a in cols && Fit(xs, |cols|)
    ensures queried == QueriedIn(cols, a, b, xs)
  {
    var fieldBool := b in cols;
    queried := {};
    for i := 0 to |xs|
      invariant Fit(xs[..i], |cols|)
      invariant queried == QueriedIn(cols, a, b, xs[..i])
    {
      var row := xs[i];
      QueriedStep(cols, a, b, xs, i);
      if fieldBool {
        if Value(cols, row, a) == Value(cols, row, b) {
          var rebuilt := RebuildRow(cols, row);
          queried := queried + {rebuilt};
        }
      } else {
        if Value(cols, row, a) == b {
          var rebuilt := RebuildRow(cols, row);
          queried := queried + {rebuilt};
        }
      }
    }
    assert xs[..|xs|] == xs;
  }

  /** Two operands that are equal. */
  function EqualPair(vs: seq<string>): bool
  {
    |vs| == 2 && vs[0] == vs[1]
  }

  /** query on "a == b" keeps the same rows as select(operator.eq, a, b) when a is a column. */
  lemma QueryIsSelectEq(rel: Relation, a: string, b: string)
    requires Valid(rel) && a in rel.cols
    ensures QueryRows(rel, a, b) == SelectedRows(rel, EqualPair, [a, b])
  {
    forall r | r in Members(rel.rows)
      ensures EqualPair(Operands(rel.cols, r, [a, b])) <==> QueryMatch(rel.cols, r, a, b)
    {
      var vs := Operands(rel.cols, r, [a, b]);
      assert vs[0] == Value(rel.cols, r, a);
    }
  }

  /** How many rows list(rows)[:n] keeps once n is capped at len(rows);
      a negative n counts from the end, as Python slices do. */
  function HeadCount(len: nat, n: int): (m: nat)
    ensures m <= len
    ensures n >= 0 ==> m == if n < len then n else len
    ensures n < 0 ==> m == if len + n >= 0 then len + n else 0
  {
    var k := if n > len then len else n;
    if k >= 0 then k else if len + k >= 0 then len + k else 0
  }

  /** rel.head(n): the first rows in iteration order, as a frozenset. */
  method Head(rel: Relation, n: int) returns (res: Relation)
    requires Valid(rel)
    ensures res.cols == rel.cols && res.listCols == rel.listCols && res.rows.FrozenSet? && Valid(res)
    ensures Members(res.rows) <= Members(rel.rows)
    ensures exists e ::
      IsEnumeration(e, rel.rows) && Members(res.rows) == set r | r in e[..HeadCount(Size(rel.rows), n)]
    ensures rel.rows.FrozenSet? ==> |Members(res.rows)| == HeadCount(Size(rel.rows), n)
    ensures n >= Size(rel.rows) ==> Members(res.rows) == Members(rel.rows)
  {
    var xs := Enumerate(rel.rows);
    EnumerationMembers(xs, rel.rows);
    var m := HeadCount(|xs|, n);
    var kept := set r | r in xs[..m];
    if rel.rows.FrozenSet? {
      NoDupCard(xs[..m]);
    }
    if m == |xs| {
      assert xs[..m] == xs;
    }
    res := Relation(rel.cols, FrozenSet(kept), rel.listCols);
  }
}
