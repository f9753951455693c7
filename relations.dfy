/** The data model of the in-memory relational algebra: a relation is a list
    or a tuple of column names and a collection of rows. A row is a namedtuple
    whose field names are the relation's columns; since namedtuples compare as
    plain tuples, a row is modelled by its values alone. Most operators build a
    frozenset of rows; union and sort build a tuple, which keeps order and
    duplicates. */
module Relations {
  import opened Wrappers
  import opened PyNames

  type Row = seq<string>

  datatype Rows = FrozenSet(members: set<Row>) | RowTuple(items: seq<Row>)

  /** listCols tells whether cols is a Python list rather than a tuple: a list
      never equals a tuple, and adding a list to a tuple raises TypeError. Most
      operators return a tuple, so that is the default. */
  datatype Relation = Relation(cols: seq<string>, rows: Rows, listCols: bool := false)

  /** The exceptions the operators raise. */
  datatype Error =
    | BadFieldNames               // ValueError from namedtuple
    | ConcatTypeError             // TypeError from adding a list and a tuple of columns
    | NoSuchAttribute(name: string) // AttributeError from getattr / attrgetter
    | NotUnionCompatible          // ValueError raised by union
    | IndexOutOfRange             // IndexError on a short condition or an empty column list
    | NotAnInteger(text: string)  // ValueError from int()

  predicate NoDup<T(==)>(xs: seq<T>)
  {
    forall i, j | 0 <= i < j < |xs| :: xs[i] != xs[j]
  }

  /** Every name of cols is a valid field name. */
  predicate AllFieldNames(cols: seq<string>)
  {
    cols == [] || (FieldName(cols[0]) && AllFieldNames(cols[1..]))
  }

  lemma {:induction false} AllFieldNamesIn(cols: seq<string>)
    ensures AllFieldNames(cols) <==> forall c | c in cols :: FieldName(c)
  {
    if cols != [] {
      AllFieldNamesIn(cols[1..]);
      assert forall c :: c in cols <==> c == cols[0] || c in cols[1..];
    }
  }

  /** Names drawn from valid field names are valid field names. */
  lemma AllFieldNamesFrom(xs: seq<string>, ys: seq<string>, zs: seq<string>)
    requires AllFieldNames(ys) && AllFieldNames(zs) && forall c | c in xs :: c in ys || c in zs
    ensures AllFieldNames(xs)
  {
    AllFieldNamesIn(xs);
    AllFieldNamesIn(ys);
    AllFieldNamesIn(zs);
  }

  /** The field names namedtuple accepts: each a valid name, none repeated. */
  predicate FieldNames(cols: seq<string>)
  {
    NoDup(cols) && AllFieldNames(cols)
  }

  /** The distinct rows: iterating, hashing into a frozenset and `in` all see these. */
  function Members(rows: Rows): set<Row>
  {
    match rows
    case FrozenSet(s) => s
    case RowTuple(t) => set r | r in t
  }

  /** len(rows). */
  function Size(rows: Rows): nat
  {
    match rows
    case FrozenSet(s) => |s|
    case RowTuple(t) => |t|
  }

  /** Every relation the operators build: its columns are field names
      namedtuple accepts, and every row has one value per column. */
  predicate Valid(rel: Relation)
  {
    FieldNames(rel.cols) && forall r | r in Members(rel.rows) :: |r| == |rel.cols|
  }

  /** Keeping some of the rows of a valid relation leaves it valid. */
  lemma ValidSubset(rel: Relation, rows: Rows, listCols: bool)
    requires Valid(rel) && Members(rows) <= Members(rel.rows)
    ensures Valid(Relation(rel.cols, rows, listCols))
  {
  }

  function IndexOf<T(==)>(xs: seq<T>, x: T): (k: nat)
    requires x in xs
    ensures k < |xs| && xs[k] == x && x !in xs[..k]
  {
    if xs[0] == x then 0
    else
      var k := 1 + IndexOf(xs[1..], x);
      assert xs[..k] == [xs[0]] + xs[1..][..k - 1];
      k
  }

  /** In a list without duplicates the position of an element is its index. */
  lemma IndexOfNoDup<T>(xs: seq<T>, j: nat)
    requires NoDup(xs) && j < |xs|
    ensures IndexOf(xs, xs[j]) == j
  {
    var k := IndexOf(xs, xs[j]);
    assert xs[..j + 1][j] == xs[j];
    assert xs[..k + 1][k] == xs[j];
  }

  /** The first requested column the relation does not have: the one whose
      getattr raises on the first row visited. */
  function FirstMissing(want: seq<string>, have: seq<string>): (c: string)
    requires exists c | c in want :: c !in have
    ensures c in want && c !in have
  {
    if want[0] !in have then want[0] else FirstMissing(want[1..], have)
  }

  /** The first missing column is the one at the first position whose
      column is missing. */
  lemma {:induction false} FirstMissingAt(want: seq<string>, have: seq<string>, i: nat)
    requires i < |want| && want[i] !in have
    requires forall j | 0 <= j < i :: want[j] in have
    ensures exists c | c in want :: c !in have
    ensures FirstMissing(want, have) == want[i]
  {
    assert want[i] in want;
    if i > 0 {
      assert want[0] in have;
      assert want[1..][i - 1] == want[i];
      FirstMissingAt(want[1..], have, i - 1);
    }
  }

  /** Every row of xs has n values. */
  predicate Fit(xs: seq<Row>, n: nat)
  {
    forall r | r in xs :: |r| == n
  }

  /** getattr(row, name) on a row of rel whose fields include name. */
  function Value(cols: seq<string>, r: Row, name: string): string
    requires name in cols && |r| == |cols|
  {
    r[IndexOf(cols, name)]
  }

  /** new_row(*[getattr(row, field) for field in cols]): the operators rebuild
      each row from its own columns. */
  function Rebuild(cols: seq<string>, r: Row): (r': Row)
    requires |r| == |cols|
    ensures NoDup(cols) ==> r' == r
  {
    var r' := seq(|cols|, j requires 0 <= j < |cols| => Value(cols, r, cols[j]));
    assert NoDup(cols) ==> r' == r by {
      if NoDup(cols) {
        forall j | 0 <= j < |cols| ensures r'[j] == r[j] {
          IndexOfNoDup(cols, j);
        }
      }
    }
    r'
  }

  /** Building a fresh namedtuple of a row from its own fields gives back a
      row equal to it. */
  method RebuildRow(cols: seq<string>, r: Row) returns (r': Row)
    requires NoDup(cols) && |r| == |cols|
    ensures r' == r
  {
    r' := Rebuild(cols, r);
  }

  /** xs lists the rows in the order `for row in rows` visits them: a tuple in
      its own order, a frozenset in some order, each member once. */
  predicate IsEnumeration(xs: seq<Row>, rows: Rows)
  {
    match rows
    case RowTuple(t) => xs == t
    case FrozenSet(s) =>
      && |xs| == |s|
      && NoDup(xs)
      && (forall j | 0 <= j < |xs| :: xs[j] in s)
      && (forall r | r in s :: r in xs)
  }

  /** An enumeration visits exactly the members, len(rows) of them. */
  lemma EnumerationMembers(xs: seq<Row>, rows: Rows)
    requires IsEnumeration(xs, rows)
    ensures |xs| == Size(rows)
    ensures forall r :: r in xs <==> r in Members(rows)
  {
    if rows.FrozenSet? {
      forall r | r in xs ensures r in Members(rows) {
        var j :| 0 <= j < |xs| && xs[j] == r;
      }
    }
  }

  /** Every row an enumeration of a valid relation visits has one value per column. */
  lemma EnumerationRowLengths(xs: seq<Row>, rel: Relation)
    requires Valid(rel) && IsEnumeration(xs, rel.rows)
    ensures forall j | 0 <= j < |xs| :: |xs[j]| == |rel.cols|
  {
    EnumerationMembers(xs, rel.rows);
    assert forall j | 0 <= j < |xs| :: xs[j] in Members(rel.rows);
  }

  /** `for row in rows`: fixes the order in which the rows are visited. The
      order of a frozenset is not specified, so any order may be chosen. */
  method Enumerate(rows: Rows) returns (xs: seq<Row>)
    ensures IsEnumeration(xs, rows)
  {
    match rows
    case RowTuple(t) =>
      xs := t;
    case FrozenSet(s) =>
      var rest := s;
      xs := [];
      while rest != {}
        invariant rest <= s
        invariant |xs| + |rest| == |s|
        invariant NoDup(xs)
        invariant forall j | 0 <= j < |xs| :: xs[j] in s && xs[j] !in rest
        invariant forall r | r in s :: r in rest || r in xs
        decreases |rest|
      {
        var r :| r in rest;
        xs := xs + [r];
        rest := rest - {r};
      }
  }

  /** The distinct elements of a list without duplicates are as many as its length. */
  lemma {:induction false} NoDupCard(xs: seq<Row>)
    requires NoDup(xs)
    ensures |set r | r in xs| == |xs|
  {
    if xs != [] {
      var init := xs[..|xs| - 1];
      NoDupCard(init);
      assert (set r | r in xs) == (set r | r in init) + {xs[|xs| - 1]};
      assert xs[|xs| - 1] !in init;
    }
  }

  /** The distinct elements of any list are at most as many as its length. */
  lemma {:induction false} SeqSetCard(xs: seq<Row>)
    ensures |set r | r in xs| <= |xs|
  {
    if xs != [] {
      var init := xs[..|xs| - 1];
      SeqSetCard(init);
      assert (set r | r in xs) == (set r | r in init) + {xs[|xs| - 1]};
    }
  }
}

/** The names Python accepts as namedtuple field names. Characters outside
    ASCII are all taken as identifier characters. */
module PyNames {
  /** The Python keywords, which namedtuple refuses as field names. */
  function Keyword(i: nat): string
    requires i < 35
  {
    match i
    case 0 => "False"
    case 1 => "None"
    case 2 => "True"
    case 3 => "and"
    case 4 => "as"
    case 5 => "assert"
    case 6 => "async"
    case 7 => "await"
    case 8 => "break"
    case 9 => "class"
    case 10 => "continue"
    case 11 => "def"
    case 12 => "del"
    case 13 => "elif"
    case 14 => "else"
    case 15 => "except"
    case 16 => "finally"
    case 17 => "for"
    case 18 => "from"
    case 19 => "global"
    case 20 => "if"
    case 21 => "import"
    case 22 => "in"
    case 23 => "is"
    case 24 => "lambda"
    case 25 => "nonlocal"
    case 26 => "not"
    case 27 => "or"
    case 28 => "pass"
    case 29 => "raise"
    case 30 => "return"
    case 31 => "try"
    case 32 => "while"
    case 33 => "with"
    case _ => "yield"
  }

  predicate IsKeyword(s: string)
  {
    exists i | 0 <= i < 35 :: Keyword(i) == s
  }

  /** A character that may begin an identifier. */
  predicate IdStart(c: char)
  {
    'a' <= c <= 'z' || 'A' <= c <= 'Z' || c == '_' || c as int >= 128
  }

  /** A character that may continue an identifier. */
  predicate IdContinue(c: char)
  {
    IdStart(c) || '0' <= c <= '9'
  }

  /** str.isidentifier(). */
  predicate Identifier(s: string)
  {
    |s| > 0 && IdStart(s[0]) && forall i | 1 <= i < |s| :: IdContinue(s[i])
  }

  /** A name namedtuple takes as a field: an identifier that is not a keyword
      and does not begin with an underscore. */
  predicate FieldName(s: string)
  {
    Identifier(s) && !IsKeyword(s) && s[0] != '_'
  }
}
