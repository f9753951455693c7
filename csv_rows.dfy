/** Rows read from a CSV file by a loader that skips the header row and
    builds one record per remaining row from its cells. Indexing a cell a
    short row lacks throws, and nothing catches it. */
module CsvRows {
  import opened Wrappers
  import opened JavaText

  /** The rows after the header. */
  function Body(rows: seq<seq<string>>): seq<seq<string>>
  {
    if rows == [] then [] else rows[1..]
  }

  /** The records a loader builds: one per row after the header, in order,
      or the index exception when some such row has too few cells. */
  function Loaded<R>(rows: seq<seq<string>>, width: nat, make: seq<string> --> R): Result<seq<R>, Thrown>
    requires forall r: seq<string> | width <= |r| :: make.requires(r)
  {
    var body := Body(rows);
    if forall j | 0 <= j < |body| :: width <= |body[j]| then
      Ok(seq(|body|, j requires 0 <= j < |body| && width <= |body[j]| => make(body[j])))
    else
      Err(ArrayIndexOutOfBounds)
  }

  /** The counter loop of a loader. */
  method LoadRows<R>(rows: seq<seq<string>>, width: nat, make: seq<string> --> R) returns (res: Result<seq<R>, Thrown>)
    requires forall r: seq<string> | width <= |r| :: make.requires(r)
    ensures res == Loaded(rows, width, make)
    ensures res.Ok? <==> forall j | 1 <= j < |rows| :: width <= |rows[j]|
    ensures res.Ok? ==> |res.value| == |Body(rows)| && forall j | 1 <= j < |rows| :: res.value[j - 1] == make(rows[j])
  {
    var list: seq<R> := [];
    var counter := 0;
    for i := 0 to |rows|
      invariant counter == i
      invariant |list| == if i == 0 then 0 else i - 1
      invariant forall j | 1 <= j < i :: width <= |rows[j]| && list[j - 1] == make(rows[j])
    {
      if counter != 0 {
        if |rows[i]| < width {
          assert Body(rows)[i - 1] == rows[i];
          assert Loaded(rows, width, make).Err?;
          return Err(ArrayIndexOutOfBounds);
        }
        list := list + [make(rows[i])];
      }
      counter := counter + 1;
    }
    ghost var body := Body(rows);
    assert forall j | 0 <= j < |body| :: body[j] == rows[j + 1];
    assert |list| == |body| && forall j | 0 <= j < |body| :: width <= |body[j]| && list[j] == make(body[j]);
    assert Loaded(rows, width, make).value == list;
    res := Ok(list);
  }

  /** What a loader yields when it ran on a file that could be
      read (Some rows) or not (None: a handler swallowed the error). */
  function Reloaded<R>(csv: Option<seq<seq<string>>>, width: nat, make: seq<string> --> R): seq<R>
    requires forall r: seq<string> | width <= |r| :: make.requires(r)
  {
    if csv.None? then []
    else match Loaded(csv.value, width, make)
      case Ok(v) => v
      case Err(_) => []
  }

  /** The exception a loader lets escape. */
  function Escaped<R>(csv: Option<seq<seq<string>>>, width: nat, make: seq<string> --> R): Option<Thrown>
    requires forall r: seq<string> | width <= |r| :: make.requires(r)
  {
    if csv.None? then None
    else match Loaded(csv.value, width, make)
      case Ok(_) => None
      case Err(e) => Some(e)
  }

  /** A loader succeeds iff every row after the header has width cells;
      it then yields one record per such row, in order, built from that
      row, and otherwise throws the index exception. */
  lemma LoadedFacts<R>(rows: seq<seq<string>>, width: nat, make: seq<string> --> R)
    requires forall r: seq<string> | width <= |r| :: make.requires(r)
    ensures Loaded(rows, width, make).Ok? <==> forall j | 1 <= j < |rows| :: width <= |rows[j]|
    ensures Loaded(rows, width, make).Err? ==> Loaded(rows, width, make).error == ArrayIndexOutOfBounds
    ensures Loaded(rows, width, make).Ok? ==>
      var v := Loaded(rows, width, make).value;
      && |v| == |Body(rows)|
      && forall j | 1 <= j < |rows| :: width <= |rows[j]| && v[j - 1] == make(rows[j])
  {
    var body := Body(rows);
    assert forall j | 1 <= j < |rows| :: body[j - 1] == rows[j];
    if forall j | 1 <= j < |rows| :: width <= |rows[j]| {
      forall j | 0 <= j < |body| ensures width <= |body[j]| {
        assert body[j] == rows[j + 1];
      }
    } else {
      var j :| 1 <= j < |rows| && |rows[j]| < width;
      assert |body[j - 1]| < width;
    }
  }

  /** A loader run: the records kept, and the exception that escaped. */
  method Reload<R>(csv: Option<seq<seq<string>>>, width: nat, make: seq<string> --> R) returns (list: seq<R>, thrown: Option<Thrown>)
    requires forall r: seq<string> | width <= |r| :: make.requires(r)
    ensures list == Reloaded(csv, width, make) && thrown == Escaped(csv, width, make)
    ensures thrown != None ==> list == []
  {
    list, thrown := [], None;
    if csv.Some? {
      var r := LoadRows(csv.value, width, make);
      match r
      case Ok(v) => list := v;
      case Err(e) => thrown := Some(e);
    }
  }
}
