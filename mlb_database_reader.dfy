/** The division picker of the baseball database viewer: each division is
    shown as "conference | division" and read back from that text to query
    the teams of the division. */
module MlbDatabaseReader {
  import opened Wrappers
  import opened JavaText

  /** The text shown for a conference and division. */
  function Label(conference: string, division: string): string
  {
    conference + " | " + division
  }

  /** confDiv.split(" | "): the pattern is a regular expression whose two
      alternatives are both a single space, so it splits at every space. */
  function ConfDivTokens(confDiv: string): seq<string>
  {
    Split(confDiv, ' ')
  }

  /** The conference and division read back as tokens 0 and 2, or the index
      exception when there are fewer than three tokens. */
  function ParseConfDiv(confDiv: string): (r: Result<(string, string), Thrown>)
    ensures r.Ok? <==> 3 <= |ConfDivTokens(confDiv)|
    ensures r.Err? ==> r.error == ArrayIndexOutOfBounds
    ensures r.Ok? ==> ' ' !in r.value.0 && ' ' !in r.value.1
  {
    var t := ConfDivTokens(confDiv);
    SplitPieces(confDiv, ' ');
    if |t| < 3 then Err(ArrayIndexOutOfBounds) else Ok((t[0], t[2]))
  }

  /** The select statement getTeams runs for a conference and division. */
  function TeamQuery(conference: string, division: string): string
  {
    "SELECT name FROM team WHERE conference = '" + conference + "' AND division = '" + division + "'"
  }

  /** A label is the three pieces joined with single spaces. */
  lemma LabelJoin(conference: string, division: string)
    ensures Label(conference, division) == Join([conference, "|", division], ' ')
  {
    var parts := [conference, "|", division];
    assert parts[1..] == ["|", division] && parts[1..][1..] == [division];
    assert Join(parts[1..], ' ') == "|" + [' '] + division;
    assert " | " == [' '] + "|" + [' '];
    assert Join(parts, ' ') == conference + [' '] + ("|" + [' '] + division);
  }

  /** Round trip: a label of a space-free conference and a non-empty
      space-free division reads back as that pair. */
  lemma LabelRoundTrip(conference: string, division: string)
    requires ' ' !in conference && ' ' !in division && division != ""
    ensures ParseConfDiv(Label(conference, division)) == Ok((conference, division))
  {
    var s := Label(conference, division);
    LabelJoin(conference, division);
    FieldsOfJoin([conference, "|", division], ' ');
    assert s[|conference|] == ' ';
  }

  /** An empty division cannot be read back: split drops the trailing empty
      token, leaving two. */
  lemma EmptyDivisionThrows(conference: string)
    requires ' ' !in conference
    ensures ParseConfDiv(Label(conference, "")) == Err(ArrayIndexOutOfBounds)
  {
    var s := Label(conference, "");
    LabelJoin(conference, "");
    FieldsOfJoin([conference, "|", ""], ' ');
    assert s[|conference|] == ' ';
    assert DropTrailingEmpty([conference, "|", ""]) == DropTrailingEmpty([conference, "|"]);
  }

  /** A conference of two words is misread: its second word takes the
      place of the separator token, and "|" is taken for the division. */
  lemma SpacedConferenceMisread(first: string, second: string, division: string)
    requires ' ' !in first && ' ' !in second && ' ' !in division && division != ""
    ensures ParseConfDiv(Label(first + " " + second, division)) == Ok((first, "|"))
  {
    var parts := [first, second, "|", division];
    var s := Label(first + " " + second, division);
    assert s == Join(parts, ' ') by {
      assert parts[1..] == [second, "|", division];
      LabelJoin(second, division);
    }
    FieldsOfJoin(parts, ' ');
    assert s[|first|] == ' ';
  }

  /** The labels of result rows, in row order. */
  function Labels(rows: seq<(string, string)>): (r: seq<string>)
    ensures |r| == |rows| && forall k | 0 <= k < |rows| :: r[k] == Label(rows[k].0, rows[k].1)
  {
    seq(|rows|, k requires 0 <= k < |rows| => Label(rows[k].0, rows[k].1))
  }

  /** Every label getDivisions adds reads back as its row, when no value
      holds a space and no division is empty. */
  lemma LabelsRoundTrip(rows: seq<(string, string)>)
    requires forall k | 0 <= k < |rows| :: ' ' !in rows[k].0 && ' ' !in rows[k].1 && rows[k].1 != ""
    ensures forall k | 0 <= k < |rows| :: ParseConfDiv(Labels(rows)[k]) == Ok(rows[k])
  {
    forall k | 0 <= k < |rows| ensures ParseConfDiv(Labels(rows)[k]) == Ok(rows[k]) {
      LabelRoundTrip(rows[k].0, rows[k].1);
    }
  }

  /** A caller's ArrayList of strings. */
  class StringList {
    var items: seq<string>

    constructor ()
      ensures items == []
    {
      items := [];
    }

    method Add(s: string)
      modifies this
      ensures items == old(items) + [s]
    {
      items := items + [s];
    }
  }

  /** The reader holds one connection at a time; connects counts how many
      were opened. */
  class DatabaseReader {
    var open: bool
    var connects: nat

    constructor ()
      ensures !open && connects == 0
    {
      open, connects := false, 0;
    }

    method Connect()
      modifies this
      ensures open && connects == old(connects) + 1
    {
      open := true;
      connects := connects + 1;
    }

    /** Closes the connection. A reader that never connected still holds a null
        connection, and calling close on it throws a NullPointerException, which
        the SQLException handler does not catch. Closing an already closed
        connection does nothing. */
    method Disconnect() returns (thrown: Option<Thrown>)
      modifies this
      ensures old(connects) == 0 ==> thrown == Some(NullPointer) && open == old(open)
      ensures old(connects) > 0 ==> thrown == None && !open
      ensures connects == old(connects)
    {
      if connects == 0 {
        return Some(NullPointer);
      }
      open := false;
      thrown := None;
    }

    /** Appends the label of every row the division query returns, keeping
        what the list held. */
    method GetDivisions(divisions: StringList, results: seq<(string, string)>)
      modifies this, divisions
      ensures divisions.items == old(divisions.items) + Labels(results)
      ensures !open && connects == old(connects) + 1
    {
      Connect();
      var i := 0;
      while i < |results|
        invariant i <= |results|
        invariant divisions.items == old(divisions.items) + Labels(results[..i])
        invariant open && connects == old(connects) + 1
      {
        assert Labels(results[..i + 1]) == Labels(results[..i]) + [Label(results[i].0, results[i].1)];
        divisions.Add(Label(results[i].0, results[i].1));
        i := i + 1;
      }
      assert results[..i] == results;
      var closed := Disconnect();
    }

    /** Reads the conference and division from confDiv, then appends the
        name of every row the team query returns. A confDiv of fewer than
        three tokens throws before any connection is opened. */
    method GetTeams(confDiv: string, teams: StringList, results: seq<string>) returns (thrown: Option<Thrown>, sql: Option<string>)
      modifies this, teams
      ensures ParseConfDiv(confDiv).Err? ==>
        && thrown == Some(ArrayIndexOutOfBounds) && sql == None
        && teams.items == old(teams.items)
        && open == old(open) && connects == old(connects)
      ensures ParseConfDiv(confDiv).Ok? ==>
        && thrown == None
        && sql == Some(TeamQuery(ParseConfDiv(confDiv).value.0, ParseConfDiv(confDiv).value.1))
        && teams.items == old(teams.items) + results
        && !open && connects == old(connects) + 1
    {
      var tokens := ConfDivTokens(confDiv);
      if |tokens| < 3 {
        return Some(ArrayIndexOutOfBounds), None;
      }
      var conference := tokens[0];
      var division := tokens[2];
      Connect();
      sql := Some(TeamQuery(conference, division));
      var i := 0;
      while i < |results|
        invariant i <= |results|
        invariant teams.items == old(teams.items) + results[..i]
        invariant open && connects == old(connects) + 1
      {
        assert results[..i + 1] == results[..i] + [results[i]];
        teams.Add(results[i]);
        i := i + 1;
      }
      assert results[..i] == results;
      var closed := Disconnect();
      thrown := None;
    }
  }
}
