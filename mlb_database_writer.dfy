/** The file readers of the baseball database loader: tab-separated
    addresses, a CSV roster, and the logo file each team row refers to. */
module MlbDatabaseWriter {
  import opened Wrappers
  import opened JavaText
  import opened CsvRows
  import opened MlbRecords

  // ---------------------------------------------------------------------
  // Addresses: one per line, eight tab-separated fields.
  // ---------------------------------------------------------------------

  /** The tab fields of a line, as split("\t") returns them. */
  function TabFields(line: string): seq<string>
  {
    Split(line, '\t')
  }

  /** The address a line gives, or the index exception when split("\t")
      yields fewer than eight fields. */
  function AddressOfLine(line: string): (r: Result<Address, Thrown>)
    ensures r.Ok? <==> 8 <= |TabFields(line)|
    ensures r.Err? ==> r.error == ArrayIndexOutOfBounds
  {
    var f := TabFields(line);
    if |f| < 8 then Err(ArrayIndexOutOfBounds)
    else Ok(Address(f[0], f[1], f[2], f[3], f[4], f[5], f[6], f[7]))
  }

  /** The address book of a file: one address per line in order, or the
      exception of a short line. */
  function AddressesOf(lines: seq<string>): Result<seq<Address>, Thrown>
  {
    if forall k | 0 <= k < |lines| :: AddressOfLine(lines[k]).Ok? then
      Ok(seq(|lines|, k requires 0 <= k < |lines| && AddressOfLine(lines[k]).Ok? => AddressOfLine(lines[k]).value))
    else
      Err(ArrayIndexOutOfBounds)
  }

  /** The Scanner loop; a file that cannot be opened (None) gives an empty
      book, since its exception is caught. */
  method ReadAddressFromTxt(file: Option<seq<string>>) returns (res: Result<seq<Address>, Thrown>)
    ensures res == if file.None? then Ok([]) else AddressesOf(file.value)
  {
    var addressBook: seq<Address> := [];
    if file.None? {
      return Ok(addressBook);
    }
    var lines := file.value;
    var i := 0;
    while i < |lines|
      invariant i <= |lines|
      invariant |addressBook| == i
      invariant forall k | 0 <= k < i :: AddressOfLine(lines[k]).Ok? && addressBook[k] == AddressOfLine(lines[k]).value
    {
      var lineSplit := TabFields(lines[i]);
      if |lineSplit| < 8 {
        assert AddressOfLine(lines[i]).Err?;
        return Err(ArrayIndexOutOfBounds);
      }
      var address := Address(lineSplit[0], lineSplit[1], lineSplit[2], lineSplit[3],
                             lineSplit[4], lineSplit[5], lineSplit[6], lineSplit[7]);
      addressBook := addressBook + [address];
      i := i + 1;
    }
    assert AddressesOf(lines).value == addressBook;
    res := Ok(addressBook);
  }

  /** A line of eight or more tab-free fields, the last non-empty, gives
      the first eight in constructor order; later fields are ignored. */
  lemma AddressOfJoin(fields: seq<string>)
    requires 8 <= |fields| && fields[|fields| - 1] != ""
    requires forall k | 0 <= k < |fields| :: '\t' !in fields[k]
    ensures AddressOfLine(Join(fields, '\t')) ==
      Ok(Address(fields[0], fields[1], fields[2], fields[3], fields[4], fields[5], fields[6], fields[7]))
  {
    var line := Join(fields, '\t');
    FieldsOfJoin(fields, '\t');
    assert line == fields[0] + ['\t'] + Join(fields[1..], '\t');
    assert line[|fields[0]|] == '\t';
    assert DropTrailingEmpty(fields) == fields;
  }

  /** A line whose eighth field and all later ones are empty throws: split
      drops them, so it counts as short. */
  lemma EmptyEighthField(fields: seq<string>)
    requires 8 <= |fields|
    requires forall k | 0 <= k < |fields| :: '\t' !in fields[k]
    requires forall k | 7 <= k < |fields| :: fields[k] == ""
    ensures AddressOfLine(Join(fields, '\t')).Err?
  {
    var line := Join(fields, '\t');
    FieldsOfJoin(fields, '\t');
    assert line == fields[0] + ['\t'] + Join(fields[1..], '\t');
    assert line[|fields[0]|] == '\t';
    assert TabFields(line) == DropTrailingEmpty(fields);
  }

  /** The book holds one address per line, in file order. */
  lemma AddressesInOrder(lines: seq<string>)
    ensures AddressesOf(lines).Ok? <==> forall k | 0 <= k < |lines| :: 8 <= |TabFields(lines[k])|
    ensures AddressesOf(lines).Ok? ==>
      |AddressesOf(lines).value| == |lines| &&
      forall k | 0 <= k < |lines| :: Ok(AddressesOf(lines).value[k]) == AddressOfLine(lines[k])
  {
    if !(forall k | 0 <= k < |lines| :: AddressOfLine(lines[k]).Ok?) {
      var k :| 0 <= k < |lines| && AddressOfLine(lines[k]).Err?;
      assert |TabFields(lines[k])| < 8;
    }
  }

  // ---------------------------------------------------------------------
  // Players: a CSV roster with a header row.
  // ---------------------------------------------------------------------

  /** Player(id, name, team, position) from columns 0, 1, 4 and 2. */
  function PlayerOfRow(r: seq<string>): Player
    requires 5 <= |r|
  {
    Player(r[0], r[1], r[4], r[2])
  }

  /** The counter loop over the rows; a file that cannot be read (None)
      gives an empty roster. */
  method ReadPlayerFromCsv(csv: Option<seq<seq<string>>>) returns (res: Result<seq<Player>, Thrown>)
    ensures res.Ok? ==> res.value == Reloaded(csv, 5, PlayerOfRow)
    ensures res.Err? <==> Escaped(csv, 5, PlayerOfRow) != None
    ensures res.Err? ==> res.error == ArrayIndexOutOfBounds
  {
    if csv.None? {
      return Ok([]);
    }
    res := LoadRows(csv.value, 5, PlayerOfRow);
  }

  /** One player per row after the header, in order, with column 3 unused;
      a roster of no rows or of the header alone is empty. */
  lemma RosterColumns(rows: seq<seq<string>>)
    ensures |rows| <= 1 ==> Loaded(rows, 5, PlayerOfRow) == Ok([])
    ensures Loaded(rows, 5, PlayerOfRow).Ok? <==> forall j | 1 <= j < |rows| :: 5 <= |rows[j]|
    ensures Loaded(rows, 5, PlayerOfRow).Ok? ==>
      var v := Loaded(rows, 5, PlayerOfRow).value;
      |v| == |Body(rows)| &&
      forall j | 1 <= j < |rows| :: v[j - 1] == Player(rows[j][0], rows[j][1], rows[j][4], rows[j][2])
  {
    LoadedFacts(rows, 5, PlayerOfRow);
  }

  // ---------------------------------------------------------------------
  // Teams: the logo file name and the values bound per team row.
  // ---------------------------------------------------------------------

  const LogoPrefix: string := "./images/mlb/logo_"
  const LogoSuffix: string := ".jpg"

  /** The logo file of a team, named after its lower-cased abbreviation. */
  function LogoFileName(abbreviation: string): (r: string)
    ensures |r| == |abbreviation| + 22
    ensures r[..18] == LogoPrefix && r[|r| - 4..] == LogoSuffix
    ensures r[18..|r| - 4] == ToLower(abbreviation)
  {
    LogoPrefix + ToLower(abbreviation) + LogoSuffix
  }

  /** Two abbreviations share a logo file iff they agree once lower-cased;
      in particular case never matters. */
  lemma LogoFileNameIff(a: string, b: string)
    ensures LogoFileName(a) == LogoFileName(b) <==> ToLower(a) == ToLower(b)
    ensures LogoFileName(ToLower(a)) == LogoFileName(a)
  {
    var la, lb := LogoFileName(a), LogoFileName(b);
    if la == lb {
      assert ToLower(a) == la[18..|la| - 4] == lb[18..|lb| - 4] == ToLower(b);
    }
    ToLowerIdempotent(a);
  }

  /** The values bound to parameters 2 to 7 of the team insert; the logo
      bytes are those of the file named here. */
  datatype TeamBinding = TeamBinding(id: string, abbreviation: string, name: string,
                                     conference: string, division: string, logoFile: string)

  /** The writeTeamTable loop, one binding per team in league order. */
  method TeamBindings(league: seq<Team>) returns (rows: seq<TeamBinding>)
    ensures |rows| == |league|
    ensures forall k | 0 <= k < |league| ::
      rows[k] == TeamBinding(league[k].id, league[k].abbreviation, league[k].name,
                             league[k].conference, league[k].division,
                             LogoFileName(league[k].abbreviation))
  {
    rows := [];
    for k := 0 to |league|
      invariant |rows| == k
      invariant forall j | 0 <= j < k ::
        rows[j] == TeamBinding(league[j].id, league[j].abbreviation, league[j].name,
                               league[j].conference, league[j].division,
                               LogoFileName(league[j].abbreviation))
    {
      var team := league[k];
      var logoFileName := LogoFileName(team.abbreviation);
      rows := rows + [TeamBinding(team.id, team.abbreviation, team.name, team.conference, team.division, logoFileName)];
    }
  }
}
