/** The parsers of the Luther database loader. Each reader gets its input as
    the sequence of lines (or table cells) the file or page yields; opening
    files, PDF text extraction, HTML fetching and the JDBC writes are not
    modelled, only what the readers compute from that text and which values
    the writers bind. */
module LutherDBWriter {
  import opened Wrappers
  import opened JavaText
  import opened LutherRecords

  // ---------------------------------------------------------------------------
  // readDepartmentFile

  /** The five locals readDepartmentFile fills, one line at a time. */
  datatype Slots = Slots(
    dName: Option<string>,
    dHead: Option<string>,
    dHeadEmail: Option<string>,
    dHeadOffice: Option<string>,
    dHeadPhone: Option<string>)

  const NoSlots := Slots(None, None, None, None, None)

  function Record(st: Slots): Departments
  {
    Departments(st.dName, st.dHead, st.dHeadEmail, st.dHeadOffice, st.dHeadPhone)
  }

  /** A non-blank line goes into the first slot still null; a sixth one is
      ignored. The head line keeps only its text before the first comma, and
      indexing the split of a line made of commas only throws. */
  function FillNext(st: Slots, line: string): Result<Slots, Thrown>
  {
    FillWith(st, Trim(line))
  }

  /** FillNext once the line is trimmed to t. */
  function FillWith(st: Slots, t: string): Result<Slots, Thrown>
  {
    if st.dName.None? then Ok(st.(dName := Some(t)))
    else if st.dHead.None? then
      var lineSplit := Split(t, ',');
      if lineSplit == [] then Err(ArrayIndexOutOfBounds) else Ok(st.(dHead := Some(lineSplit[0])))
    else if st.dHeadEmail.None? then Ok(st.(dHeadEmail := Some(t)))
    else if st.dHeadOffice.None? then Ok(st.(dHeadOffice := Some(t)))
    else if st.dHeadPhone.None? then Ok(st.(dHeadPhone := Some(t)))
    else Ok(st)
  }

  /** The records still to come when the slots hold st and lines remain: a
      blank line closes a record once it has a name, and the end of the file
      closes the last one. */
  function DepartmentRun(st: Slots, lines: seq<string>): Result<seq<Departments>, Thrown>
    decreases |lines|
  {
    if lines == [] then Ok(if st.dName.Some? then [Record(st)] else [])
    else if IsBlank(lines[0]) then
      if st.dName.Some? then Prepend([Record(st)], DepartmentRun(NoSlots, lines[1..]))
      else DepartmentRun(st, lines[1..])
    else
      match FillNext(st, lines[0])
      case Err(e) => Err(e)
      case Ok(st') => DepartmentRun(st', lines[1..])
  }

  function Prepend<T, E>(xs: seq<T>, r: Result<seq<T>, E>): Result<seq<T>, E>
  {
    match r
    case Ok(ys) => Ok(xs + ys)
    case Err(e) => Err(e)
  }

  /** The first two lines are a header and are skipped. */
  function DepartmentsOf(lines: seq<string>): Result<seq<Departments>, Thrown>
  {
    DepartmentRun(NoSlots, if |lines| >= 2 then lines[2..] else [])
  }

  lemma PrependNil<T, E>(r: Result<seq<T>, E>)
    ensures Prepend([], r) == r
  {
    if r.Ok? {
      assert [] + r.value == r.value;
    }
  }

  lemma PrependPrepend<T, E>(xs: seq<T>, ys: seq<T>, r: Result<seq<T>, E>)
    ensures Prepend(xs, Prepend(ys, r)) == Prepend(xs + ys, r)
  {
    if r.Ok? {
      assert xs + (ys + r.value) == (xs + ys) + r.value;
    }
  }

  /** readDepartmentFile over the lines of the file. */
  method ReadDepartmentFile(lines: seq<string>) returns (res: Result<seq<Departments>, Thrown>)
    ensures res == DepartmentsOf(lines)
  {
    var body := if |lines| >= 2 then lines[2..] else [];
    var dName: Option<string> := None;
    var dHead: Option<string> := None;
    var dHeadEmail: Option<string> := None;
    var dHeadOffice: Option<string> := None;
    var dHeadPhone: Option<string> := None;
    var departmentData: seq<Departments> := [];
    var i := 0;
    assert body[0..] == body;
    PrependNil(DepartmentsOf(lines));
    while i < |body|
      invariant i <= |body|
      invariant DepartmentsOf(lines)
        == Prepend(departmentData, DepartmentRun(Slots(dName, dHead, dHeadEmail, dHeadOffice, dHeadPhone), body[i..]))
    {
      var line := body[i];
      ghost var st := Slots(dName, dHead, dHeadEmail, dHeadOffice, dHeadPhone);
      assert body[i..][0] == line && body[i..][1..] == body[i + 1..];
      if Trim(line) == [] {
        if dName != None {
          PrependPrepend(departmentData, [Record(st)], DepartmentRun(NoSlots, body[i + 1..]));
          departmentData := departmentData + [Departments(dName, dHead, dHeadEmail, dHeadOffice, dHeadPhone)];
          dName, dHead, dHeadEmail, dHeadOffice, dHeadPhone := None, None, None, None, None;
        }
      } else {
        if dName == None {
          dName := Some(Trim(line));
        } else if dHead == None {
          var lineSplit := Split(Trim(line), ',');
          if |lineSplit| == 0 {
            return Err(ArrayIndexOutOfBounds);
          }
          dHead := Some(lineSplit[0]);
        } else if dHeadEmail == None {
          dHeadEmail := Some(Trim(line));
        } else if dHeadOffice == None {
          dHeadOffice := Some(Trim(line));
        } else if dHeadPhone == None {
          dHeadPhone := Some(Trim(line));
        }
      }
      i := i + 1;
    }
    assert body[i..] == [];
    if dName != None {
      departmentData := departmentData + [Departments(dName, dHead, dHeadEmail, dHeadOffice, dHeadPhone)];
    } else {
      assert departmentData + [] == departmentData;
    }
    return Ok(departmentData);
  }

  /** A text with no blank at either end, as trim() leaves it. */
  predicate Trimmed(s: string)
  {
    s != [] && s[0] > ' ' && s[|s| - 1] > ' '
  }

  /** What holds of the slots at every step: they fill front to back, so a
      null slot is followed by null slots only, and every slot but the head
      holds a whole trimmed line. */
  predicate SlotsInOrder(st: Slots)
  {
    && (st.dName.None? ==> st.dHead.None?)
    && (st.dHead.None? ==> st.dHeadEmail.None?)
    && (st.dHeadEmail.None? ==> st.dHeadOffice.None?)
    && (st.dHeadOffice.None? ==> st.dHeadPhone.None?)
    && (st.dName.Some? ==> Trimmed(st.dName.value))
    && (st.dHeadEmail.Some? ==> Trimmed(st.dHeadEmail.value))
    && (st.dHeadOffice.Some? ==> Trimmed(st.dHeadOffice.value))
    && (st.dHeadPhone.Some? ==> Trimmed(st.dHeadPhone.value))
  }

  /** A filled line keeps the slots in order. */
  lemma FillNextInOrder(st: Slots, line: string)
    requires SlotsInOrder(st) && !IsBlank(line)
    ensures FillNext(st, line).Ok? ==> SlotsInOrder(FillNext(st, line).value)
  {
    FillWithInOrder(st, Trim(line));
  }

  lemma FillWithInOrder(st: Slots, t: string)
    requires SlotsInOrder(st) && Trimmed(t)
    ensures FillWith(st, t).Ok? ==> SlotsInOrder(FillWith(st, t).value)
  {
  }

  /** The head slot takes the trimmed line up to its first comma, and throws
      exactly when the trimmed line is made of commas only. */
  lemma FillHead(st: Slots, line: string)
    requires st.dName.Some? && st.dHead.None? && !IsBlank(line)
    ensures FillNext(st, line).Err? <==> forall k | 0 <= k < |Trim(line)| :: Trim(line)[k] == ','
    ensures FillNext(st, line).Ok? ==>
      FillNext(st, line).value
        == st.(dHead := Some(if ',' in Trim(line) then Trim(line)[..FirstIndex(Trim(line), ',')] else Trim(line)))
  {
    SplitEmptyIff(Trim(line), ',');
    if Split(Trim(line), ',') != [] {
      SplitFirst(Trim(line), ',');
    }
  }

  /** Only the head line can throw: every other line is stored or ignored. */
  lemma OnlyHeadThrows(st: Slots, line: string)
    requires FillNext(st, line).Err?
    ensures st.dName.Some? && st.dHead.None?
  {
  }

  /** Every record read has a name, and its slots are filled front to back:
      a field is null only when every field after it is. */
  lemma {:induction false} DepartmentRunInOrder(st: Slots, lines: seq<string>)
    requires SlotsInOrder(st)
    ensures DepartmentRun(st, lines).Ok? ==>
      forall d | d in DepartmentRun(st, lines).value ::
        SlotsInOrder(Slots(d.dName, d.dHead, d.dHeadEmail, d.dHeadOffice, d.dHeadPhone)) && d.dName.Some?
    decreases |lines|
  {
    if lines != [] {
      if IsBlank(lines[0]) {
        if st.dName.Some? {
          DepartmentRunInOrder(NoSlots, lines[1..]);
        } else {
          DepartmentRunInOrder(st, lines[1..]);
        }
      } else {
        FillNextInOrder(st, lines[0]);
        if FillNext(st, lines[0]).Ok? {
          DepartmentRunInOrder(FillNext(st, lines[0]).value, lines[1..]);
        }
      }
    }
  }

  /** What readDepartmentFile returns names each department by a trimmed
      line, and fills its fields front to back. */
  lemma DepartmentsNamed(lines: seq<string>)
    ensures DepartmentsOf(lines).Ok? ==>
      forall d | d in DepartmentsOf(lines).value ::
        && d.dName.Some? && Trimmed(d.dName.value)
        && (d.dHead.None? ==> d.dHeadEmail.None? && d.dHeadOffice.None? && d.dHeadPhone.None?)
        && (d.dHeadEmail.None? ==> d.dHeadOffice.None? && d.dHeadPhone.None?)
        && (d.dHeadOffice.None? ==> d.dHeadPhone.None?)
  {
    DepartmentRunInOrder(NoSlots, if |lines| >= 2 then lines[2..] else []);
  }

  /** Blank lines met while no record is open change nothing: any run of
      blank lines separates two departments just as one does. */
  lemma {:induction false} BlankLinesIgnored(blanks: seq<string>, rest: seq<string>)
    requires forall k | 0 <= k < |blanks| :: IsBlank(blanks[k])
    ensures DepartmentRun(NoSlots, blanks + rest) == DepartmentRun(NoSlots, rest)
    decreases |blanks|
  {
    if blanks != [] {
      var ls := blanks + rest;
      assert ls[0] == blanks[0] && IsBlank(ls[0]);
      assert ls[1..] == blanks[1..] + rest;
      assert DepartmentRun(NoSlots, ls) == DepartmentRun(NoSlots, ls[1..]);
      BlankLinesIgnored(blanks[1..], rest);
    } else {
      assert blanks + rest == rest;
    }
  }

  /** A department written as its five lines and a blank line is read as
      exactly those five values, and reading goes on after it from empty
      slots. */
  lemma OneDepartment(name: string, head: string, email: string, office: string, phone: string, blank: string, rest: seq<string>)
    requires Trimmed(name) && Trimmed(email) && Trimmed(office) && Trimmed(phone)
    requires Trimmed(head) && ',' !in head
    requires IsBlank(blank)
    ensures DepartmentRun(NoSlots, [name, head, email, office, phone, blank] + rest)
      == Prepend([Departments(Some(name), Some(head), Some(email), Some(office), Some(phone))], DepartmentRun(NoSlots, rest))
  {
    var ls := [name, head, email, office, phone, blank] + rest;
    TrimKeeps(name); TrimKeeps(head); TrimKeeps(email); TrimKeeps(office); TrimKeeps(phone);
    assert ls[1..] == [head, email, office, phone, blank] + rest;
    assert ls[2..] == [email, office, phone, blank] + rest;
    assert ls[3..] == [office, phone, blank] + rest;
    assert ls[4..] == [phone, blank] + rest;
    assert ls[5..] == [blank] + rest;
    assert ls[6..] == rest;
    var s1 := NoSlots.(dName := Some(name));
    var s2 := s1.(dHead := Some(head));
    var s3 := s2.(dHeadEmail := Some(email));
    var s4 := s3.(dHeadOffice := Some(office));
    var s5 := s4.(dHeadPhone := Some(phone));
    assert Split(head, ',') == [head];
    assert FillNext(NoSlots, name) == Ok(s1);
    assert FillNext(s1, head) == Ok(s2);
    assert FillNext(s2, email) == Ok(s3);
    assert FillNext(s3, office) == Ok(s4);
    assert FillNext(s4, phone) == Ok(s5);
    assert DepartmentRun(s5, ls[5..]) == Prepend([Record(s5)], DepartmentRun(NoSlots, rest));
    assert DepartmentRun(s4, ls[4..]) == DepartmentRun(s5, ls[5..]);
    assert DepartmentRun(s3, ls[3..]) == DepartmentRun(s4, ls[4..]);
    assert DepartmentRun(s2, ls[2..]) == DepartmentRun(s3, ls[3..]);
    assert DepartmentRun(s1, ls[1..]) == DepartmentRun(s2, ls[2..]);
    assert DepartmentRun(NoSlots, ls) == DepartmentRun(s1, ls[1..]);
  }

  // ---------------------------------------------------------------------------
  // writeLocationTable

  /** The (building, room) pairs writeLocationTable inserts: rooms 1, 2 and 3
      of every building, building by building. */
  method LocationRows(location: seq<string>) returns (rows: seq<(string, int)>)
    ensures |rows| == 3 * |location|
    ensures forall n | 0 <= n < |rows| :: rows[n] == (location[n / 3], n % 3 + 1)
  {
    rows := [];
    for i := 0 to |location|
      invariant |rows| == 3 * i
      invariant forall n | 0 <= n < |rows| :: rows[n] == (location[n / 3], n % 3 + 1)
    {
      rows := rows + [(location[i], 1)];
      rows := rows + [(location[i], 2)];
      rows := rows + [(location[i], 3)];
    }
  }

  // ---------------------------------------------------------------------------
  // readFacultyPDF

  /** The words replaceAll deletes from every line, in the order it does so. */
  const DroppedWords: seq<string> := [
    "X ", "head ", "acting ", "headspring ", "headfall ", "program ",
    "cohead ", "Maltaspring ", "fall ", "co ", "Mnsterspring ", "director "]

  /** Delete every occurrence of each pattern in turn. */
  function RemoveEach(s: string, ps: seq<string>): (r: string)
    requires forall k | 0 <= k < |ps| :: ps[k] != []
    ensures |r| <= |s| && forall c | c in r :: c in s
    decreases |ps|
  {
    if ps == [] then s else RemoveEach(RemoveAll(s, ps[0]), ps[1..])
  }

  /** The line once stripped of every character outside [a-zA-Z0-9 ] and of
      the dropped words. */
  function Cleaned(line: string): string
  {
    RemoveEach(KeepWordOrSpace(line), DroppedWords)
  }

  /** line.trim().split(" ") of the cleaned line. */
  function Tokens(line: string): seq<string>
  {
    Split(Trim(Cleaned(line)), ' ')
  }

  /** The faculty member a line split into these tokens describes, if any:
      six tokens are last name, first name, two office words, extension and
      user name; of seven tokens a leading "1" or "2" is skipped, "Alonso"
      starts a three-word name, and otherwise the office has three words. */
  function Layout(data: seq<string>): Option<Faculty>
  {
    if |data| >= 6 && data[0] != "Fall" && data[0] != "new" && data[0] != "parttime" then
      if |data| == 6 then
        Some(Faculty(data[1] + " " + data[0], data[2] + " " + data[3], data[4], data[5]))
      else if |data| == 7 then
        if data[0] == "1" || data[0] == "2" then
          Some(Faculty(data[2] + " " + data[1], data[3] + " " + data[4], data[5], data[6]))
        else if data[0] == "Alonso" then
          Some(Faculty(data[2] + " " + data[0] + " " + data[1], data[3] + " " + data[4], data[5], data[6]))
        else
          Some(Faculty(data[1] + " " + data[0], data[2] + " " + data[3] + " " + data[4], data[5], data[6]))
      else None
    else None
  }

  /** The faculty member one line of the directory describes, if any. */
  function FacultyOf(line: string): Option<Faculty>
  {
    Layout(Tokens(line))
  }

  /** f applied to every element. */
  function MapSeq<A, B>(f: A -> B, xs: seq<A>): (ys: seq<B>)
    ensures |ys| == |xs| && forall i | 0 <= i < |xs| :: ys[i] == f(xs[i])
  {
    seq(|xs|, i requires 0 <= i < |xs| => f(xs[i]))
  }

  lemma MapAppend<A, B>(f: A -> B, a: seq<A>, b: seq<A>)
    ensures MapSeq(f, a + b) == MapSeq(f, a) + MapSeq(f, b)
  {
    assert forall i | 0 <= i < |a| :: (a + b)[i] == a[i];
    assert forall i | |a| <= i < |a + b| :: (a + b)[i] == b[i - |a|];
  }

  /** What each line reads as, line by line. */
  function Readings(lines: seq<string>): seq<Option<Faculty>>
  {
    MapSeq(FacultyOf, lines)
  }

  /** The values present, in order. */
  function Present<T>(os: seq<Option<T>>): seq<T>
  {
    if os == [] then []
    else
      var init := Present(os[..|os| - 1]);
      match os[|os| - 1]
      case Some(x) => init + [x]
      case None => init
  }

  lemma PresentTake<T>(os: seq<Option<T>>, i: nat)
    requires i < |os|
    ensures Present(os[..i + 1]) == Present(os[..i]) + (if os[i].Some? then [os[i].value] else [])
  {
    assert os[..i + 1][..i] == os[..i];
  }

  /** The list readFacultyPDF builds from these lines. */
  function FacultyFrom(lines: seq<string>): seq<Faculty>
  {
    Present(Readings(lines))
  }

  /** readFacultyPDF over the lines of the extracted text. */
  method ReadFacultyPDF(lines: seq<string>) returns (facultyList: seq<Faculty>)
    ensures facultyList == FacultyFrom(lines)
  {
    facultyList := [];
    for i := 0 to |lines|
      invariant facultyList == FacultyFrom(lines[..i])
    {
      var reading := FacultyOf(lines[i]);
      FacultyFromStep(lines, i);
      if reading.Some? {
        facultyList := facultyList + [reading.value];
      }
    }
    assert lines[..|lines|] == lines;
  }

  /** One more line adds what it reads as, if anything, at the end. */
  lemma FacultyFromStep(lines: seq<string>, i: nat)
    requires i < |lines|
    ensures FacultyFrom(lines[..i + 1])
      == FacultyFrom(lines[..i]) + (if FacultyOf(lines[i]).Some? then [FacultyOf(lines[i]).value] else [])
  {
    MapPresentStep(FacultyOf, lines, i);
  }

  lemma MapPresentStep<A, B>(f: A -> Option<B>, xs: seq<A>, i: nat)
    requires i < |xs|
    ensures Present(MapSeq(f, xs[..i + 1]))
      == Present(MapSeq(f, xs[..i])) + (if f(xs[i]).Some? then [f(xs[i]).value] else [])
  {
    MapAppend(f, xs[..i], [xs[i]]);
    assert xs[..i] + [xs[i]] == xs[..i + 1];
    var os := MapSeq(f, xs[..i + 1]);
    PresentTake(os, i);
    assert os[..i] == MapSeq(f, xs[..i]);
  }

  /** Tokens yield a faculty member exactly when there are six or seven of
      them and the first is not "Fall", "new" or "parttime". */
  lemma LayoutIff(data: seq<string>)
    ensures Layout(data).Some? <==>
      (|data| == 6 || |data| == 7) && data[0] !in {"Fall", "new", "parttime"}
  {
  }

  /** Extension and user name are the last two tokens, whatever the layout,
      given six or seven tokens. */
  lemma LayoutLastTwo(data: seq<string>)
    requires Layout(data).Some?
    ensures Layout(data).value.extension == data[|data| - 2]
    ensures Layout(data).value.username == data[|data| - 1]
  {
  }

  /** Every character the cleaning leaves is a letter, a digit or a space. */
  lemma CleanedChars(line: string)
    ensures forall c | c in Cleaned(line) :: IsWordOrSpace(c)
  {
    var kept := KeepWordOrSpace(line);
    forall c | c in Cleaned(line) ensures IsWordOrSpace(c) {
      assert c in kept;
      var k :| 0 <= k < |kept| && kept[k] == c;
    }
  }

  /** The tokens of a line hold letters and digits only, and the last one is
      never empty. */
  lemma TokensShape(line: string)
    requires |Tokens(line)| >= 2
    ensures forall i, c | 0 <= i < |Tokens(line)| && c in Tokens(line)[i] :: IsWordOrSpace(c) && c != ' '
    ensures Tokens(line)[|Tokens(line)| - 1] != ""
  {
    var t := Trim(Cleaned(line));
    CleanedChars(line);
    SplitPieces(t, ' ');
    var f := Fields(t, ' ');
    forall i, c | 0 <= i < |Tokens(line)| && c in Tokens(line)[i] ensures IsWordOrSpace(c) && c != ' ' {
      JoinHas(f, ' ', i, c);
      assert c in t;
    }
  }

  /** A character of one piece is a character of the joined text. */
  lemma {:induction false} JoinHas(parts: seq<string>, d: char, i: nat, c: char)
    requires i < |parts| && c in parts[i]
    ensures c in Join(parts, d)
  {
    if |parts| > 1 {
      if i > 0 {
        JoinHas(parts[1..], d, i - 1, c);
        assert Join(parts, d) == parts[0] + [d] + Join(parts[1..], d);
      } else {
        assert Join(parts, d) == parts[0] + [d] + Join(parts[1..], d);
      }
    }
  }

  /** The user name a split text describes is its last token: non-empty
      and without a space. */
  lemma SplitLayoutUser(t: string)
    requires Layout(Split(t, ' ')).Some?
    ensures Layout(Split(t, ' ')).value.extension == Split(t, ' ')[|Split(t, ' ')| - 2]
    ensures Layout(Split(t, ' ')).value.username == Split(t, ' ')[|Split(t, ' ')| - 1]
    ensures Layout(Split(t, ' ')).value.username != "" && ' ' !in Layout(Split(t, ' ')).value.username
  {
    var data := Split(t, ' ');
    LayoutIff(data);
    LayoutLastTwo(data);
    SplitLast(t, ' ');
  }

  lemma {:induction false} PresentAppend<T>(a: seq<Option<T>>, b: seq<Option<T>>)
    ensures Present(a + b) == Present(a) + Present(b)
    decreases |b|
  {
    if b == [] {
      assert a + b == a;
    } else {
      var b' := b[..|b| - 1];
      assert (a + b)[..|a + b| - 1] == a + b';
      assert (a + b)[|a + b| - 1] == b[|b| - 1];
      PresentAppend(a, b');
    }
  }

  lemma {:induction false} PresentSize<T>(os: seq<Option<T>>)
    ensures |Present(os)| <= |os|
  {
    if os != [] {
      PresentSize(os[..|os| - 1]);
    }
  }

  lemma {:induction false} PresentHas<T>(os: seq<Option<T>>, x: T)
    ensures x in Present(os) <==> exists i | 0 <= i < |os| :: os[i] == Some(x)
  {
    if os != [] {
      var init := os[..|os| - 1];
      PresentHas(init, x);
      if x in Present(os) && x !in Present(init) {
        assert os[|os| - 1] == Some(x);
      }
      if i :| 0 <= i < |os| && os[i] == Some(x) {
        if i < |os| - 1 {
          assert init[i] == Some(x);
        }
      }
    }
  }

  /** Reading the text in two parts gives the faculty of the first part
      followed by that of the second: the list keeps the order of the lines. */
  lemma FacultyFromAppend(a: seq<string>, b: seq<string>)
    ensures FacultyFrom(a + b) == FacultyFrom(a) + FacultyFrom(b)
  {
    MapAppend(FacultyOf, a, b);
    PresentAppend(Readings(a), Readings(b));
  }

  /** There are at most as many faculty members as lines, and the faculty
      read are exactly the readings of single lines. */
  lemma FacultyFromLines(lines: seq<string>, f: Faculty)
    ensures |FacultyFrom(lines)| <= |lines|
    ensures f in FacultyFrom(lines) <==> exists i | 0 <= i < |lines| :: FacultyOf(lines[i]) == Some(f)
  {
    var os := Readings(lines);
    PresentSize(os);
    PresentHas(os, f);
  }

  // ---------------------------------------------------------------------------
  // readCourseHTML and writeCourseTable

  /** The course whose section name is in cell 6 + 16k, read exactly as the
      constructor call passes them: section, title, professors and credits,
      then days (cell 11), start (12), end (13) and location (20) go into the
      constructor's Day, Location, Start and End parameters. */
  function CourseAt(cells: seq<string>, k: nat): Course
    requires 16 * k + 20 < |cells|
  {
    var b := 16 * k;
    Course(cells[b + 6], cells[b + 7], cells[b + 8], cells[b + 9],
           cells[b + 11], cells[b + 12], cells[b + 13], cells[b + 20])
  }

  /** The courses readCourseHTML builds from the table cells of the page, in
      document order: the first from cells 6 to 20, and then one every 16
      cells, since after a course the count restarts at 5. */
  function CoursesOf(cells: seq<string>): seq<Course>
    decreases |cells|
  {
    if |cells| < 21 then [] else [CourseAt(cells, 0)] + CoursesOf(cells[16..])
  }

  /** The slots hold what readCourseHTML has read of the course starting at
      16k when count cells of it have been seen. */
  predicate SlotsAt(cells: seq<string>, k: nat, count: int,
                    aSection: Option<string>, title: Option<string>, profs: Option<string>,
                    credits: Option<string>, days: Option<string>, start: Option<string>,
                    end: Option<string>, location: Option<string>)
    requires 0 <= count <= 20 && 16 * k + count <= |cells|
  {
    var b := 16 * k;
    && aSection == (if count >= 7 then Some(cells[b + 6]) else None)
    && title == (if count >= 8 then Some(cells[b + 7]) else None)
    && profs == (if count >= 9 then Some(cells[b + 8]) else None)
    && credits == (if count >= 10 then Some(cells[b + 9]) else None)
    && days == (if count >= 12 then Some(cells[b + 11]) else None)
    && start == (if count >= 13 then Some(cells[b + 12]) else None)
    && end == (if count >= 14 then Some(cells[b + 13]) else None)
    && location == None
  }

  /** Reading one more cell, the count-th of course k: at count 20 the
      course is complete; before, no course is added. */
  lemma {:induction false} CoursesStep(cells: seq<string>, k: nat, count: nat)
    requires count <= 20 && (k == 0 || count >= 5)
    requires 16 * k + count < |cells|
    ensures count == 20 ==>
      CoursesOf(cells[..16 * k + count + 1]) == CoursesOf(cells[..16 * k + count]) + [CourseAt(cells, k)]
    ensures count < 20 ==>
      CoursesOf(cells[..16 * k + count + 1]) == CoursesOf(cells[..16 * k + count])
  {
    var n := 16 * k + count;
    var long, short := cells[..n + 1], cells[..n];
    if k == 0 {
      if count == 20 {
        assert CoursesOf(long) == [CourseAt(long, 0)] + CoursesOf(long[16..]);
        assert CourseAt(long, 0) == CourseAt(cells, 0);
      }
    } else {
      var rest := cells[16..];
      assert long[16..] == rest[..n + 1 - 16];
      assert short[16..] == rest[..n - 16];
      CoursesStep(rest, k - 1, count);
      assert CourseAt(long, 0) == CourseAt(cells, 0) == CourseAt(short, 0);
      if count == 20 {
        CourseAtShift(cells, k);
      }
    }
  }

  /** One cell of readCourseHTML: the value fills the first empty slot the
      count allows, and at count 20 the course is added and the count
      restarts at 5. */
  method ReadCell(cells: seq<string>, i: nat, ghost k: nat, count: int,
                  aSection: Option<string>, title: Option<string>, profs: Option<string>,
                  credits: Option<string>, days: Option<string>, start: Option<string>,
                  end: Option<string>, location: Option<string>)
    returns (added: Option<Course>, count': int,
             aSection': Option<string>, title': Option<string>, profs': Option<string>,
             credits': Option<string>, days': Option<string>, start': Option<string>,
             end': Option<string>, location': Option<string>, ghost k': nat)
    requires 0 <= count <= 20 && i == 16 * k + count && i < |cells|
    requires SlotsAt(cells, k, count, aSection, title, profs, credits, days, start, end, location)
    ensures count == 20 ==> added == Some(CourseAt(cells, k)) && k' == k + 1 && count' == 5
    ensures count < 20 ==> added == None && k' == k && count' == count + 1
    ensures SlotsAt(cells, k', count', aSection', title', profs', credits', days', start', end', location')
  {
    var value := cells[i];
    aSection', title', profs', credits', days', start', end', location' := aSection, title, profs, credits, days, start, end, location;
    added, k', count' := None, k, count;
    if count >= 6 {
      if aSection == None {
        aSection' := Some(value);
      } else if title == None {
        title' := Some(value);
      } else if profs == None {
        profs' := Some(value);
      } else if credits == None {
        credits' := Some(value);
      } else if days == None && count == 11 {
        days' := Some(value);
      } else if start == None && count == 12 {
        start' := Some(value);
      } else if end == None && count == 13 {
        end' := Some(value);
      } else if location == None && count == 20 {
        location' := Some(value);
        added := Some(Course(aSection.value, title.value, profs.value, credits.value,
                             days.value, start.value, end.value, location'.value));
        aSection', title', profs', credits', days', start', end', location' := None, None, None, None, None, None, None, None;
        count' := 4;
        k' := k + 1;
      }
    }
    count' := count' + 1;
  }

  /** readCourseHTML over the text of every td cell of every row of every
      table, in document order: count and the eight slots carry over from
      row to row and from table to table, so the nesting of the loops does
      not matter. */
  method ReadCourseHTML(cells: seq<string>) returns (sectionList: seq<Course>)
    ensures sectionList == CoursesOf(cells)
  {
    sectionList := [];
    var count := 0;
    var aSection: Option<string> := None;
    var title: Option<string> := None;
    var profs: Option<string> := None;
    var credits: Option<string> := None;
    var days: Option<string> := None;
    var start: Option<string> := None;
    var end: Option<string> := None;
    var location: Option<string> := None;
    ghost var k: nat := 0;
    for i := 0 to |cells|
      invariant 0 <= count <= 20 && (k == 0 || count >= 5)
      invariant i == 16 * k + count
      invariant SlotsAt(cells, k, count, aSection, title, profs, credits, days, start, end, location)
      invariant sectionList == CoursesOf(cells[..i])
    {
      CoursesStep(cells, k, count);
      var added;
      added, count, aSection, title, profs, credits, days, start, end, location, k :=
        ReadCell(cells, i, k, count, aSection, title, profs, credits, days, start, end, location);
      if added.Some? {
        sectionList := sectionList + [added.value];
      }
    }
    assert cells[..|cells|] == cells;
  }

  /** The k-th course comes from cells 6 + 16k to 20 + 16k, and a page
      yields one course for every complete group of 16 cells after the first
      five: a course whose location cell is missing is not kept. */
  lemma {:induction false} CoursesOfAt(cells: seq<string>)
    ensures |CoursesOf(cells)| == if |cells| < 21 then 0 else (|cells| - 5) / 16
    ensures forall k | 0 <= k < |CoursesOf(cells)| :: 16 * k + 20 < |cells| && CoursesOf(cells)[k] == CourseAt(cells, k)
    decreases |cells|
  {
    if |cells| >= 21 {
      var rest := cells[16..];
      CoursesOfAt(rest);
      var out := CoursesOf(cells);
      assert out == [CourseAt(cells, 0)] + CoursesOf(rest);
      forall k | 0 < k < |out|
        ensures 16 * k + 20 < |cells| && out[k] == CourseAt(cells, k)
      {
        assert out[k] == CoursesOf(rest)[k - 1];
        CourseAtShift(cells, k);
      }
    }
  }

  /** Dropping the first 16 cells moves every course one place down. */
  lemma CourseAtShift(cells: seq<string>, k: nat)
    requires 0 < k && 16 * (k - 1) + 20 < |cells| - 16
    ensures 16 * k + 20 < |cells| && CourseAt(cells[16..], k - 1) == CourseAt(cells, k)
  {
    var rest := cells[16..];
    var b := 16 * (k - 1);
    assert 16 * k == b + 16;
    assert rest[b + 6] == cells[b + 22] && rest[b + 7] == cells[b + 23];
    assert rest[b + 8] == cells[b + 24] && rest[b + 9] == cells[b + 25];
    assert rest[b + 11] == cells[b + 27] && rest[b + 12] == cells[b + 28];
    assert rest[b + 13] == cells[b + 29] && rest[b + 20] == cells[b + 36];
  }

  /** The columns of the course table after its key, in order. */
  const CourseColumns: seq<string> :=
    ["Section", "Title", "Professor", "Credits", "Days", "StartTime", "EndTime", "Location"]

  /** The values writeCourseTable binds to parameters 2 to 9, one per column. */
  function CourseParameters(c: Course): seq<string>
  {
    [c.name, c.title, c.professor, c.credits, c.day, c.location, c.start, c.end]
  }

  /** writeCourseTable: one row of values per course, in order. */
  method WriteCourseTable(course: seq<Course>) returns (rows: seq<seq<string>>)
    ensures |rows| == |course|
    ensures forall i | 0 <= i < |course| :: |rows[i]| == |CourseColumns| && rows[i] == CourseParameters(course[i])
  {
    rows := [];
    for i := 0 to |course|
      invariant |rows| == i
      invariant forall j | 0 <= j < i :: rows[j] == CourseParameters(course[j])
    {
      var aCourse := course[i];
      rows := rows + [[aCourse.name, aCourse.title, aCourse.professor, aCourse.credits,
                       aCourse.day, aCourse.location, aCourse.start, aCourse.end]];
    }
  }

  /** The reader passes days, start, end and location into the constructor's
      Day, Location, Start and End, and the writer binds Day, Location, Start
      and End to the Days, StartTime, EndTime and Location columns: the two
      shuffles cancel, so every column gets the page's own cell for it. */
  lemma CourseColumnsFromCells(cells: seq<string>, k: nat)
    requires k < |CoursesOf(cells)|
    ensures 16 * k + 20 < |cells|
    ensures CourseParameters(CoursesOf(cells)[k])
      == [cells[16 * k + 6], cells[16 * k + 7], cells[16 * k + 8], cells[16 * k + 9],
          cells[16 * k + 11], cells[16 * k + 12], cells[16 * k + 13], cells[16 * k + 20]]
  {
    CoursesOfAt(cells);
  }

  // ---------------------------------------------------------------------------
  // readSectionFromTxt and readEnrollmentFromTxt

  /** A line whose split on commas has the three fields the readers index. */
  predicate HasThreeFields(line: string)
  {
    |Split(line, ',')| >= 3
  }

  /** The section a three-field line describes: name, title and student. */
  function SectionOf(line: string): Section
    requires HasThreeFields(line)
  {
    var f := Split(line, ','); Section(f[0], f[1], f[2])
  }

  /** The enrollment a three-field line describes: student, section and grade. */
  function EnrollmentOf(line: string): Enrollment
    requires HasThreeFields(line)
  {
    var f := Split(line, ','); Enrollment(f[0], f[1], f[2])
  }

  /** readSectionFromTxt: each line is name, title and student; a line with fewer than three fields throws out of
      the reader, and a file that cannot be opened (None) gives an empty
      list, since its exception is caught. */
  method ReadSectionFromTxt(file: Option<seq<string>>) returns (res: Result<seq<Section>, Thrown>)
    ensures file.None? ==> res == Ok([])
    ensures file.Some? ==> (res.Ok? <==> forall j | 0 <= j < |file.value| :: HasThreeFields(file.value[j]))
    ensures res.Err? ==> res.error == ArrayIndexOutOfBounds
    ensures file.Some? && res.Ok? ==> |res.value| == |file.value| && forall j | 0 <= j < |file.value| ::
      HasThreeFields(file.value[j]) && res.value[j] == SectionOf(file.value[j])
  {
    if file.None? {
      return Ok([]);
    }
    res := SectionLines(file.value);
  }

  /** The Scanner loop of readSectionFromTxt over the lines of the file. */
  method SectionLines(lines: seq<string>) returns (res: Result<seq<Section>, Thrown>)
    ensures res.Ok? <==> forall j | 0 <= j < |lines| :: HasThreeFields(lines[j])
    ensures res.Err? ==> res.error == ArrayIndexOutOfBounds
    ensures res.Ok? ==> |res.value| == |lines| && forall j | 0 <= j < |lines| ::
      HasThreeFields(lines[j]) && res.value[j] == SectionOf(lines[j])
  {
    var sections: seq<Section> := [];
    for i := 0 to |lines|
      invariant |sections| == i
      invariant forall j | 0 <= j < i :: HasThreeFields(lines[j]) && sections[j] == SectionOf(lines[j])
    {
      var lineSplit := Split(lines[i], ',');
      if |lineSplit| < 3 {
        return Err(ArrayIndexOutOfBounds);
      }
      sections := sections + [Section(lineSplit[0], lineSplit[1], lineSplit[2])];
    }
    return Ok(sections);
  }

  /** readEnrollmentFromTxt: each line is student, section and grade; a line with fewer than three fields throws out of
      the reader, and a file that cannot be opened (None) gives an empty
      list, since its exception is caught. */
  method ReadEnrollmentFromTxt(file: Option<seq<string>>) returns (res: Result<seq<Enrollment>, Thrown>)
    ensures file.None? ==> res == Ok([])
    ensures file.Some? ==> (res.Ok? <==> forall j | 0 <= j < |file.value| :: HasThreeFields(file.value[j]))
    ensures res.Err? ==> res.error == ArrayIndexOutOfBounds
    ensures file.Some? && res.Ok? ==> |res.value| == |file.value| && forall j | 0 <= j < |file.value| ::
      HasThreeFields(file.value[j]) && res.value[j] == EnrollmentOf(file.value[j])
  {
    if file.None? {
      return Ok([]);
    }
    res := EnrollmentLines(file.value);
  }

  /** The Scanner loop of readEnrollmentFromTxt over the lines of the file. */
  method EnrollmentLines(lines: seq<string>) returns (res: Result<seq<Enrollment>, Thrown>)
    ensures res.Ok? <==> forall j | 0 <= j < |lines| :: HasThreeFields(lines[j])
    ensures res.Err? ==> res.error == ArrayIndexOutOfBounds
    ensures res.Ok? ==> |res.value| == |lines| && forall j | 0 <= j < |lines| ::
      HasThreeFields(lines[j]) && res.value[j] == EnrollmentOf(lines[j])
  {
    var enrollments: seq<Enrollment> := [];
    for i := 0 to |lines|
      invariant |enrollments| == i
      invariant forall j | 0 <= j < i :: HasThreeFields(lines[j]) && enrollments[j] == EnrollmentOf(lines[j])
    {
      var lineSplit := Split(lines[i], ',');
      if |lineSplit| < 3 {
        return Err(ArrayIndexOutOfBounds);
      }
      enrollments := enrollments + [Enrollment(lineSplit[0], lineSplit[1], lineSplit[2])];
    }
    return Ok(enrollments);
  }

  /** A line with two commas has three fields, the last one possibly empty. */
  lemma FieldsOfTwoCommas(a: string, b: string, c: string)
    requires ',' !in a && ',' !in b && ',' !in c
    ensures Fields(a + [','] + b + [','] + c, ',') == [a, b, c]
  {
    var p := a + [','];
    var bc := b + [','] + c;
    assert Fields(c, ',') == [c];
    FieldsCons(b, ',', c);
    FieldsCons(a, ',', bc);
    AppendAssoc(p, b + [','], c);
    AppendAssoc(p, b, [',']);
  }

  /** Java drops trailing empty fields, so a line whose third field is
      empty ("name,title,") is short and makes the reader throw, while one
      with something after the second comma is read. */
  lemma EmptyThirdField(a: string, b: string, c: string)
    requires ',' !in a && ',' !in b && ',' !in c
    ensures HasThreeFields(a + [','] + b + [','] + c) <==> c != []
  {
    var line := a + [','] + b + [','] + c;
    FieldsOfTwoCommas(a, b, c);
    assert line[|a|] == ',';
    var r := Split(line, ',');
    assert r == DropTrailingEmpty([a, b, c]);
    if c == [] {
      assert |r| < 3;
    } else {
      assert [a, b, c][2] != "";
      assert |r| == 3;
    }
  }
}
