/** The java.lang.String operations the parsers rely on, with Java's own edge
    cases: trim() strips every char up to U+0020, split() keeps leading empty
    pieces but drops trailing ones, and returns the whole string when the
    delimiter never occurs. */
module JavaText {
  import opened Wrappers
  import Decimal

  /** The unchecked exceptions the parsers let escape. */
  datatype Thrown =
    | ArrayIndexOutOfBounds   // indexing past the end of a split() result
    | NumberFormat(text: string) // Integer.parseInt on a text that is not a 32-bit integer
    | NullPointer               // a method called on a field a document does not have

  /** Every character of s is one that String.trim() strips. */
  predicate IsBlank(s: string) { forall k | 0 <= k < |s| :: s[k] <= ' ' }

  function TrimStart(s: string): (r: string)
    ensures |r| <= |s| && r == s[|s| - |r|..]
    ensures IsBlank(s[..|s| - |r|])
    ensures r == [] || r[0] > ' '
  {
    if s == [] || s[0] > ' ' then s else TrimStart(s[1..])
  }

  function TrimEnd(s: string): (r: string)
    ensures |r| <= |s| && r == s[..|r|]
    ensures IsBlank(s[|r|..])
    ensures r == [] || r[|r| - 1] > ' '
  {
    if s == [] || s[|s| - 1] > ' ' then s else TrimEnd(s[..|s| - 1])
  }

  /** String.trim(): s without its leading and trailing characters <= U+0020. */
  function Trim(s: string): (r: string)
    ensures r == [] <==> IsBlank(s)
    ensures r == [] || (r[0] > ' ' && r[|r| - 1] > ' ')
  {
    var t := TrimStart(s);
    var r := TrimEnd(t);
    assert t == [] || t[0] == s[|s| - |t|];
    assert r == [] ==> IsBlank(s) by {
      if r == [] {
        assert s[..|s| - |t|] == s;
      }
    }
    r
  }

  /** Trimming a string whose end characters are not blank changes nothing. */
  lemma TrimKeeps(s: string)
    requires s == [] || (s[0] > ' ' && s[|s| - 1] > ' ')
    ensures Trim(s) == s
  {
  }

  /** Index of the first occurrence of c in s. */
  function FirstIndex(s: string, c: char): (k: nat)
    requires c in s
    ensures k < |s| && s[k] == c && c !in s[..k]
  {
    if s[0] == c then 0
    else
      var k := 1 + FirstIndex(s[1..], c);
      assert s[..k] == [s[0]] + s[1..][..k - 1];
      k
  }

  /** Glue pieces together with d between consecutive ones. */
  function Join(parts: seq<string>, d: char): string
  {
    if parts == [] then ""
    else if |parts| == 1 then parts[0]
    else parts[0] + [d] + Join(parts[1..], d)
  }

  lemma AppendAssoc<T>(x: seq<T>, y: seq<T>, z: seq<T>)
    ensures x + (y + z) == x + y + z
  {
  }

  /** The pieces of s between occurrences of d, empty ones included: this is
      Python's str.split(d), and String.split(d) before Java drops trailing
      empty pieces. */
  function Fields(s: string, d: char): (r: seq<string>)
    ensures |r| >= 1
    ensures forall i | 0 <= i < |r| :: d !in r[i]
    ensures Join(r, d) == s
    decreases |s|
  {
    if d !in s then [s]
    else
      var k := FirstIndex(s, d);
      var rest := Fields(s[k + 1..], d);
      assert ([s[..k]] + rest)[1..] == rest;
      assert s == s[..k] + [d] + s[k + 1..];
      [s[..k]] + rest
  }

  /** A string that starts with a d-free piece and then d splits there. */
  lemma FieldsCons(a: string, d: char, b: string)
    requires d !in a
    ensures Fields(a + [d] + b, d) == [a] + Fields(b, d)
  {
    var s := a + [d] + b;
    assert s[|a|] == d;
    var k := FirstIndex(s, d);
    assert forall j | 0 <= j < |a| :: s[j] == a[j];
    assert forall j | 0 <= j < k :: s[j] == s[..k][j];
    assert s[..k] == a && s[k + 1..] == b;
  }

  /** Splitting what Join glued back gives the pieces, when no piece holds d. */
  lemma {:induction false} FieldsOfJoin(parts: seq<string>, d: char)
    requires parts != []
    requires forall i | 0 <= i < |parts| :: d !in parts[i]
    ensures Fields(Join(parts, d), d) == parts
  {
    if |parts| > 1 {
      FieldsOfJoin(parts[1..], d);
      FieldsCons(parts[0], d, Join(parts[1..], d));
    }
  }

  /** xs without its trailing empty strings. */
  function DropTrailingEmpty(xs: seq<string>): (r: seq<string>)
    ensures |r| <= |xs| && r == xs[..|r|]
    ensures forall k | |r| <= k < |xs| :: xs[k] == ""
    ensures r == [] || r[|r| - 1] != ""
    ensures (forall k | 0 <= k < |xs| :: xs[k] == "") ==> r == []
  {
    if xs == [] || xs[|xs| - 1] != "" then xs else DropTrailingEmpty(xs[..|xs| - 1])
  }

  /** String.split(d) for a one-character pattern with no regex meaning (and
      for any regex that matches exactly one occurrence of d). */
  function Split(s: string, d: char): seq<string>
  {
    if d !in s then [s] else DropTrailingEmpty(Fields(s, d))
  }

  /** The pieces of split(d) are the pieces of s between delimiters, in order,
      none holding d; only empty pieces at the end are lost. */
  lemma SplitPieces(s: string, d: char)
    ensures Split(s, d) == Fields(s, d)[..|Split(s, d)|]
    ensures forall k | |Split(s, d)| <= k < |Fields(s, d)| :: Fields(s, d)[k] == ""
    ensures forall i | 0 <= i < |Split(s, d)| :: d !in Split(s, d)[i]
  {
  }

  /** split(d) gives an empty array exactly when s is non-empty and made of d alone. */
  lemma SplitEmptyIff(s: string, d: char)
    ensures Split(s, d) == [] <==> (s != [] && forall k | 0 <= k < |s| :: s[k] == d)
  {
    var f := Fields(s, d);
    if Split(s, d) == [] {
      assert d in s;
      forall k | 0 <= k < |f| ensures f[k] == "" { }
      AllEmptyJoin(f, d);
    } else if s != [] && forall k | 0 <= k < |s| :: s[k] == d {
      assert s[0] == d;
      FieldsOfDelimiters(s, d);
    }
  }

  /** A string made of delimiters alone splits into empty pieces only. */
  lemma {:induction false} FieldsOfDelimiters(s: string, d: char)
    requires forall k | 0 <= k < |s| :: s[k] == d
    ensures forall i | 0 <= i < |Fields(s, d)| :: Fields(s, d)[i] == ""
    decreases |s|
  {
    assert s == [] || s[0] == d;
    assert s == [] || d in s;
    if s != [] {
      assert FirstIndex(s, d) == 0;
      FieldsOfDelimiters(s[1..], d);
    }
  }

  lemma {:induction false} AllEmptyJoin(parts: seq<string>, d: char)
    requires forall k | 0 <= k < |parts| :: parts[k] == ""
    ensures forall k | 0 <= k < |Join(parts, d)| :: Join(parts, d)[k] == d
  {
    if |parts| > 1 {
      AllEmptyJoin(parts[1..], d);
    }
  }

  /** When split(d) gives two pieces or more, the last is non-empty and
      holds no d. */
  lemma SplitLast(s: string, d: char)
    requires |Split(s, d)| >= 2
    ensures Split(s, d)[|Split(s, d)| - 1] != "" && d !in Split(s, d)[|Split(s, d)| - 1]
  {
    SplitPieces(s, d);
  }

  /** When split(d) is not empty its first piece is the text before the first d. */
  lemma SplitFirst(s: string, d: char)
    requires Split(s, d) != []
    ensures Split(s, d)[0] == if d in s then s[..FirstIndex(s, d)] else s
  {
  }

  /** Text with every occurrence of p found scanning left to right deleted:
      String.replaceAll(p, "") for a pattern p without regex metacharacters. */
  function RemoveAll(s: string, p: string): (r: string)
    requires p != []
    ensures |r| <= |s|
    ensures forall c | c in r :: c in s
    decreases |s|
  {
    if |s| < |p| then s
    else if s[..|p|] == p then RemoveAll(s[|p|..], p)
    else [s[0]] + RemoveAll(s[1..], p)
  }

  /** p occurs somewhere in s. */
  predicate Occurs(p: string, s: string)
    decreases |s|
  {
    (|p| <= |s| && s[..|p|] == p) || (s != [] && Occurs(p, s[1..]))
  }

  /** A pattern found at position i occurs. */
  lemma {:induction false} OccursAt(p: string, s: string, i: nat)
    requires i + |p| <= |s| && s[i..i + |p|] == p
    ensures Occurs(p, s)
    decreases i
  {
    if i > 0 {
      assert s[1..][i - 1..i - 1 + |p|] == s[i..i + |p|];
      OccursAt(p, s[1..], i - 1);
    }
  }

  /** Removing a pattern that does not occur leaves the text as it was. */
  lemma {:induction false} RemoveAllAbsent(s: string, p: string)
    requires p != [] && !Occurs(p, s)
    ensures RemoveAll(s, p) == s
    decreases |s|
  {
    if |s| >= |p| {
      RemoveAllAbsent(s[1..], p);
      assert s == [s[0]] + s[1..];
    }
  }

  /** The characters the class [a-zA-Z0-9 ] admits. */
  predicate IsWordOrSpace(c: char)
  {
    ('a' <= c <= 'z') || ('A' <= c <= 'Z') || ('0' <= c <= '9') || c == ' '
  }

  /** replaceAll("[^a-zA-Z0-9 ]", ""): keep only ASCII letters, digits and spaces. */
  function KeepWordOrSpace(s: string): (r: string)
    ensures |r| <= |s|
    ensures forall k | 0 <= k < |r| :: IsWordOrSpace(r[k])
    ensures (forall k | 0 <= k < |s| :: IsWordOrSpace(s[k])) ==> r == s
  {
    if s == [] then []
    else (if IsWordOrSpace(s[0]) then [s[0]] else []) + KeepWordOrSpace(s[1..])
  }

  function LowerChar(c: char): char
  {
    if 'A' <= c <= 'Z' then (c as int - 'A' as int + 'a' as int) as char else c
  }

  /** String.toLowerCase() restricted to ASCII letters. */
  function ToLower(s: string): (r: string)
    ensures |r| == |s|
    ensures forall k | 0 <= k < |s| :: r[k] == LowerChar(s[k])
  {
    seq(|s|, k requires 0 <= k < |s| => LowerChar(s[k]))
  }

  /** A lower-cased text has no upper-case ASCII letter left, so lower-casing again changes nothing. */
  lemma ToLowerIdempotent(s: string)
    ensures forall k | 0 <= k < |ToLower(s)| :: !('A' <= ToLower(s)[k] <= 'Z')
    ensures ToLower(ToLower(s)) == ToLower(s)
  {
  }

  /** Integer.parseInt: an optional sign and decimal digits of any script
      denoting a 32-bit value; None stands for the NumberFormatException it
      throws otherwise. Java reads the string in UTF-16 code units, so a
      character beyond U+FFFF, which is two surrogates there, is no digit. */
  function ParseInt(s: string): (r: Option<int>)
    ensures r.Some? <==> && (forall k | 0 <= k < |s| :: s[k] as int < 0x1_0000)
                         && Decimal.SignedDecimal(s).Some?
                         && -0x8000_0000 <= Decimal.SignedDecimal(s).value < 0x8000_0000
    ensures r.Some? ==> Decimal.SignedDecimal(s) == r
  {
    if exists k | 0 <= k < |s| :: s[k] as int >= 0x1_0000 then None
    else
      match Decimal.SignedDecimal(s)
      case Some(v) => if -0x8000_0000 <= v < 0x8000_0000 then Some(v) else None
      case None => None
  }


  /** parseInt reads back the decimal text of every 32-bit integer. */
  lemma ParseIntRoundTrip(n: int)
    requires -0x8000_0000 <= n < 0x8000_0000
    ensures ParseInt(Decimal.IntText(n)) == Some(n)
  {
    Decimal.IntTextRoundTrip(n);
  }
}
