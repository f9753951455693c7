/** Decimal integer text: the syntax accepted by Python's int() on a str and
    by Java's Integer.parseInt, and the text produced by Python's str() on an
    integer. Both readers take the decimal digits of every script (Unicode
    general category Nd), not only the ASCII ones. */
module Decimal {
  import opened Wrappers

  /** The code point of the zero of the i-th run of ten decimal digits
      (general category Nd) outside ASCII, in Unicode 15.0. Every such digit
      lies in one of these 67 runs, and its value is its distance from the zero. */
  function DigitZero(i: nat): int
    requires i < 67
  {
    match i
    case 0 => 0x660
    case 1 => 0x6f0
    case 2 => 0x7c0
    case 3 => 0x966
    case 4 => 0x9e6
    case 5 => 0xa66
    case 6 => 0xae6
    case 7 => 0xb66
    case 8 => 0xbe6
    case 9 => 0xc66
    case 10 => 0xce6
    case 11 => 0xd66
    case 12 => 0xde6
    case 13 => 0xe50
    case 14 => 0xed0
    case 15 => 0xf20
    case 16 => 0x1040
    case 17 => 0x1090
    case 18 => 0x17e0
    case 19 => 0x1810
    case 20 => 0x1946
    case 21 => 0x19d0
    case 22 => 0x1a80
    case 23 => 0x1a90
    case 24 => 0x1b50
    case 25 => 0x1bb0
    case 26 => 0x1c40
    case 27 => 0x1c50
    case 28 => 0xa620
    case 29 => 0xa8d0
    case 30 => 0xa900
    case 31 => 0xa9d0
    case 32 => 0xa9f0
    case 33 => 0xaa50
    case 34 => 0xabf0
    case 35 => 0xff10
    case 36 => 0x104a0
    case 37 => 0x10d30
    case 38 => 0x11066
    case 39 => 0x110f0
    case 40 => 0x11136
    case 41 => 0x111d0
    case 42 => 0x112f0
    case 43 => 0x11450
    case 44 => 0x114d0
    case 45 => 0x11650
    case 46 => 0x116c0
    case 47 => 0x11730
    case 48 => 0x118e0
    case 49 => 0x11950
    case 50 => 0x11c50
    case 51 => 0x11d50
    case 52 => 0x11da0
    case 53 => 0x11f50
    case 54 => 0x16a60
    case 55 => 0x16ac0
    case 56 => 0x16b50
    case 57 => 0x1d7ce
    case 58 => 0x1d7d8
    case 59 => 0x1d7e2
    case 60 => 0x1d7ec
    case 61 => 0x1d7f6
    case 62 => 0x1e140
    case 63 => 0x1e2f0
    case 64 => 0x1e4f0
    case 65 => 0x1e950
    case _ => 0x1fbf0
  }

  /** The first run, at index from or later, that holds c. */
  function DigitRun(c: char, from: nat): (r: Option<nat>)
    decreases 67 - from
    ensures r.Some? ==> from <= r.value < 67 && DigitZero(r.value) <= c as int < DigitZero(r.value) + 10
    ensures r.None? ==> forall i | from <= i < 67 :: !(DigitZero(i) <= c as int < DigitZero(i) + 10)
  {
    if from >= 67 then None
    else if DigitZero(from) <= c as int < DigitZero(from) + 10 then Some(from)
    else DigitRun(c, from + 1)
  }

  predicate IsAsciiDigit(c: char) { '0' <= c <= '9' }

  /** A decimal digit of any script. */
  predicate IsDigit(c: char) { IsAsciiDigit(c) || (c as int >= 0x660 && DigitRun(c, 0).Some?) }

  predicate AllDigits(s: string) { forall k | 0 <= k < |s| :: IsDigit(s[k]) }

  function DigitValue(c: char): (v: nat)
    requires IsDigit(c)
    ensures v < 10
    ensures IsAsciiDigit(c) ==> v == c as int - '0' as int
  {
    if IsAsciiDigit(c) then c as int - '0' as int else c as int - DigitZero(DigitRun(c, 0).value)
  }

  function DigitChar(v: nat): (c: char)
    requires v < 10
    ensures IsAsciiDigit(c) && DigitValue(c) == v
  {
    ('0' as int + v) as char
  }

  /** The number a string of digits denotes, read most significant digit first. */
  function DigitsValue(s: string): nat
    requires AllDigits(s)
  {
    if s == [] then 0 else DigitsValue(s[..|s| - 1]) * 10 + DigitValue(s[|s| - 1])
  }

  /** The shortest digit string of n (no leading zeros), as str(n) prints it. */
  function NatDigits(n: nat): (s: string)
    ensures s != [] && AllDigits(s)
    ensures forall k | 0 <= k < |s| :: '0' <= s[k] <= '9'
    ensures |s| > 1 ==> s[0] != '0'
  {
    if n < 10 then [DigitChar(n)] else NatDigits(n / 10) + [DigitChar(n % 10)]
  }

  lemma {:induction false} NatDigitsValue(n: nat)
    ensures DigitsValue(NatDigits(n)) == n
  {
    if n >= 10 {
      var s := NatDigits(n);
      assert s[..|s| - 1] == NatDigits(n / 10);
      NatDigitsValue(n / 10);
    }
  }

  /** An optional '+' or '-' followed by one or more digits. */
  function SignedDecimal(s: string): (r: Option<int>)
    ensures r.Some? <==> (s != [] && (if s[0] == '+' || s[0] == '-' then |s| > 1 && AllDigits(s[1..]) else AllDigits(s)))
  {
    if s == [] then None
    else if s[0] == '+' || s[0] == '-' then
      if |s| > 1 && AllDigits(s[1..]) then
        Some(if s[0] == '-' then 0 - DigitsValue(s[1..]) as int else DigitsValue(s[1..]))
      else None
    else if AllDigits(s) then Some(DigitsValue(s))
    else None
  }

  /** Python's str() of an integer. */
  function IntText(n: int): (s: string)
    ensures s != []
    ensures forall k | 0 <= k < |s| :: s[k] == '-' || '0' <= s[k] <= '9'
  {
    if n < 0 then "-" + NatDigits(-n) else NatDigits(n)
  }

  /** Reading back what IntText wrote gives the same integer. */
  lemma IntTextRoundTrip(n: int)
    ensures SignedDecimal(IntText(n)) == Some(n)
  {
    var d := NatDigits(if n < 0 then -n else n);
    NatDigitsValue(if n < 0 then -n else n);
    if n < 0 {
      assert IntText(n) == "-" + d;
      NegativeDigits(d);
    } else {
      assert IntText(n) == d;
      assert IsAsciiDigit(d[0]);
    }
  }

  lemma NegativeDigits(d: string)
    requires d != [] && AllDigits(d)
    ensures SignedDecimal("-" + d) == Some(0 - DigitsValue(d) as int)
  {
    var s := "-" + d;
    assert s[0] == '-' && s[1..] == d;
  }

  /** The characters str.isspace() holds for in Unicode 15.0; int() ignores
      them at both ends of its argument. */
  predicate IsSpace(c: char)
  {
    var n := c as int;
    || 0x09 <= n <= 0x0D || 0x1C <= n <= 0x20 || n == 0x85 || n == 0xA0 || n == 0x1680
    || 0x2000 <= n <= 0x200A || n == 0x2028 || n == 0x2029 || n == 0x202F || n == 0x205F || n == 0x3000
  }

  predicate AllSpace(w: string) { forall k | 0 <= k < |w| :: IsSpace(w[k]) }

  /** s without its leading whitespace. */
  function TrimStart(s: string): (r: string)
    ensures |r| <= |s| && r == s[|s| - |r|..]
    ensures AllSpace(s[..|s| - |r|])
    ensures r == [] || !IsSpace(r[0])
  {
    if s != [] && IsSpace(s[0]) then
      var r := TrimStart(s[1..]);
      assert s[..|s| - |r|] == [s[0]] + s[1..][..|s| - 1 - |r|];
      r
    else s
  }

  /** s without its trailing whitespace. */
  function TrimEnd(s: string): (r: string)
    ensures |r| <= |s| && r == s[..|r|]
    ensures AllSpace(s[|r|..])
    ensures r == [] || !IsSpace(r[|r| - 1])
  {
    if s != [] && IsSpace(s[|s| - 1]) then
      var r := TrimEnd(s[..|s| - 1]);
      assert s[|r|..] == s[..|s| - 1][|r|..] + [s[|s| - 1]];
      r
    else s
  }

  /** Digits in groups of one or more, separated by single underscores. */
  predicate Grouped(s: string)
    decreases |s|
  {
    s != [] && IsDigit(s[0]) && (|s| == 1 || if s[1] == '_' then Grouped(s[2..]) else Grouped(s[1..]))
  }

  /** s with its underscores removed. */
  function DropUnderscores(s: string): (r: string)
    ensures |r| <= |s|
  {
    if s == [] then [] else (if s[0] == '_' then [] else [s[0]]) + DropUnderscores(s[1..])
  }

  lemma {:induction false} GroupedDigits(s: string)
    requires Grouped(s)
    ensures DropUnderscores(s) != [] && AllDigits(DropUnderscores(s))
  {
    assert s[0] != '_';
    assert DropUnderscores(s) == [s[0]] + DropUnderscores(s[1..]);
    if |s| == 1 {
      assert DropUnderscores(s[1..]) == [];
    } else {
      var rest := if s[1] == '_' then s[2..] else s[1..];
      GroupedDigits(rest);
      if s[1] == '_' {
        assert s[1..][1..] == s[2..];
        assert DropUnderscores(s[1..]) == DropUnderscores(s[2..]);
      }
      AllDigitsCons(s[0], DropUnderscores(rest));
    }
  }

  lemma AllDigitsCons(c: char, d: string)
    requires IsDigit(c) && AllDigits(d)
    ensures AllDigits([c] + d)
  {
    assert forall k | 1 <= k < |d| + 1 :: ([c] + d)[k] == d[k - 1];
  }

  /** Python's int() on a str, in base 10: whitespace at either end, an
      optional sign, then digits in groups separated by single underscores.
      None stands for the ValueError it raises otherwise. */
  function PyInt(s: string): Option<int>
  {
    SignedGroups(Strip(s))
  }

  /** s without whitespace at either end. */
  function Strip(s: string): string
  {
    TrimEnd(TrimStart(s))
  }

  /** An optional sign, then digits in groups separated by single underscores. */
  function SignedGroups(t: string): Option<int>
  {
    if t == [] then None
    else
      var body := if t[0] == '+' || t[0] == '-' then t[1..] else t;
      if !Grouped(body) then None
      else
        GroupedDigits(body);
        var v := DigitsValue(DropUnderscores(body));
        Some(if t[0] == '-' then 0 - v else v)
  }

  /** Without whitespace or underscores, int() reads a sign and digits. */
  lemma PyIntPlain(s: string)
    requires forall k | 0 <= k < |s| :: s[k] != '_' && !IsSpace(s[k])
    ensures PyInt(s) == SignedDecimal(s)
  {
    assert TrimStart(s) == s;
    assert TrimEnd(s) == s;
    SignedGroupsPlain(s);
  }

  lemma SignedGroupsPlain(t: string)
    requires forall k | 0 <= k < |t| :: t[k] != '_'
    ensures SignedGroups(t) == SignedDecimal(t)
  {
    if t != [] {
      var body := if t[0] == '+' || t[0] == '-' then t[1..] else t;
      assert forall k | 0 <= k < |body| :: body[k] != '_' by {
        forall k | 0 <= k < |body| ensures body[k] != '_' {
          assert body[k] == t[k + |t| - |body|];
        }
      }
      NoUnderscores(body);
    }
  }

  lemma {:induction false} NoUnderscores(s: string)
    requires forall k | 0 <= k < |s| :: s[k] != '_'
    ensures DropUnderscores(s) == s
    ensures Grouped(s) <==> s != [] && AllDigits(s)
  {
    if s != [] {
      NoUnderscores(s[1..]);
      assert s == [s[0]] + s[1..];
      assert AllDigits(s) <==> IsDigit(s[0]) && AllDigits(s[1..]) by {
        if IsDigit(s[0]) && AllDigits(s[1..]) {
          forall k | 0 <= k < |s| ensures IsDigit(s[k]) {
            if k > 0 { assert s[k] == s[1..][k - 1]; }
          }
        }
      }
    }
  }

  /** int() reads back every integer str() writes. */
  lemma PyIntRoundTrip(n: int)
    ensures PyInt(IntText(n)) == Some(n)
  {
    PyIntPlain(IntText(n));
    IntTextRoundTrip(n);
  }

  /** Whitespace around the text does not change what int() reads. */
  lemma PyIntSpaces(w1: string, s: string, w2: string)
    requires AllSpace(w1) && AllSpace(w2)
    ensures PyInt(w1 + s + w2) == PyInt(s)
  {
    assert w1 + s + w2 == w1 + (s + w2);
    assert Strip(w1 + s + w2) == Strip(s) by {
      TrimStartSpaces(w1, s + w2);
      TrimStartAppend(s, w2);
      if TrimStart(s) != [] {
        TrimEndSpaces(TrimStart(s), w2);
      }
    }
  }

  lemma {:induction false} TrimStartSpaces(w: string, s: string)
    requires AllSpace(w)
    ensures TrimStart(w + s) == TrimStart(s)
  {
    if w != [] {
      assert (w + s)[0] == w[0] && (w + s)[1..] == w[1..] + s;
      assert IsSpace(w[0]);
      assert TrimStart(w + s) == TrimStart(w[1..] + s);
      assert AllSpace(w[1..]) by {
        forall k | 0 <= k < |w| - 1 ensures IsSpace(w[1..][k]) { assert w[1..][k] == w[k + 1]; }
      }
      TrimStartSpaces(w[1..], s);
    } else {
      assert w + s == s;
    }
  }

  lemma {:induction false} TrimEndSpaces(s: string, w: string)
    requires AllSpace(w)
    ensures TrimEnd(s + w) == TrimEnd(s)
  {
    if w != [] {
      assert (s + w)[..|s + w| - 1] == s + w[..|w| - 1];
      TrimEndSpaces(s, w[..|w| - 1]);
    } else {
      assert s + w == s;
    }
  }

  lemma {:induction false} TrimStartAppend(s: string, w: string)
    requires AllSpace(w)
    ensures TrimStart(s) != [] ==> TrimStart(s + w) == TrimStart(s) + w
    ensures TrimStart(s) == [] ==> TrimStart(s + w) == []
  {
    if s == [] {
      TrimStartSpaces(w, []);
      assert w + [] == w;
    } else if IsSpace(s[0]) {
      assert (s + w)[1..] == s[1..] + w;
      TrimStartAppend(s[1..], w);
    }
  }
}
