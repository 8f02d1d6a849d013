/**
 * Decimal text for integers, as printf's and sscanf's "%d" write and read it:
 * an optional minus sign followed by the digits, most significant first.
 * Reading skips white space in front of the sign.
 */
module Decimal {
  import opened Wrappers

  predicate IsDigit(c: char) { '0' <= c <= '9' }

  function DigitChar(d: int): (c: char)
    requires 0 <= d < 10
    ensures IsDigit(c)
  {
    (48 + d) as char
  }

  function DigitValue(c: char): (d: int)
    requires IsDigit(c)
    ensures 0 <= d < 10
  {
    c as int - 48
  }

  predicate AllDigits(s: string) { forall i :: 0 <= i < |s| ==> IsDigit(s[i]) }

  /** The digits of n, with no leading zero. */
  function NatToString(n: nat): (s: string)
    ensures |s| >= 1 && AllDigits(s)
    ensures |s| > 1 ==> s[0] != '0'
  {
    if n < 10 then [DigitChar(n)]
    else NatToString(n / 10) + [DigitChar(n % 10)]
  }

  function IntToString(i: int): (s: string)
    ensures |s| >= 1
  {
    if i < 0 then "-" + NatToString(-i) else NatToString(i)
  }

  /** The number a run of digits denotes. */
  function DigitsValue(s: string): nat
    requires AllDigits(s)
  {
    if s == [] then 0
    else DigitsValue(s[..|s| - 1]) * 10 + DigitValue(s[|s| - 1])
  }

  lemma {:induction false} DigitsValueOfNatToString(n: nat)
    ensures DigitsValue(NatToString(n)) == n
  {
    var s := NatToString(n);
    if n >= 10 {
      DigitsValueOfNatToString(n / 10);
      assert s[..|s| - 1] == NatToString(n / 10);
    }
  }

  /** The length of the longest run of digits at the front of s. */
  function LeadingDigits(s: string): (k: nat)
    ensures k <= |s| && AllDigits(s[..k])
    ensures k < |s| ==> !IsDigit(s[k])
  {
    if s == [] || !IsDigit(s[0]) then 0
    else
      var k := LeadingDigits(s[1..]);
      assert s[..k + 1] == [s[0]] + s[1..][..k];
      1 + k
  }

  lemma {:induction false} LeadingDigitsOfRun(ds: string, rest: string)
    requires AllDigits(ds)
    requires rest == [] || !IsDigit(rest[0])
    ensures LeadingDigits(ds + rest) == |ds|
  {
    if ds != [] {
      assert (ds + rest)[1..] == ds[1..] + rest;
      LeadingDigitsOfRun(ds[1..], rest);
    } else {
      assert ds + rest == rest;
    }
  }

  /** The white-space characters C's isspace accepts in the "C" locale. */
  predicate IsSpace(c: char) { c == ' ' || c == '\t' || c == '\n' || c as int == 11 || c as int == 12 || c == '\r' }

  /** The length of the run of white space at the front of s. */
  function LeadingSpaces(s: string): (w: nat)
    ensures w <= |s|
    ensures forall i :: 0 <= i < w ==> IsSpace(s[i])
    ensures w < |s| ==> !IsSpace(s[w])
  {
    if s == [] || !IsSpace(s[0]) then 0
    else 1 + LeadingSpaces(s[1..])
  }

  /**
   * Scanning a "%d" at the front of s: white space is skipped, then an
   * optional sign and the digits are read. The result is the value and the
   * number of characters consumed, white space included, or None when no
   * digit follows the optional sign.
   */
  function ScanInt(s: string): (r: Option<(int, nat)>)
    ensures r.Some? ==> 0 < r.value.1 <= |s|
  {
    var w := LeadingSpaces(s);
    var t := s[w..];
    var signed := |t| > 0 && (t[0] == '-' || t[0] == '+');
    var body := if signed then t[1..] else t;
    var k := LeadingDigits(body);
    if k == 0 then None
    else
      var v: int := DigitsValue(body[..k]);
      Some((if signed && t[0] == '-' then -v else v, w + (if signed then k + 1 else k)))
  }

  /** White space in front of a number is skipped and counted as consumed. */
  lemma {:induction false} ScanIntSkipsSpace(ws: string, t: string)
    requires forall i :: 0 <= i < |ws| ==> IsSpace(ws[i])
    requires t != [] && !IsSpace(t[0])
    ensures ScanInt(ws + t) ==
      match ScanInt(t)
      case None => None
      case Some((v, k)) => Some((v, |ws| + k))
  {
    LeadingSpacesOfRun(ws, t);
    assert (ws + t)[|ws|..] == t;
  }

  lemma {:induction false} LeadingSpacesOfRun(ws: string, t: string)
    requires forall i :: 0 <= i < |ws| ==> IsSpace(ws[i])
    requires t != [] && !IsSpace(t[0])
    ensures LeadingSpaces(ws + t) == |ws|
  {
    if ws == [] {
      assert ws + t == t;
    } else {
      assert (ws + t)[1..] == ws[1..] + t;
      LeadingSpacesOfRun(ws[1..], t);
    }
  }

  /** Writing an integer and scanning it back, with a non-digit after it, gives the integer and its length. */
  lemma ScanIntToString(i: int, rest: string)
    requires rest == [] || !IsDigit(rest[0])
    ensures ScanInt(IntToString(i) + rest) == Some((i, |IntToString(i)|))
  {
    var n: nat := if i < 0 then -i else i;
    var ds := NatToString(n);
    LeadingDigitsOfRun(ds, rest);
    DigitsValueOfNatToString(n);
    assert (ds + rest)[..|ds|] == ds;
    assert !IsSpace(IntToString(i)[0]);
    assert LeadingSpaces(IntToString(i) + rest) == 0;
    if i < 0 {
      assert IntToString(i) + rest == "-" + (ds + rest);
      assert ("-" + (ds + rest))[1..] == ds + rest;
    } else {
      assert ds[0] != '-' && ds[0] != '+';
    }
  }

  /** Distinct integers are written differently. */
  lemma IntToStringInjective(i: int, j: int)
    requires IntToString(i) == IntToString(j)
    ensures i == j
  {
    ScanIntToString(i, []);
    ScanIntToString(j, []);
    assert IntToString(i) + [] == IntToString(i);
    assert IntToString(j) + [] == IntToString(j);
  }

  /**
   * Scanning "%d-%d" at the front of s: two integers separated by a dash,
   * or None when either number or the dash is missing. White space is
   * skipped in front of each number, but not in front of the dash. Whatever
   * follows the second number is ignored.
   */
  function ScanPair(s: string): (r: Option<(int, int)>)
  {
    match ScanInt(s)
    case None => None
    case Some((a, k)) =>
      if k < |s| && s[k] == '-' then
        match ScanInt(s[k + 1..])
        case None => None
        case Some((b, _)) => Some((a, b))
      else None
  }

  /** Two integers written with a dash between them scan back to themselves. */
  lemma ScanPairOfWritten(a: int, b: int, rest: string)
    requires rest == [] || !IsDigit(rest[0])
    ensures ScanPair(IntToString(a) + "-" + IntToString(b) + rest) == Some((a, b))
  {
    var ta := IntToString(a);
    var tb := IntToString(b);
    var s := ta + (['-'] + (tb + rest));
    Separated(ta, '-', tb + rest);
    assert s == IntToString(a) + "-" + IntToString(b) + rest;
    assert ScanInt(s) == Some((a, |ta|)) by {
      ScanIntToString(a, ['-'] + (tb + rest));
    }
    assert ScanInt(s[|ta| + 1..]) == Some((b, |tb|)) by {
      ScanIntToString(b, rest);
    }
    ScanPairAt(s, a, |ta|, b);
  }

  /** Text joined around a separator splits back at it. */
  lemma Separated(x: string, c: char, y: string)
    ensures (x + ([c] + y))[|x|] == c && (x + ([c] + y))[|x| + 1..] == y
    ensures x + ([c] + y) == x + [c] + y
  {
  }

  /** A number, a dash right after it and a second number scan as a pair. */
  lemma ScanPairAt(s: string, a: int, k: nat, b: int)
    requires ScanInt(s) == Some((a, k)) && k < |s| && s[k] == '-'
    requires ScanInt(s[k + 1..]).Some? && ScanInt(s[k + 1..]).value.0 == b
    ensures ScanPair(s) == Some((a, b))
  {
  }

  /** Text without a dash right after its first number does not scan as a pair. */
  lemma ScanPairNeedsDash(s: string)
    requires ScanInt(s).Some?
    requires ScanInt(s).value.1 == |s| || s[ScanInt(s).value.1] != '-'
    ensures ScanPair(s).None?
  {
  }

  /** White space before either number does not stop the pair from scanning. */
  lemma ScanPairSpaced()
    ensures ScanPair("0- 3") == Some((0, 3))
    ensures ScanPair(" 0- 3") == Some((0, 3))
  {
    var three := ScanSpacedThree();
    ScanIntToString(0, "- 3");
    assert IntToString(0) + "- 3" == "0- 3";
    assert "0- 3"[2..] == three;
    ScanPairAt("0- 3", 0, 1, 3);
    ScanIntSkipsSpace(" ", "0- 3");
    assert " " + "0- 3" == " 0- 3";
    assert " 0- 3"[3..] == three;
    ScanPairAt(" 0- 3", 0, 2, 3);
  }

  lemma ScanSpacedThree() returns (t: string)
    ensures t == " 3" && ScanInt(t) == Some((3, 2))
  {
    t := " 3";
    ScanIntToString(3, []);
    assert IntToString(3) + [] == "3";
    ScanIntSkipsSpace(" ", "3");
    assert " " + "3" == t;
  }

  /** White space before the dash is not skipped, so the pair does not scan. */
  lemma ScanPairSpaceBeforeDash()
    ensures ScanPair("0 -3").None?
  {
    ScanIntToString(0, " -3");
    assert IntToString(0) + " -3" == "0 -3";
    ScanPairNeedsDash("0 -3");
  }
}
