/**
 * Number <-> text conversions the core uses: `n.toString()` for a non-negative
 * integer, `padStart(2, '0')`, and `parseInt(s) || 0` (radix left unspecified,
 * so a `0x`/`0X` prefix selects hexadecimal, as ECMAScript's parseInt does).
 */
module Numbers {
  import opened Wrappers
  import opened Text

  predicate IsDecimalDigit(c: char) {
    '0' <= c <= '9'
  }

  predicate IsDigitOf(c: char, hex: bool) {
    IsDecimalDigit(c) || (hex && (('a' <= c <= 'f') || ('A' <= c <= 'F')))
  }

  predicate AllDigitsOf(ds: string, hex: bool) {
    forall i :: 0 <= i < |ds| ==> IsDigitOf(ds[i], hex)
  }

  function DigitValue(c: char, hex: bool): (d: nat)
    requires IsDigitOf(c, hex)
    ensures d < Radix(hex)
  {
    if IsDecimalDigit(c) then c as int - '0' as int
    else if 'a' <= c <= 'f' then c as int - 'a' as int + 10
    else c as int - 'A' as int + 10
  }

  function Radix(hex: bool): nat {
    if hex then 16 else 10
  }

  /** The integer a string of digits denotes, most significant digit first. */
  function ValueOf(ds: string, hex: bool): nat
    requires AllDigitsOf(ds, hex)
  {
    if ds == [] then 0
    else ValueOf(ds[..|ds| - 1], hex) * Radix(hex) + DigitValue(ds[|ds| - 1], hex)
  }

  function DigitChar(d: nat): (c: char)
    requires d < 10
    ensures IsDecimalDigit(c) && DigitValue(c, false) == d
  {
    ('0' as int + d) as char
  }

  /** `n.toString()`: decimal digits, no leading zero, denoting `n`. */
  function NatToDecimal(n: nat): (r: string)
    ensures |r| >= 1 && AllDigitsOf(r, false)
    ensures ValueOf(r, false) == n
    ensures n < 10 <==> |r| == 1
    ensures n > 0 ==> r[0] != '0'
  {
    if n < 10 then [DigitChar(n)]
    else
      var prefix := NatToDecimal(n / 10);
      var r := prefix + [DigitChar(n % 10)];
      assert r[..|r| - 1] == prefix;
      r
  }

  /** `s.padStart(2, '0')` */
  function PadStart2(s: string): (r: string)
    ensures |r| == if |s| >= 2 then |s| else 2
    ensures r[|r| - |s|..] == s
    ensures forall i :: 0 <= i < |r| - |s| ==> r[i] == '0'
  {
    if |s| >= 2 then s else seq(2 - |s|, _ => '0') + s
  }

  /** Length of the longest prefix of `s` made of digits. */
  function DigitRunLength(s: string, hex: bool): (k: nat)
    ensures k <= |s| && AllDigitsOf(s[..k], hex)
    ensures k < |s| ==> !IsDigitOf(s[k], hex)
  {
    if s == [] || !IsDigitOf(s[0], hex) then 0
    else
      var k := DigitRunLength(s[1..], hex) + 1;
      assert s[..k] == [s[0]] + s[1..][..k - 1];
      k
  }

  /** `parseInt(s)`, with `None` for NaN. */
  function ParseInt(s: string): Option<int> {
    var t := TrimStart(s);
    var negative := t != [] && t[0] == '-';
    var u := if t != [] && (t[0] == '-' || t[0] == '+') then t[1..] else t;
    var hex := |u| >= 2 && u[0] == '0' && (u[1] == 'x' || u[1] == 'X');
    var body := if hex then u[2..] else u;
    var k := DigitRunLength(body, hex);
    if k == 0 then None
    else
      var magnitude: int := ValueOf(body[..k], hex);
      Some(if negative then -magnitude else magnitude)
  }

  /** `parseInt(s) || 0`: NaN (and -0) become 0. */
  function ParseIntOrZero(s: string): int {
    match ParseInt(s)
    case Some(v) => v
    case None => 0
  }

  /** A non-empty string of decimal digits parses to the number it denotes. */
  lemma ParseDecimalDigits(ds: string)
    requires ds != [] && AllDigitsOf(ds, false)
    ensures ParseIntOrZero(ds) == ValueOf(ds, false)
  {
    assert !IsSpace(ds[0]);
    assert TrimStart(ds) == ds;
    assert ds[0] != '-' && ds[0] != '+';
    assert |ds| >= 2 ==> ds[1] != 'x' && ds[1] != 'X';
    assert DigitRunLength(ds, false) == |ds| by {
      DigitRunCoversDigits(ds);
    }
    assert ds[..|ds|] == ds;
  }

  lemma {:induction false} DigitRunCoversDigits(ds: string)
    requires AllDigitsOf(ds, false)
    ensures DigitRunLength(ds, false) == |ds|
  {
    if ds != [] {
      DigitRunCoversDigits(ds[1..]);
    }
  }

  /** Round trip: `parseInt(n.toString()) || 0 == n`. */
  lemma ParseIntOfDecimal(n: nat)
    ensures ParseIntOrZero(NatToDecimal(n)) == n
  {
    ParseDecimalDigits(NatToDecimal(n));
  }

  /** Round trip through zero padding: `parseInt(n.toString().padStart(2, '0')) || 0 == n`. */
  lemma ParseIntOfPadded(n: nat)
    ensures ParseIntOrZero(PadStart2(NatToDecimal(n))) == n
  {
    var s := NatToDecimal(n);
    var p := PadStart2(s);
    if |s| < 2 {
      assert p == ['0'] + s;
      assert p[..1] == ['0'];
      assert ValueOf(p, false) == n;
    }
    ParseDecimalDigits(p);
  }
}
