/**
 * `fmtBytes`: a byte count rendered as "<value> <unit>" with the unit one of
 * B, KB, MB, GB.
 *
 * The count is a natural number and the scaled value an exact real. For a
 * count below 2^53 the double `bytes / 1024^i` is exact, so rounding that
 * real the way `toFixed` does gives the same text as the page.
 */
module SizeFormat {
  import opened Text

  const Units: seq<string> := ["B", "KB", "MB", "GB"]

  function Pow1024(i: nat): (p: nat)
    ensures p >= 1
  {
    if i == 0 then 1 else 1024 * Pow1024(i - 1)
  }

  // ------------------------------------------------------- unit choice

  /** Index into Units of the unit `fmtBytes` picks for `bytes`. */
  function UnitIndex(bytes: nat): (i: nat)
    ensures i < |Units|
  {
    if bytes < 1024 then 0
    else if bytes < 1048576 then 1
    else if bytes < 1073741824 then 2
    else 3
  }

  /** The value shown in front of the unit. */
  function Scaled(bytes: nat): (v: real)
    ensures 0.0 <= v <= bytes as real
  {
    match UnitIndex(bytes)
    case 0 => bytes as real
    case 1 => bytes as real / 1024.0
    case 2 => bytes as real / 1048576.0
    case _ => bytes as real / 1073741824.0
  }

  /** The value shown is the count divided by the size of the unit. */
  lemma ScaledIsQuotient(bytes: nat)
    ensures Scaled(bytes) == bytes as real / Pow1024(UnitIndex(bytes)) as real
  {
    assert Pow1024(1) == 1024 && Pow1024(2) == 1048576 && Pow1024(3) == 1073741824;
  }

  /** One decimal for a value below 10 in KB, MB or GB; none otherwise. */
  function Decimals(bytes: nat): (d: nat)
    ensures d <= 1
  {
    if UnitIndex(bytes) > 0 && Scaled(bytes) < 10.0 then 1 else 0
  }

  /** The unit is the smallest one in which the count is below 1024 units,
      GB when there is none. */
  lemma UnitIndexIsLeast(bytes: nat)
    ensures var i := UnitIndex(bytes);
      (i == |Units| - 1 || bytes < Pow1024(i + 1)) &&
      forall j :: 1 <= j <= i ==> Pow1024(j) <= bytes
  {
    assert Pow1024(1) == 1024 && Pow1024(2) == 1048576 && Pow1024(3) == 1073741824;
  }

  /** ... and it is the only index with that property. */
  lemma UnitIndexUnique(bytes: nat, i: nat)
    requires i < |Units|
    requires i == 0 || Pow1024(i) <= bytes
    requires i == |Units| - 1 || bytes < Pow1024(i + 1)
    ensures UnitIndex(bytes) == i
  {
    assert Pow1024(1) == 1024 && Pow1024(2) == 1048576 && Pow1024(3) == 1073741824;
  }

  /** In the unit chosen, the value is below 1024 unless the unit is GB, and
      at least 1 unless the unit is B. */
  lemma ScaledRange(bytes: nat)
    ensures UnitIndex(bytes) < |Units| - 1 ==> Scaled(bytes) < 1024.0
    ensures UnitIndex(bytes) > 0 ==> Scaled(bytes) >= 1.0
  {
    var i := UnitIndex(bytes);
    var p := Pow1024(i);
    ScaledIsQuotient(bytes);
    UnitIndexIsLeast(bytes);
    if i < |Units| - 1 {
      assert Pow1024(i + 1) == 1024 * p;
      DivBelow(bytes, p);
    }
    if i > 0 {
      DivAtLeastOne(bytes, p);
    }
  }

  lemma DivBelow(x: nat, p: nat)
    requires p > 0 && x < 1024 * p
    ensures x as real / p as real < 1024.0
  {
    var q := x as real / p as real;
    assert q * p as real == x as real;
    if q >= 1024.0 {
      MulMonotone(q, 1024.0, p as real);
    }
  }

  lemma MulMonotone(a: real, b: real, c: real)
    requires a >= b && c > 0.0
    ensures a * c >= b * c
  {
  }

  lemma DivAtLeastOne(x: nat, p: nat)
    requires p > 0 && p <= x
    ensures x as real / p as real >= 1.0
  {
  }

  // --------------------------------------------------------- toFixed

  /** The integer `n` for which `n / 10^d` is nearest to `v`, the larger one
      on a tie, as `Number.prototype.toFixed(d)` chooses it; for the digit
      counts `fmtBytes` asks for, 0 and 1. */
  function RoundedUnits(v: real, d: nat): (n: nat)
    requires v >= 0.0 && d <= 1
    ensures var x := if d == 0 then v else 10.0 * v; n as real - 0.5 <= x < n as real + 0.5
  {
    if d == 0 then (v + 0.5).Floor else (10.0 * v + 0.5).Floor
  }

  /** `v.toFixed(d)` for a non-negative `v` below 10^21 and `d` of 0 or 1:
      the numeral of `v` rounded to `d` decimals, at least `d + 1` digits
      long, with the point before the last `d`. */
  function ToFixed(v: real, d: nat): (t: string)
    requires v >= 0.0 && d <= 1
    ensures IsNumeral(PadLeft(NatToString(RoundedUnits(v, d)), d + 1), RoundedUnits(v, d))
    ensures IsFixedNotation(t, d, PadLeft(NatToString(RoundedUnits(v, d)), d + 1))
  {
    FixedTextShape(RoundedUnits(v, d), d);
    FixedText(RoundedUnits(v, d), d)
  }

  /** `n / 10^d` written with exactly `d` fraction digits. */
  function FixedText(n: nat, d: nat): string {
    InsertPoint(PadLeft(NatToString(n), d + 1), d)
  }

  /** Leading zeros up to `width` digits, as `toFixed` adds before the point. */
  function PadLeft(m: string, width: nat): (r: string)
    ensures |r| >= width
  {
    if |m| < width then Zeros(width - |m|) + m else m
  }

  /** A point before the last `d` characters; none when `d` is 0. */
  function InsertPoint(s: string, d: nat): string
    requires |s| > d
  {
    if d == 0 then s else s[..|s| - d] + "." + s[|s| - d..]
  }

  /** `t` is `digits` written with `d` of them after a point: the digits
      themselves when `d` is 0, and otherwise at least one digit, a point and
      exactly `d` digits, which read without the point are `digits`. */
  predicate IsFixedNotation(t: string, d: nat, digits: string) {
    if d == 0 then t == digits
    else |t| >= d + 2 && t[|t| - d - 1] == '.' && t[..|t| - d - 1] + t[|t| - d..] == digits
  }

  /** `s` is a non-empty string of decimal digits whose value is `n`. */
  predicate IsNumeral(s: string, n: nat) {
    s != [] && AllDigits(s) && DigitsValue(s) == n
  }

  /** FixedText writes the digits of `n`, padded with zeros to at least
      `d + 1` of them, with a point before the last `d`: the text denotes
      `n / 10^d`. */
  lemma FixedTextShape(n: nat, d: nat)
    ensures IsNumeral(PadLeft(NatToString(n), d + 1), n)
    ensures IsFixedNotation(FixedText(n, d), d, PadLeft(NatToString(n), d + 1))
  {
    NatToStringCanonical(n);
    PadLeftValue(NatToString(n), d + 1);
    InsertPointShape(PadLeft(NatToString(n), d + 1), d);
  }

  lemma PadLeftValue(m: string, width: nat)
    requires AllDigits(m)
    ensures AllDigits(PadLeft(m, width)) && DigitsValue(PadLeft(m, width)) == DigitsValue(m)
  {
    if |m| < width { LeadingZerosValue(width - |m|, m); }
  }

  /** Taking the inserted point out again gives the string back. */
  lemma InsertPointShape(s: string, d: nat)
    requires |s| > d
    ensures IsFixedNotation(InsertPoint(s, d), d, s)
  {
    if d > 0 {
      var k := |s| - d;
      var t := s[..k] + "." + s[k..];
      assert t[..k] == s[..k];
      assert t[k + 1..] == s[k..];
      assert s[..k] + s[k..] == s;
    }
  }

  // ------------------------------------------------------- fmtBytes

  /** What `fmtBytes(bytes)` returns for a finite, non-negative integer. */
  function FormatBytes(bytes: nat): (s: string)
    ensures IsSizeText(s, Units[UnitIndex(bytes)])
    ensures '.' in s <==> UnitIndex(bytes) > 0 && Scaled(bytes) < 10.0
  {
    SizeTextFacts(Scaled(bytes), Decimals(bytes), UnitIndex(bytes));
    ToFixed(Scaled(bytes), Decimals(bytes)) + " " + Units[UnitIndex(bytes)]
  }

  /** A `toFixed` text, a space and a unit name form a size text, which holds
      a point exactly when one fraction digit was asked for. */
  lemma SizeTextFacts(v: real, d: nat, i: nat)
    requires v >= 0.0 && d <= 1 && i < |Units|
    ensures IsSizeText(ToFixed(v, d) + " " + Units[i], Units[i])
    ensures '.' in ToFixed(v, d) + " " + Units[i] <==> d == 1
  {
    PointIffDecimal(v, d);
    PointBeforeUnit(ToFixed(v, d), i);
    var t, u := ToFixed(v, d), Units[i];
    assert (t + " " + u)[|t| + 1..] == u;
  }

  /** No unit name holds a point, so a point in the text is in the number. */
  lemma PointBeforeUnit(t: string, i: nat)
    requires i < |Units|
    ensures '.' in t + " " + Units[i] <==> '.' in t
  {
    var u := Units[i];
    assert forall k :: 0 <= k < |u| ==> u[k] != '.';
    var s := t + " " + u;
    if '.' in s {
      var k :| 0 <= k < |s| && s[k] == '.';
      assert k < |t| && t[k] == '.';
    }
    if '.' in t {
      var k :| 0 <= k < |t| && t[k] == '.';
      assert s[k] == '.';
    }
  }

  /** `toFixed(d)` writes a point exactly when `d` is 1. */
  lemma PointIffDecimal(v: real, d: nat)
    requires v >= 0.0 && d <= 1
    ensures '.' in ToFixed(v, d) <==> d == 1
  {
    var t := ToFixed(v, d);
    var digits := PadLeft(NatToString(RoundedUnits(v, d)), d + 1);
    if d == 0 {
      assert t == digits && AllDigits(digits);
      assert forall i :: 0 <= i < |t| ==> t[i] != '.';
    } else {
      assert t[|t| - 2] == '.';
    }
  }

  /** `s` is some non-empty text, a space and the unit name `u`. */
  predicate IsSizeText(s: string, u: string) {
    |s| >= |u| + 2 && s[|s| - |u|..] == u && s[|s| - |u| - 1] == ' '
  }

  /** The loop of `fmtBytes`: divide by 1024 while the value is at least 1024
      and a larger unit remains, then pick the number of decimals. */
  method FmtBytes(bytes: nat) returns (s: string)
    ensures s == FormatBytes(bytes)
  {
    var i: nat := 0;
    var v: real := bytes as real;
    while v >= 1024.0 && i < |Units| - 1
      invariant i < |Units|
      invariant v == bytes as real / Pow1024(i) as real
      invariant i == 0 || Pow1024(i) <= bytes
    {
      DivideOnce(bytes as real, Pow1024(i) as real);
      v := v / 1024.0;
      i := i + 1;
    }
    if i < |Units| - 1 {
      BelowNextUnit(bytes as real, Pow1024(i) as real);
    }
    UnitIndexUnique(bytes, i);
    ScaledIsQuotient(bytes);
    var digits := if v < 10.0 && i > 0 then 1 else 0;
    s := ToFixed(v, digits) + " " + Units[i];
  }

  lemma DivideOnce(x: real, p: real)
    requires p > 0.0 && x / p >= 1024.0
    ensures (x / p) / 1024.0 == x / (1024.0 * p)
    ensures 1024.0 * p <= x
  {
  }

  lemma BelowNextUnit(x: real, p: real)
    requires p > 0.0 && x / p < 1024.0
    ensures x < 1024.0 * p
  {
  }

  /** Nothing is "0 B". */
  lemma FormatZero()
    ensures FormatBytes(0) == "0 B"
  {
    assert ToFixed(0.0, 0) == "0";
  }

  /** A KB value below 10 gets one decimal. */
  lemma FormatKilobytes()
    ensures FormatBytes(1536) == "1.5 KB"
  {
    assert UnitIndex(1536) == 1;
    assert Scaled(1536) == 1.5;
    assert Decimals(1536) == 1;
    assert RoundedUnits(1.5, 1) == 15;
    assert NatToString(15) == "15";
    assert PadLeft("15", 2) == "15";
    assert ToFixed(1.5, 1) == "1.5";
  }

  /** Exactly one GB also gets one decimal, because 1 is below 10. */
  lemma FormatGigabyte()
    ensures FormatBytes(1073741824) == "1.0 GB"
  {
    assert Scaled(1073741824) == 1.0;
    assert RoundedUnits(1.0, 1) == 10;
    assert NatToString(10) == "10";
    assert InsertPoint("10", 1) == "1.0";
  }

}
