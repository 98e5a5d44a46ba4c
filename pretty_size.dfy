/** Human-readable byte counts: bytes below 1024, then kibibytes below 1048576, then
    mebibytes, the latter two with one digit after the point. */
module Sizes {
  import opened Strings

  const KiB: nat := 1024
  const MiB: nat := 1024 * 1024

  /** `(size / unit).toFixed(1)` as a whole number of tenths. The quotient is exact
      (the units are powers of two), and toFixed picks the nearest tenth, the larger
      one on a tie: `t / 10` is within half a tenth of `size / unit`, and a value exactly
      half-way below `t / 10` rounds up to it. */
  function NearestTenths(size: nat, unit: nat): (t: nat)
    requires unit > 0
    ensures 2 * unit * t <= 20 * size + unit < 2 * unit * t + 2 * unit
  {
    var a, b := 20 * size + unit, 2 * unit;
    var q := a / b;
    assert a == b * q + a % b;
    q
  }

  /** The decimal text toFixed(1) produces for a count of tenths. */
  function ToFixed1(t: nat): string {
    NatToString(t / 10) + "." + [DigitChar(t % 10)]
  }

  /** `prettySize(size)`: a number beginning with a digit, then the unit, whose last
      letter is `B`. */
  function PrettySize(size: nat): (r: string)
    ensures |r| >= 2 && IsDigit(r[0]) && r[|r| - 1] == 'B'
  {
    if size < KiB then NatToString(size) + "B"
    else if size < MiB then ToFixed1(NearestTenths(size, KiB)) + "KiB"
    else ToFixed1(NearestTenths(size, MiB)) + "MiB"
  }

  /** A decimal with exactly one digit after the point. */
  predicate IsOneDecimal(s: string) {
    |s| >= 3 && AllDigits(s[..|s| - 2]) && s[|s| - 2] == '.' && IsDigit(s[|s| - 1])
  }

  /** The value of such a decimal, counted in tenths. */
  function TenthsValue(s: string): nat
    requires IsOneDecimal(s)
  {
    ParseNat(s[..|s| - 2]) * 10 + DigitValue(s[|s| - 1])
  }

  /** ToFixed1 writes a count of tenths as a one-decimal number that reads back as
      that count, with no leading zero before a whole part of more than one digit. */
  lemma ToFixed1Reads(t: nat)
    ensures IsOneDecimal(ToFixed1(t))
    ensures TenthsValue(ToFixed1(t)) == t
    ensures ToFixed1(t)[0] == '0' ==> |ToFixed1(t)| == 3
  {
    var r := ToFixed1(t);
    assert r[..|r| - 2] == NatToString(t / 10);
    ParseNatToString(t / 10);
  }

  /** Below 1024 the count is printed as a whole number of bytes. */
  lemma PrettySizeBytes(size: nat)
    requires size < KiB
    ensures var r := PrettySize(size);
      && |r| >= 2 && r[|r| - 1] == 'B'
      && AllDigits(r[..|r| - 1]) && ParseNat(r[..|r| - 1]) == size
      && '.' !in r
      && (r[0] == '0' ==> r == "0B")
  {
    var r := PrettySize(size);
    assert r[..|r| - 1] == NatToString(size);
    ParseNatToString(size);
  }

  /** From 1024 to 1048575 bytes: kibibytes with one decimal, the nearest tenth of
      size / 1024, ties going up. */
  lemma PrettySizeKibibytes(size: nat)
    requires KiB <= size < MiB
    ensures var r := PrettySize(size);
      && EndsWith(r, "KiB") && IsOneDecimal(r[..|r| - 3]) && r[0] != '0'
      && var t := TenthsValue(r[..|r| - 3]);
      2 * KiB * t <= 20 * size + KiB < 2 * KiB * t + 2 * KiB
  {
    var t := NearestTenths(size, KiB);
    var r := PrettySize(size);
    assert r[..|r| - 3] == ToFixed1(t);
    ToFixed1Reads(t);
    assert t >= 10;
  }

  /** From 1048576 bytes on: mebibytes with one decimal, the nearest tenth of
      size / 1048576, ties going up. */
  lemma PrettySizeMebibytes(size: nat)
    requires MiB <= size
    ensures var r := PrettySize(size);
      && EndsWith(r, "MiB") && IsOneDecimal(r[..|r| - 3]) && r[0] != '0'
      && var t := TenthsValue(r[..|r| - 3]);
      2 * MiB * t <= 20 * size + MiB < 2 * MiB * t + 2 * MiB
  {
    var t := NearestTenths(size, MiB);
    var r := PrettySize(size);
    assert r[..|r| - 3] == ToFixed1(t);
    ToFixed1Reads(t);
    assert t >= 10;
  }

  /** Exactly one unit is printed, chosen on the unrounded byte count. */
  lemma PrettySizeUnit(size: nat)
    ensures var r := PrettySize(size);
      && (EndsWith(r, "MiB") <==> MiB <= size)
      && (EndsWith(r, "KiB") <==> KiB <= size < MiB)
      && (EndsWith(r, "B") && !EndsWith(r, "iB") <==> size < KiB)
  {
    var r := PrettySize(size);
    if size < KiB {
      var digits := NatToString(size);
      assert r[|r| - 2] == digits[|digits| - 1];
    } else {
      var t := NearestTenths(size, if size < MiB then KiB else MiB);
      assert r[|r| - 3..] == if size < MiB then "KiB" else "MiB";
    }
  }

  /** The rank of the unit a printed size ends in. */
  function UnitRank(r: string): nat {
    if EndsWith(r, "MiB") then 2 else if EndsWith(r, "KiB") then 1 else 0
  }

  /** A larger size never gets a smaller unit. */
  lemma UnitMonotone(a: nat, b: nat)
    requires a <= b
    ensures UnitRank(PrettySize(a)) <= UnitRank(PrettySize(b))
  {
    PrettySizeUnit(a);
    PrettySizeUnit(b);
  }

  /** Every character printed is a digit, the point or a letter of a unit; in
      particular no sign and no line break. */
  lemma PrettySizeChars(size: nat)
    ensures forall c | c in PrettySize(size) :: IsDigit(c) || c in ".KMiB"
  {
  }

  /** 1048575 bytes is still counted in kibibytes, even though it rounds to 1024.0. */
  lemma PrettySizeBelowMebibyte()
    ensures PrettySize(1048575) == "1024.0KiB"
  {
    assert NearestTenths(1048575, KiB) == 10240;
    assert NatToString(1024) == "1024" by {
      assert NatToString(1) == "1";
      assert NatToString(10) == "10";
      assert NatToString(102) == "102";
    }
  }
}
