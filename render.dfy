/**
 * The table `print_table` writes for a listing: the working directory, a blank
 * line, a header, one row per entry with its human-readable size, a footer.
 * Colour escape sequences are not part of this model.
 */
module Render {
  import opened Text
  import opened Listing

  const KiB: nat := 1024
  const MiB: nat := 1048576

  const Header := "-name-----------------------size-----------------------"
  const Footer := "--------------------------------------------------------"

  /** Widths the row layout asks `std::setw` for. */
  const NameWidth: nat := 25
  const SizeWidth: nat := 7

  predicate IsDigit(c: char) {
    '0' <= c <= '9'
  }

  predicate AllDigits(s: string) {
    forall k :: 0 <= k < |s| ==> IsDigit(s[k])
  }

  function DigitChar(d: nat): (c: char)
    requires d < 10
    ensures IsDigit(c) && c as int - '0' as int == d
  {
    ('0' as int + d) as char
  }

  function DigitValue(c: char): nat
    requires IsDigit(c)
  {
    c as int - '0' as int
  }

  /** The decimal numeral of `n`, without leading zeros. */
  function Decimal(n: nat): string
    decreases n
  {
    if n < 10 then [DigitChar(n)] else Decimal(n / 10) + [DigitChar(n % 10)]
  }

  /** The numeral is a non-empty string of digits; it starts with `0` only for zero; one digit exactly below ten. */
  lemma {:induction false} DecimalShape(n: nat)
    ensures var r := Decimal(n);
      && r != [] && AllDigits(r)
      && (r[0] == '0' <==> n == 0)
      && (n < 10 <==> |r| == 1)
    decreases n
  {
    if n >= 10 {
      DecimalShape(n / 10);
    }
  }

  /** The number a string of decimal digits denotes. */
  function DecimalValue(s: string): nat
    requires AllDigits(s)
    decreases |s|
  {
    if s == [] then 0 else DecimalValue(s[..|s| - 1]) * 10 + DigitValue(s[|s| - 1])
  }

  /** Round trip: reading back the numeral of `n` gives `n`. */
  lemma {:induction false} DecimalRoundTrip(n: nat)
    ensures AllDigits(Decimal(n)) && DecimalValue(Decimal(n)) == n
    decreases n
  {
    DecimalShape(n);
    if n >= 10 {
      DecimalRoundTrip(n / 10);
      var r := Decimal(n);
      assert r[..|r| - 1] == Decimal(n / 10);
    }
  }

  /** `10` to the power `d`. */
  function Pow10(d: nat): (p: nat)
    ensures d >= 1 ==> p >= 10
  {
    if d == 0 then 1 else 10 * Pow10(d - 1)
  }

  /** The numeral of `n` has at most `d` digits exactly when `n` is below `10` to the `d`. */
  lemma {:induction false} DecimalLength(n: nat, d: nat)
    requires d >= 1
    ensures n < Pow10(d) <==> |Decimal(n)| <= d
    decreases n
  {
    if n < 10 {
      DecimalShape(n);
    } else if d == 1 {
      DecimalShape(n / 10);
    } else {
      DecimalLength(n / 10, d - 1);
      assert n < Pow10(d) <==> n / 10 < Pow10(d - 1);
    }
  }

  /** A count of tenths written with one decimal place, as `std::fixed << std::setprecision(1)` does. */
  function OneDecimal(t: nat): string {
    Decimal(t / 10) + "." + [DigitChar(t % 10)]
  }

  /** The tenths a string of the form `<digits>.<digit>` denotes. */
  function ReadTenths(s: string): Option<nat> {
    if |s| >= 3 && s[|s| - 2] == '.' && IsDigit(s[|s| - 1]) && AllDigits(s[..|s| - 2])
    then Some(DecimalValue(s[..|s| - 2]) * 10 + DigitValue(s[|s| - 1]))
    else None
  }

  lemma OneDecimalRoundTrip(t: nat)
    ensures ReadTenths(OneDecimal(t)) == Some(t)
  {
    var s := OneDecimal(t);
    assert s[..|s| - 2] == Decimal(t / 10);
    DecimalRoundTrip(t / 10);
  }

  /**
   * `bytes / unit` rounded to the nearest tenth, counted in tenths, an exact tie going
   * to the even neighbour. The source divides in double precision, which is exact for a
   * power-of-two unit and sizes below 2^53, and the stream then rounds the exact quotient
   * to nearest, ties to even.
   */
  function Tenths(bytes: nat, unit: nat): nat
    requires unit > 0
  {
    var q := 10 * bytes / unit;
    var r := 10 * bytes % unit;
    if 2 * r < unit then q
    else if 2 * r > unit then q + 1
    else if q % 2 == 0 then q
    else q + 1
  }

  /** The tenths are the nearest to `10 * bytes / unit`: off by at most half a tenth. */
  lemma TenthsNearest(bytes: nat, unit: nat)
    requires unit > 0
    ensures var t := Tenths(bytes, unit);
      20 * bytes - unit <= 2 * t * unit <= 20 * bytes + unit
  {
    var q := 10 * bytes / unit;
    var r := 10 * bytes % unit;
    assert 10 * bytes == q * unit + r;
  }

  /** A quotient exactly halfway between two tenths is rounded to the even one; otherwise to the nearer. */
  lemma TenthsTiesToEven(bytes: nat, unit: nat)
    requires unit > 0
    ensures var t := Tenths(bytes, unit); var r := 10 * bytes % unit;
      && (2 * r == unit ==> t % 2 == 0)
      && (2 * r < unit ==> t * unit <= 10 * bytes)
      && (2 * r > unit ==> t * unit > 10 * bytes)
  {
    var q := 10 * bytes / unit;
    var r := 10 * bytes % unit;
    assert 10 * bytes == q * unit + r;
  }

  /** `human_size`: bytes below 1 KiB as a whole number of bytes, then KB, then MB. */
  function HumanSize(bytes: nat): string {
    if bytes >= MiB then OneDecimal(Tenths(bytes, MiB)) + "MB"
    else if bytes >= KiB then OneDecimal(Tenths(bytes, KiB)) + "KB"
    else Decimal(bytes) + "B"
  }

  /**
   * What a size string says, read back: below 1024 the exact byte count with unit
   * `B`; up to 1 MiB a one-decimal figure within a twentieth of `bytes / 1024`
   * with unit `KB`; above, the same against `bytes / 1048576` with unit `MB`.
   */
  lemma HumanSizeReadsBack(bytes: nat)
    ensures var r := HumanSize(bytes);
      bytes < KiB ==>
        && |r| >= 2 && r[|r| - 1] == 'B' && AllDigits(r[..|r| - 1])
        && DecimalValue(r[..|r| - 1]) == bytes
    ensures var r := HumanSize(bytes);
      KiB <= bytes < MiB ==>
        && |r| >= 5 && r[|r| - 2..] == "KB"
        && ReadTenths(r[..|r| - 2]).Some?
        && var t := ReadTenths(r[..|r| - 2]).value;
           20 * bytes - KiB <= 2 * t * KiB <= 20 * bytes + KiB
    ensures var r := HumanSize(bytes);
      MiB <= bytes ==>
        && |r| >= 5 && r[|r| - 2..] == "MB"
        && ReadTenths(r[..|r| - 2]).Some?
        && var t := ReadTenths(r[..|r| - 2]).value;
           20 * bytes - MiB <= 2 * t * MiB <= 20 * bytes + MiB
  {
    var r := HumanSize(bytes);
    if bytes < KiB {
      assert r[..|r| - 1] == Decimal(bytes);
      DecimalRoundTrip(bytes);
    } else {
      var unit := if bytes >= MiB then MiB else KiB;
      var t := Tenths(bytes, unit);
      TenthsNearest(bytes, unit);
      OneDecimalRoundTrip(t);
      assert r[..|r| - 2] == OneDecimal(t);
    }
  }

  /** The kilobyte figure runs from 1.0 to 1024.0: the unit switches on the exact byte count. */
  lemma KilobyteFigureRange(bytes: nat)
    requires KiB <= bytes < MiB
    ensures 10 <= Tenths(bytes, KiB) <= 10240
  {
  }

  /** Below 1024 bytes the count is shown whole, in bytes. */
  lemma ByteExamples()
    ensures HumanSize(0) == "0B"
    ensures HumanSize(1023) == "1023B"
  {
  }

  /** 1024 bytes is the first size shown in KB. */
  lemma KilobyteExample()
    ensures HumanSize(1024) == "1.0KB"
  {
    assert Tenths(1024, KiB) == 10;
  }

  /** One byte short of 1 MiB is still shown in KB, rounded up to `1024.0`. */
  lemma LargestKilobyteExample()
    ensures HumanSize(1048575) == "1024.0KB"
  {
    assert Tenths(1048575, KiB) == 10240;
    assert Decimal(1024) == "1024";
  }

  /** 1280 bytes is exactly 1.25 KB; the tie goes to the even tenth. */
  lemma TieExample()
    ensures HumanSize(1280) == "1.2KB"
  {
    assert Tenths(1280, KiB) == 12;
  }

  /** 1048576 bytes is the first size shown in MB. */
  lemma MegabyteExample()
    ensures HumanSize(1048576) == "1.0MB"
  {
  }

  /** `std::left << std::setw(w)`: pad on the right with spaces, never cut. */
  function PadRight(s: string, w: nat): (r: string)
    ensures |r| == Max(|s|, w)
  {
    if |s| >= w then s else s + seq(w - |s|, _ => ' ')
  }

  lemma PadRightShape(s: string, w: nat)
    ensures var r := PadRight(s, w);
      && r[..|s|] == s
      && forall k :: |s| <= k < |r| ==> r[k] == ' '
  {
  }

  /** `std::right << std::setw(w)`: pad on the left with spaces, never cut. */
  function PadLeft(s: string, w: nat): (r: string)
    ensures |r| == Max(|s|, w)
  {
    if |s| >= w then s else seq(w - |s|, _ => ' ') + s
  }

  lemma PadLeftShape(s: string, w: nat)
    ensures var r := PadLeft(s, w);
      && r[|r| - |s|..] == s
      && forall k :: 0 <= k < |r| - |s| ==> r[k] == ' '
  {
  }

  /** One table row: the name left-justified in 25 columns, the size right-justified in 7. */
  function Row(name: string, hs: string): string {
    "| " + PadRight(name, NameWidth) + "| " + PadLeft(hs, SizeWidth)
  }

  /** The four pieces of a row, by position. */
  lemma RowPieces(p: string, q: string)
    ensures var r := "| " + p + "| " + q;
      && |r| == 4 + |p| + |q|
      && r[..2] == "| "
      && r[2..2 + |p|] == p
      && r[2 + |p|..4 + |p|] == "| "
      && r[4 + |p|..] == q
  {
  }

  /** The name field of a row: the name, then spaces up to column 27 or the end of a longer name. */
  lemma RowNameField(name: string, hs: string)
    ensures var r := Row(name, hs); var nw := Max(|name|, NameWidth);
      && 2 + nw <= |r|
      && r[2..2 + |name|] == name
      && forall k :: 2 + |name| <= k < 2 + nw ==> r[k] == ' '
  {
    var p := PadRight(name, NameWidth);
    var r := Row(name, hs);
    RowPieces(p, PadLeft(hs, SizeWidth));
    PadRightShape(name, NameWidth);
    var field := r[2..2 + |p|];
    assert field == p;
    assert r[2..2 + |name|] == field[..|name|];
    forall k | 2 + |name| <= k < 2 + |p|
      ensures r[k] == ' '
    {
      assert r[k] == field[k - 2];
    }
  }

  /** The size field of a row ends the row with the size. */
  lemma RowSizeField(name: string, hs: string)
    ensures var r := Row(name, hs);
      |hs| <= |r| && r[|r| - |hs|..] == hs
  {
    var p := PadRight(name, NameWidth);
    var q := PadLeft(hs, SizeWidth);
    var r := Row(name, hs);
    RowPieces(p, q);
    PadLeftShape(hs, SizeWidth);
    var field := r[4 + |p|..];
    assert field == q;
    assert r[|r| - |hs|..] == field[|q| - |hs|..];
  }

  /** Where each part of a row sits; long names and sizes push the columns right. */
  lemma RowLayout(name: string, hs: string)
    ensures var r := Row(name, hs); var nw := Max(|name|, NameWidth);
      && |r| == 4 + nw + Max(|hs|, SizeWidth)
      && r[..2] == "| "
      && r[2..2 + |name|] == name
      && (forall k :: 2 + |name| <= k < 2 + nw ==> r[k] == ' ')
      && r[2 + nw..4 + nw] == "| "
      && r[|r| - |hs|..] == hs
  {
    RowPieces(PadRight(name, NameWidth), PadLeft(hs, SizeWidth));
    RowNameField(name, hs);
    RowSizeField(name, hs);
  }

  /** Rows whose name fits in 25 columns and size in 7 line up: 36 columns, bar at column 27. */
  lemma RowsAlign(name: string, hs: string)
    requires |name| <= NameWidth && |hs| <= SizeWidth
    ensures |Row(name, hs)| == 36
    ensures Row(name, hs)[27..29] == "| "
  {
    RowLayout(name, hs);
  }

  /** Sizes up to 1023948 bytes fit the 7-column size field; from 1023949 up to 1 MiB they take 8. */
  lemma SizeFieldWidth(bytes: nat)
    ensures bytes <= 1023948 ==> |HumanSize(bytes)| <= SizeWidth
    ensures 1023949 <= bytes < MiB ==> |HumanSize(bytes)| == SizeWidth + 1
  {
    assert Pow10(3) == 1000 && Pow10(4) == 10000;
    if bytes < KiB {
      DecimalLength(bytes, 4);
    } else if bytes < MiB {
      var t := Tenths(bytes, KiB);
      DecimalLength(t / 10, 3);
      DecimalLength(t / 10, 4);
    }
  }

  /** The size `print_table` shows: none is looked up for a directory, a failed lookup counts as zero. */
  function EntrySize(e: Entry, sizes: map<string, nat>): nat {
    if e.isDir then 0 else if e.name in sizes then sizes[e.name] else 0
  }

  /** The row `print_table` writes for one entry. */
  function TableRow(e: Entry, sizes: map<string, nat>): string {
    Row(e.name, HumanSize(EntrySize(e, sizes)))
  }

  /** The lines of the table for `items`, with `sizes` the file sizes that could be read. */
  method PrintTable(cwd: string, items: seq<Entry>, sizes: map<string, nat>) returns (lines: seq<string>)
    ensures |lines| == |items| + 4
    ensures lines[0] == cwd && lines[1] == "" && lines[2] == Header && lines[|lines| - 1] == Footer
    ensures forall k :: 0 <= k < |items| ==> lines[k + 3] == TableRow(items[k], sizes)
  {
    lines := [cwd, "", Header];
    for k := 0 to |items|
      invariant |lines| == k + 3
      invariant lines[0] == cwd && lines[1] == "" && lines[2] == Header
      invariant forall m :: 0 <= m < k ==> lines[m + 3] == TableRow(items[m], sizes)
    {
      lines := lines + [TableRow(items[k], sizes)];
    }
    lines := lines + [Footer];
  }

  /** Directories, and files whose size could not be read, show `0B`. */
  lemma UnsizedRowShowsZero(e: Entry, sizes: map<string, nat>)
    requires e.isDir || e.name !in sizes
    ensures TableRow(e, sizes) == Row(e.name, "0B")
  {
    ByteExamples();
  }
}
