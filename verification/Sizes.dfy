/** Size formatting (crates/agent/src/fmt.rs) and the process rows whose width
    rests on it (crates/agent/src/render.rs). Colour escapes are left out: a
    row is its visible characters. */
module Sizes {
  import opened Text

  const KI := 1024
  const MI := 1024 * 1024
  const GI := 1024 * 1024 * 1024
  const TI := 1024 * 1024 * 1024 * 1024

  const SIZE_W := 9
  const SIZE_MAX := 9999 * TI

  /** The nearest whole number to `n / d`, ties to even, as `format!` rounds. */
  function RoundedQuotient(n: nat, d: nat): nat
    requires d > 0
  {
    var q, r := n / d, n % d;
    if 2 * r < d || (2 * r == d && q % 2 == 0) then q else q + 1
  }

  /** `format!("{:.1}")` of `b / unit`. */
  function OneDecimal(b: nat, unit: nat): string
    requires unit > 0
  {
    var tenths := RoundedQuotient(10 * b, unit);
    Decimal(tenths / 10) + "." + [Digit(tenths % 10)]
  }

  function FmtSize(b: nat): string {
    if b >= TI then OneDecimal(b, TI) + "TiB"
    else if b >= GI then OneDecimal(b, GI) + "GiB"
    else if b >= MI then OneDecimal(b, MI) + "MiB"
    else if b >= KI then OneDecimal(b, KI) + "KiB"
    else Decimal(b) + "B"
  }

  lemma {:induction false} DecimalLengthExact(n: nat, digits: nat)
    requires digits > 0
    ensures |Decimal(n)| <= digits <==> n < Power10(digits)
  {
    if n < 10 {
      assert Power10(digits) == 10 * Power10(digits - 1);
    } else if digits == 1 {
      assert Power10(1) == 10;
    } else {
      DecimalLengthExact(n / 10, digits - 1);
    }
  }

  lemma RoundedBelow(n: nat, d: nat, bound: nat)
    requires d > 0
    ensures RoundedQuotient(n, d) <= bound <==>
            2 * n < (2 * bound + 1) * d || (2 * n == (2 * bound + 1) * d && bound % 2 == 0)
  {
    var q, r := n / d, n % d;
    var qd, bd := q * d, bound * d;
    assert n == qd + r;
    QuotientMonotone(q, bound, d);
    assert (2 * bound + 1) * d == 2 * bd + d;
  }

  /** Distinct multiples of `d` are at least `d` apart. */
  lemma QuotientMonotone(m: nat, n: nat, d: nat)
    ensures m < n ==> m * d + d <= n * d
    ensures n < m ==> n * d + d <= m * d
  {
    if m < n {
      MultipleAtLeast(n - m, d);
      assert (n - m) * d == n * d - m * d;
    } else if n < m {
      MultipleAtLeast(m - n, d);
      assert (m - n) * d == m * d - n * d;
    }
  }

  lemma MultipleAtLeast(x: nat, d: nat)
    requires x > 0
    ensures x * d >= d
  {
  }

  /** The one-decimal text keeps to a width exactly when the rounded number of
      tenths stays below the next power of ten. */
  lemma OneDecimalWidth(b: nat, unit: nat, digits: nat)
    requires unit > 0 && digits > 0
    ensures |OneDecimal(b, unit)| <= digits + 2 <==> RoundedQuotient(10 * b, unit) < 10 * Power10(digits)
  {
    DecimalLengthExact(RoundedQuotient(10 * b, unit) / 10, digits);
  }

  /** A size keeps to its column exactly below 9999.95 TiB: where it rounds up
      to 10000.0TiB, not at `SIZE_MAX` already. */
  lemma SizeFitsColumn(b: nat)
    ensures |FmtSize(b)| <= SIZE_W <==> 20 * b < 199999 * TI
  {
    assert Power10(4) == 10000;
    hide Decimal, RoundedQuotient, OneDecimal;
    if b >= TI {
      OneDecimalWidth(b, TI, 4);
      RoundedBelow(10 * b, TI, 99999);
    } else if b >= GI {
      OneDecimalWidth(b, GI, 4);
      RoundedBelow(10 * b, GI, 99999);
    } else if b >= MI {
      OneDecimalWidth(b, MI, 4);
      RoundedBelow(10 * b, MI, 99999);
    } else if b >= KI {
      OneDecimalWidth(b, KI, 4);
      RoundedBelow(10 * b, KI, 99999);
    } else {
      DecimalLengthExact(b, 4);
    }
  }

  lemma RoundedIsNear(n: nat, d: nat)
    requires d > 0
    ensures var r := RoundedQuotient(n, d); 2 * n <= 2 * r * d + d && 2 * r * d <= 2 * n + d
  {
    var q := n / d;
    assert n == q * d + n % d;
    assert 2 * q * d == 2 * (q * d) && 2 * (q + 1) * d == 2 * (q * d) + 2 * d;
  }

  /** `s` is the number of `tenths` tenths, with one decimal, and this unit. */
  predicate IsNumberOf(s: string, tenths: nat, suffix: string) {
    s == Decimal(tenths / 10) + "." + [Digit(tenths % 10)] + suffix
  }

  /** The units sizes are printed in, each 1024 of the one before. */
  predicate IsUnit(unit: nat, suffix: string) {
    || (unit == 1024 && suffix == "KiB") || (unit == 1048576 && suffix == "MiB")
    || (unit == 1073741824 && suffix == "GiB") || (unit == 1099511627776 && suffix == "TiB")
  }

  /** A printed size is the value to the nearest tenth of the largest unit it
      holds, and so within a twentieth of that unit; under a kibibyte it is exact. */
  lemma SizeIsNear(b: nat)
    ensures b < 1024 ==> FmtSize(b) == Decimal(b) + "B"
    ensures b >= 1024 ==> exists unit: nat, suffix, tenths: nat ::
      && IsUnit(unit, suffix) && unit <= b && (b < 1024 * unit || unit == 1099511627776)
      && IsNumberOf(FmtSize(b), tenths, suffix) && tenths >= 10
      && 20 * b <= 2 * tenths * unit + unit && 2 * tenths * unit <= 20 * b + unit
  {
    if b >= 1024 {
      hide RoundedQuotient, Decimal;
      var unit := if b >= TI then TI else if b >= GI then GI else if b >= MI then MI else KI;
      var suffix := if b >= TI then "TiB" else if b >= GI then "GiB" else if b >= MI then "MiB" else "KiB";
      var tenths := RoundedQuotient(10 * b, unit);
      RoundedIsNear(10 * b, unit);
      AtLeastOne(b, unit, tenths);
      assert IsUnit(unit, suffix) && IsNumberOf(FmtSize(b), tenths, suffix);
    }
  }

  lemma AtLeastOne(b: nat, unit: nat, tenths: nat)
    requires 0 < unit <= b
    ensures tenths <= 9 ==> 2 * tenths * unit + unit < 20 * b
  {
    assert tenths <= 9 ==> tenths * unit <= 9 * unit;
    assert 2 * tenths * unit == 2 * (tenths * unit);
  }

  /** `SIZE_MAX` itself still keeps to the column. */
  lemma SizeMaxFitsColumn()
    ensures |FmtSize(SIZE_MAX)| <= SIZE_W
  {
    SizeFitsColumn(SIZE_MAX);
  }

  // ------------------------------------------------------------ the process rows

  const PID_W := 7
  const CPU_W := 5
  const MEM_W := SIZE_W
  const GAP := 2
  const COL_SEP_W := 3
  const INDENT := 1
  const CELL_FIXED_W := PID_W + GAP + GAP + CPU_W + GAP + MEM_W
  const TWO_COLUMN_MIN_COLS := 72
  const NAME_W_MIN := 12
  const NAME_W_MAX := 20
  const NAME_W_MIN_SPLIT := 4

  function Spaces(n: nat): (s: string)
    ensures |s| == n
  {
    seq(n, _ => ' ')
  }

  function PadLeft(s: string, w: nat): (r: string)
    ensures |r| == if |s| < w then w else |s|
    ensures r[|r| - |s|..] == s && forall i :: 0 <= i < |r| - |s| ==> r[i] == ' '
  {
    if |s| < w then Spaces(w - |s|) + s else s
  }

  function PadRight(s: string, w: nat): (r: string)
    ensures |r| == if |s| < w then w else |s|
    ensures r[..|s|] == s && forall i :: |s| <= i < |r| ==> r[i] == ' '
  {
    if |s| < w then s + Spaces(w - |s|) else s
  }

  /** Saturating subtraction. */
  function Less(a: nat, b: nat): nat {
    if a < b then 0 else a - b
  }

  function NameWidth(cols: nat, twoColumn: bool): nat {
    if twoColumn then
      var half := Less(cols, INDENT + COL_SEP_W + 2 * CELL_FIXED_W) / 2;
      if half < NAME_W_MIN_SPLIT then NAME_W_MIN_SPLIT else half
    else
      var rest := Less(cols, INDENT + CELL_FIXED_W);
      if rest < NAME_W_MIN then NAME_W_MIN else if rest > NAME_W_MAX then NAME_W_MAX else rest
  }

  const DOTS := "..."

  /** A name cut to `width` characters, the cut marked with three dots: below a
      width of three the dots are all there is, and overrun it. */
  function TruncateName(name: string, width: nat): (r: string)
    ensures |name| < width ==> r == name
    ensures |name| >= width ==> |r| == (if width < |DOTS| then |DOTS| else width) && r[|r| - |DOTS|..] == DOTS
    ensures |name| >= width ==> r[..|r| - |DOTS|] <= name
  {
    if |name| < width then name
    else name[..Less(width, |DOTS|)] + DOTS
  }

  /** One row of the process table, as far as its width goes; `cpu` is the
      printed percentage. */
  datatype Proc = Proc(pid: nat, name: string, cpu: string, mem: nat)

  function ProcCell(p: Proc, nameW: nat): string {
    PadLeft(Decimal(p.pid), PID_W) + "  " + PadRight(TruncateName(p.name, nameW), nameW) + "  "
    + PadLeft(p.cpu, CPU_W) + "  " + PadLeft(FmtSize(p.mem), MEM_W)
  }

  function OneRow(p: Proc, nameW: nat): string {
    " " + ProcCell(p, nameW)
  }

  function TwoRow(left: Proc, right: Proc, nameW: nat): string {
    " " + ProcCell(left, nameW) + " \U{2502} " + ProcCell(right, nameW)
  }

  /** What keeps a cell to its columns: seven digits of pid, five characters of
      percentage, and a size that fits. */
  predicate FitsColumns(p: Proc) {
    p.pid < 10_000_000 && |p.cpu| <= CPU_W && p.mem < SIZE_MAX
  }

  lemma CellWidth(p: Proc, nameW: nat)
    requires FitsColumns(p) && nameW >= 3
    ensures |ProcCell(p, nameW)| == CELL_FIXED_W + nameW
  {
    assert Power10(7) == 10_000_000;
    DecimalLengthExact(p.pid, 7);
    SizeFitsColumn(p.mem);
    hide Decimal, FmtSize;
  }

  /** A process table of 40 columns or more never has a row wider than itself. */
  lemma RowsFitPanel(left: Proc, right: Proc, cols: nat)
    requires FitsColumns(left) && FitsColumns(right) && cols >= 40
    ensures |OneRow(left, NameWidth(cols, false))| <= cols
    ensures cols >= TWO_COLUMN_MIN_COLS ==>
      |TwoRow(left, right, NameWidth(cols, true))| <= cols && |OneRow(left, NameWidth(cols, true))| <= cols
  {
    hide ProcCell;
    CellWidth(left, NameWidth(cols, false));
    CellWidth(left, NameWidth(cols, true));
    CellWidth(right, NameWidth(cols, true));
  }

  /** Names get all the width there is: one column more, and a row would not fit
      the panel, unless names are at their widest, 20, or their narrowest, 12. */
  lemma NamesGetTheRest(left: Proc, right: Proc, cols: nat)
    requires FitsColumns(left) && FitsColumns(right) && cols >= 40
    ensures var w := NameWidth(cols, false); 12 <= w <= 20 && (w == 20 || |OneRow(left, w + 1)| > cols)
    ensures cols >= 72 ==> |TwoRow(left, right, NameWidth(cols, true) + 1)| > cols
  {
    hide ProcCell;
    CellWidth(left, NameWidth(cols, false) + 1);
    CellWidth(left, NameWidth(cols, true) + 1);
    CellWidth(right, NameWidth(cols, true) + 1);
  }

  /** A field that is this text after blanks. */
  predicate EndsIn(field: string, text: string) {
    && |text| <= |field| && field[|field| - |text|..] == text
    && forall i :: 0 <= i < |field| - |text| ==> field[i] == ' '
  }

  /** A field that is this text before blanks. */
  predicate BeginsIn(field: string, text: string) {
    |text| <= |field| && field[..|text|] == text && forall i :: |text| <= i < |field| ==> field[i] == ' '
  }

  lemma PaddedFields(s: string, w: nat)
    ensures EndsIn(PadLeft(s, w), s) && BeginsIn(PadRight(s, w), s)
  {
  }

  /** A cell shows the pid, the name, the share and the memory, in this order, in
      columns of 7, `nameW`, 5 and 9, two blanks apart: numbers to the right, the
      name to the left. */
  ghost predicate CellOf(s: string, p: Proc, nameW: nat) {
    && |s| == 27 + nameW
    && EndsIn(s[..7], Decimal(p.pid)) && s[7..9] == "  "
    && BeginsIn(s[9..9 + nameW], TruncateName(p.name, nameW)) && s[9 + nameW..11 + nameW] == "  "
    && EndsIn(s[11 + nameW..16 + nameW], p.cpu) && s[16 + nameW..18 + nameW] == "  "
    && EndsIn(s[18 + nameW..], FmtSize(p.mem))
  }

  lemma CellShows(p: Proc, nameW: nat)
    requires FitsColumns(p) && nameW >= 3
    ensures CellOf(ProcCell(p, nameW), p, nameW)
  {
    hide Decimal, FmtSize, PadLeft, PadRight, EndsIn, BeginsIn, TruncateName;
    assert Power10(7) == 10_000_000;
    DecimalLengthExact(p.pid, 7);
    SizeFitsColumn(p.mem);
    PaddedFields(Decimal(p.pid), PID_W);
    PaddedFields(TruncateName(p.name, nameW), nameW);
    PaddedFields(p.cpu, CPU_W);
    PaddedFields(FmtSize(p.mem), MEM_W);
    CellSlices(PadLeft(Decimal(p.pid), PID_W), PadRight(TruncateName(p.name, nameW), nameW),
               PadLeft(p.cpu, CPU_W), PadLeft(FmtSize(p.mem), MEM_W), nameW);
  }

  lemma CellSlices(pid: string, name: string, cpu: string, mem: string, nameW: nat)
    requires |pid| == 7 && |name| == nameW && |cpu| == 5 && |mem| == 9
    ensures var s := pid + "  " + name + "  " + cpu + "  " + mem;
            && |s| == 27 + nameW
            && s[..7] == pid && s[7..9] == "  " && s[9..9 + nameW] == name && s[9 + nameW..11 + nameW] == "  "
            && s[11 + nameW..16 + nameW] == cpu && s[16 + nameW..18 + nameW] == "  " && s[18 + nameW..] == mem
  {
  }
}
