/** The text of the per-core cells and of the rows they stand in
    (crates/agent/src/render.rs), as far as it is visible. */
module CoreCells {
  import opened Basics
  import opened Wrappers
  import opened Text
  import opened Sizes

  /** A core: its number, its load as printed and as cells of a bar, and its
      temperature as printed, when there is a sensor. */
  datatype Core = Core(index: nat, percent: string, filled: nat, degrees: Option<string>)

  datatype TempUnit = C | F {
    function Letter(): char {
      match this case C => 'C' case F => 'F'
    }
  }

  predicate HasTemps(cores: seq<Core>) {
    exists i :: 0 <= i < |cores| && cores[i].degrees.Some?
  }

  function MaxIndex(cores: seq<Core>): nat {
    if cores == [] then 0
    else
      var rest := MaxIndex(cores[..|cores| - 1]);
      if cores[|cores| - 1].index > rest then cores[|cores| - 1].index else rest
  }

  lemma {:induction false} IndexAtMost(cores: seq<Core>, i: nat)
    requires i < |cores|
    ensures cores[i].index <= MaxIndex(cores)
  {
    if i < |cores| - 1 {
      IndexAtMost(cores[..|cores| - 1], i);
      assert cores[..|cores| - 1][i] == cores[i];
    }
  }

  // ---------------------------------------------------------------------- the text

  /** A fair part of the bar length, twelve cells at most, and no bar under five. */
  function BarCells(numCores: nat, barLen: nat): nat {
    var part := Least(barLen / (if numCores == 0 then 1 else numCores), 12);
    if part >= 5 then part else 0
  }

  function BarText(filled: nat, length: nat): (s: string)
    ensures |s| == length
  {
    seq(length, i => if i < filled then '#' else '.')
  }

  /** A core's number under the widest number's width, its bar, its load in
      three columns, and its temperature. */
  function CellText(c: Core, cores: seq<Core>, barLen: nat, unit: TempUnit): string {
    PadLeft(Decimal(c.index), |Decimal(MaxIndex(cores))|) + ":" + BarText(c.filled, BarCells(|cores|, barLen))
    + PadLeft(c.percent, 3) + "%" + TempText(c.degrees, unit)
  }

  function TempText(degrees: Option<string>, unit: TempUnit): string {
    match degrees
    case Some(d) => " " + d + "\U{B0}" + [unit.Letter()]
    case None => []
  }

  /** The cells from `from` on, each in a column of this width. */
  function CellsText(cores: seq<Core>, from: nat, to: nat, width: nat, barLen: nat, unit: TempUnit): string
    requires from <= to <= |cores|
  {
    if from == to then []
    else
      CellsText(cores, from, to - 1, width, barLen, unit)
      + PadRight(CellText(cores[to - 1], cores, barLen, unit), width)
  }

  const LABEL := " CPU "

  /** One row of cells, under the label or beside it, its end trimmed. */
  function RowText(cores: seq<Core>, from: nat, to: nat, width: nat, barLen: nat, unit: TempUnit): string
    requires from <= to <= |cores|
  {
    TrimEnd((if from == 0 then LABEL else Spaces(|LABEL|)) + CellsText(cores, from, to, width, barLen, unit))
  }

  // ----------------------------------------------------------------------- widths

  /** A load up to 999% and a temperature of two characters at most. */
  predicate Ordinary(c: Core) {
    |c.percent| <= 3 && (c.degrees.Some? ==> |c.degrees.value| <= 2)
  }

  predicate AllOrdinary(cores: seq<Core>) {
    forall i :: 0 <= i < |cores| ==> Ordinary(cores[i])
  }

  /** The widest cell these cores can have: the largest number, a full load and,
      when any core has a sensor, a temperature. */
  function WidestCell(cores: seq<Core>, barLen: nat, unit: TempUnit): string {
    CellText(Core(MaxIndex(cores), "100", 0, if HasTemps(cores) then Some("85") else None), cores, barLen, unit)
  }

  lemma {:induction false} DecimalGrows(m: nat, n: nat)
    requires m <= n
    ensures |Decimal(m)| <= |Decimal(n)|
  {
    if n >= 10 {
      DecimalGrows(m / 10, n / 10);
    }
  }

  lemma WidestLength(cores: seq<Core>, barLen: nat, unit: TempUnit)
    ensures |WidestCell(cores, barLen, unit)|
         == |Decimal(MaxIndex(cores))| + 1 + BarCells(|cores|, barLen) + 4 + if HasTemps(cores) then 5 else 0
  {
    hide Decimal, MaxIndex, BarCells;
  }

  lemma CellLength(cores: seq<Core>, i: nat, barLen: nat, unit: TempUnit)
    requires i < |cores| && |cores[i].percent| <= 3
    ensures |CellText(cores[i], cores, barLen, unit)|
         == |Decimal(MaxIndex(cores))| + 1 + BarCells(|cores|, barLen) + 4
            + (match cores[i].degrees case Some(d) => 3 + |d| case None => 0)
  {
    hide Decimal, MaxIndex, BarCells, BarText, PadLeft;
    var c := cores[i];
    IndexAtMost(cores, i);
    DecimalGrows(c.index, MaxIndex(cores));
    LengthOfPieces(PadLeft(Decimal(c.index), |Decimal(MaxIndex(cores))|), ":",
                   BarText(c.filled, BarCells(|cores|, barLen)),
                   PadLeft(c.percent, 3), "%", TempText(c.degrees, unit));
  }

  lemma LengthOfPieces(a: string, b: string, c: string, d: string, e: string, f: string)
    ensures |a + b + c + d + e + f| == |a| + |b| + |c| + |d| + |e| + |f|
  {
  }

  /** A cell leaves a gap in a column one wider than the widest exactly when its
      temperature, if it has one, has two characters at most; a third one closes it. */
  lemma CellLeavesGap(cores: seq<Core>, i: nat, width: nat, barLen: nat, unit: TempUnit)
    requires i < |cores| && |cores[i].percent| <= 3 && width == |WidestCell(cores, barLen, unit)| + 1
    ensures cores[i].degrees.Some? ==>
      (|CellText(cores[i], cores, barLen, unit)| < width <==> |cores[i].degrees.value| <= 2)
    ensures cores[i].degrees.None? ==> |CellText(cores[i], cores, barLen, unit)| < width
  {
    hide CellText, WidestCell;
    CellLength(cores, i, barLen, unit);
    WidestLength(cores, barLen, unit);
  }

  lemma {:induction false} CellsWidth(cores: seq<Core>, from: nat, to: nat, width: nat, barLen: nat, unit: TempUnit)
    requires from <= to <= |cores| && AllOrdinary(cores) && width == |WidestCell(cores, barLen, unit)| + 1
    ensures |CellsText(cores, from, to, width, barLen, unit)| == (to - from) * width
  {
    hide CellText, WidestCell, HasTemps, PadRight;
    if from < to {
      CellsWidth(cores, from, to - 1, width, barLen, unit);
      CellLeavesGap(cores, to - 1, width, barLen, unit);
      OneColumnMore(to - 1 - from, width);
    }
  }

  lemma OneColumnMore(columns: nat, width: nat)
    ensures columns * width + width == (columns + 1) * width
  {
  }

  lemma CellEnd(c: Core, cores: seq<Core>, barLen: nat, unit: TempUnit)
    ensures var s := CellText(c, cores, barLen, unit); s != [] && !Space(s[|s| - 1])
  {
    hide Decimal, MaxIndex, BarCells, PadLeft;
  }

  lemma SpacesAreSpaces(n: nat)
    ensures AllSpaces(Spaces(n))
  {
  }

  lemma TrimRow(head: string, cell: string, gap: string)
    requires cell != [] && !Space(cell[|cell| - 1]) && AllSpaces(gap)
    ensures |TrimEnd(head + (cell + gap))| == |head| + |cell|
  {
    hide Space, TrimEnd;
    Associate(head, cell, gap);
    assert (head + cell)[|head + cell| - 1] == cell[|cell| - 1];
    TrimEndPads(head + cell, gap);
  }

  lemma LastCell(cores: seq<Core>, from: nat, to: nat, width: nat, barLen: nat, unit: TempUnit)
    requires from < to <= |cores| && |CellText(cores[to - 1], cores, barLen, unit)| < width
    ensures var cell := CellText(cores[to - 1], cores, barLen, unit);
            CellsText(cores, from, to, width, barLen, unit)
            == CellsText(cores, from, to - 1, width, barLen, unit) + (cell + Spaces(width - |cell|))
  {
    hide CellText;
  }

  /** A row is as wide as its label, its columns and the text of its last cell. */
  lemma RowWidth(cores: seq<Core>, from: nat, to: nat, width: nat, barLen: nat, unit: TempUnit)
    requires from < to <= |cores| && AllOrdinary(cores) && width == |WidestCell(cores, barLen, unit)| + 1
    ensures |RowText(cores, from, to, width, barLen, unit)|
         == |LABEL| + (to - from - 1) * width + |CellText(cores[to - 1], cores, barLen, unit)|
  {
    hide CellText, CellsText, WidestCell, HasTemps, TrimEnd, Space;
    var cell := CellText(cores[to - 1], cores, barLen, unit);
    CellLeavesGap(cores, to - 1, width, barLen, unit);
    CellsWidth(cores, from, to - 1, width, barLen, unit);
    LastCell(cores, from, to, width, barLen, unit);
    CellEnd(cores[to - 1], cores, barLen, unit);
    SpacesAreSpaces(width - |cell|);
    var head := if from == 0 then LABEL else Spaces(|LABEL|);
    var before := CellsText(cores, from, to - 1, width, barLen, unit);
    Associate(head, before, cell + Spaces(width - |cell|));
    TrimRow(head + before, cell, Spaces(width - |cell|));
  }

  /** Rows of as many columns as fit after the label, with a column to spare,
      or else of one: none is wider than the panel once one cell fits beside the label. */
  lemma RowFits(cores: seq<Core>, from: nat, to: nat, width: nat, cols: nat, barLen: nat, unit: TempUnit)
    requires from < to <= |cores| && AllOrdinary(cores) && width == |WidestCell(cores, barLen, unit)| + 1
    requires to == from + 1 || 6 + (to - from) * width <= cols
    requires |LABEL| + |WidestCell(cores, barLen, unit)| <= cols
    ensures |RowText(cores, from, to, width, barLen, unit)| <= cols
  {
    hide CellText, WidestCell, RowText, HasTemps;
    RowWidth(cores, from, to, width, barLen, unit);
    CellLeavesGap(cores, to - 1, width, barLen, unit);
    OneColumnMore(to - from - 1, width);
  }
}
