/** Area graphs in braille: `dots_for` and `braille_rows` of
    crates/multitop/src/graphs.rs, drawn from a `History.Series`. */
module Braille {
  import opened History

  const DOT_COLS := 2
  const DOT_ROWS := 4
  const BRAILLE_BASE := 0x2800

  /** The bit of each dot: braille numbers 1 to 6 down its two columns, and 7 and 8 below them. */
  function DotBit(column: nat, row: nat): bv8
    requires column < DOT_COLS && row < DOT_ROWS
  {
    if column == 0 then
      if row == 0 then 0x01 else if row == 1 then 0x02 else if row == 2 then 0x04 else 0x40
    else
      if row == 0 then 0x08 else if row == 1 then 0x10 else if row == 2 then 0x20 else 0x80
  }

  predicate HasDot(bits: bv8, column: nat, row: nat)
    requires column < DOT_COLS && row < DOT_ROWS
  {
    bits & DotBit(column, row) != 0
  }

  /** No two dots share a bit: setting one sets that one and no other. */
  lemma SettingOneDot(bits: bv8, c: nat, r: nat, column: nat, row: nat)
    requires c < DOT_COLS && r < DOT_ROWS && column < DOT_COLS && row < DOT_ROWS
    ensures HasDot(bits | DotBit(c, r), column, row) <==> HasDot(bits, column, row) || (c == column && r == row)
  {
    var x, y := DotBit(c, r), DotBit(column, row);
    assert (bits | x) & y == (bits & y) | (x & y);
    assert x & y != 0 <==> c == column && r == row;
  }

  lemma NoDots(column: nat, row: nat)
    requires column < DOT_COLS && row < DOT_ROWS
    ensures !HasDot(0, column, row)
  {
  }

  function Glyph(bits: bv8): (c: char)
    ensures '\U{2800}' <= c <= '\U{28FF}'
  {
    (BRAILLE_BASE + bits as int) as char
  }

  // ------------------------------------------------------------ reading a glyph

  predicate IsBraille(c: char) {
    '\U{2800}' <= c <= '\U{28FF}'
  }

  /** Unicode's number of a dot: 1, 2, 3 and 7 down the left, 4, 5, 6 and 8 down the right. */
  function DotNumber(column: nat, row: nat): (n: nat)
    requires column < 2 && row < 4
    ensures 1 <= n <= 8
  {
    if column == 0 then [1, 2, 3, 7][row] else [4, 5, 6, 8][row]
  }

  /** Dot `n` is raised when bit `n - 1` of the code point, counted from U+2800, is set. */
  predicate Raised(c: char, n: nat)
    requires IsBraille(c) && 1 <= n <= 8
  {
    var bits := (c as int - 0x2800) as bv8;
    BitSet(bits, n - 1)
  }

  predicate BitSet(bits: bv8, k: nat)
    requires k < 8
  {
    (bits >> k) & 1 == 1
  }

  lemma GlyphBits(bits: bv8)
    ensures (Glyph(bits) as int - 0x2800) as bv8 == bits
  {
  }

  lemma BitOfDot(bits: bv8, column: nat, row: nat)
    requires column < DOT_COLS && row < DOT_ROWS
    ensures HasDot(bits, column, row) <==> BitSet(bits, DotNumber(column, row) - 1)
  {
    assert bits & 0x01 != 0 <==> BitSet(bits, 0);
    assert bits & 0x02 != 0 <==> BitSet(bits, 1);
    assert bits & 0x04 != 0 <==> BitSet(bits, 2);
    assert bits & 0x08 != 0 <==> BitSet(bits, 3);
    assert bits & 0x10 != 0 <==> BitSet(bits, 4);
    assert bits & 0x20 != 0 <==> BitSet(bits, 5);
    assert bits & 0x40 != 0 <==> BitSet(bits, 6);
    assert bits & 0x80 != 0 <==> BitSet(bits, 7);
  }

  /** A glyph raises the dots its cell has, by Unicode's numbers. */
  lemma GlyphRaises(bits: bv8, column: nat, row: nat)
    requires column < DOT_COLS && row < DOT_ROWS
    ensures Raised(Glyph(bits), DotNumber(column, row)) <==> HasDot(bits, column, row)
  {
    hide HasDot, DotNumber, Glyph;
    BitOfDot(bits, column, row);
    GlyphBits(bits);
  }

  const LEFT_BARS := ['\U{2840}', '\U{2844}', '\U{2846}', '\U{2847}']

  /** A bar of one to four dots in the left column of a cell, alone in it, is one of these glyphs. */
  lemma LeftBars(c: char, h: nat)
    requires IsBraille(c) && 1 <= h <= 4
    requires forall row :: 0 <= row < 4 ==> (Raised(c, DotNumber(0, row)) <==> row >= 4 - h)
    requires forall row :: 0 <= row < 4 ==> !Raised(c, DotNumber(1, row))
    ensures c == LEFT_BARS[h - 1]
  {
    var bits := (c as int - 0x2800) as bv8;
    assert DotNumber(0, 0) == 1 && DotNumber(0, 1) == 2 && DotNumber(0, 2) == 3 && DotNumber(0, 3) == 7;
    assert DotNumber(1, 0) == 4 && DotNumber(1, 1) == 5 && DotNumber(1, 2) == 6 && DotNumber(1, 3) == 8;
    BarBits(bits, BitSet(bits, 6), BitSet(bits, 2), BitSet(bits, 1), BitSet(bits, 0));
    assert Raised(c, 1) <==> BitSet(bits, 0);
    assert bits == if h == 1 then 0x40 else if h == 2 then 0x44 else if h == 3 then 0x46 else 0x47;
    assert bits as int == c as int - 0x2800;
  }

  lemma BarBits(bits: bv8, seven: bool, three: bool, two: bool, one: bool)
    requires seven == (BitSet(bits, 6)) && three == (BitSet(bits, 2))
    requires two == (BitSet(bits, 1)) && one == (BitSet(bits, 0))
    ensures !BitSet(bits, 3) && !BitSet(bits, 4) && !BitSet(bits, 5) && !BitSet(bits, 7) ==>
      && (seven && !three && !two && !one ==> bits == 0x40)
      && (seven && three && !two && !one ==> bits == 0x44)
      && (seven && three && two && !one ==> bits == 0x46)
      && (seven && three && two && one ==> bits == 0x47)
  {
  }

  // ------------------------------------------------------------------ bar heights

  function Ceiling(x: real): int {
    -(-x).Floor
  }

  /** The bar a sample gets, in dots: never none for a sample above zero. */
  function DotsFor(value: real, max: real, dotRows: nat): (n: nat)
    ensures n <= dotRows
    ensures n > 0 <==> dotRows > 0 && max > 0.0 && value > 0.0
  {
    if dotRows == 0 || max <= 0.0 || value <= 0.0 then 0
    else
      var scaled := Scaled(value, max, dotRows);
      if scaled < 1 then 1 else if scaled > dotRows then dotRows else scaled
  }

  function Scaled(value: real, max: real, dotRows: nat): int
    requires max > 0.0
  {
    Ceiling(value / max * dotRows as real)
  }

  lemma ScaledOrder(a: real, b: real, max: real, dotRows: nat)
    requires a <= b && max > 0.0
    ensures Scaled(a, max, dotRows) <= Scaled(b, max, dotRows)
    ensures Scaled(max, max, dotRows) == dotRows
  {
    QuotientOrder(a, b, max);
    Scale(a / max, b / max, dotRows as real);
    assert max / max == 1.0;
  }

  /** A taller value never gets a shorter bar, and a full-scale one gets them all. */
  lemma DotsForIsMonotone(a: real, b: real, max: real, dotRows: nat)
    requires a <= b
    ensures DotsFor(a, max, dotRows) <= DotsFor(b, max, dotRows)
    ensures max > 0.0 && b >= max ==> DotsFor(b, max, dotRows) == dotRows
  {
    hide Scaled;
    if max > 0.0 {
      ScaledOrder(a, b, max, dotRows);
      if b >= max {
        ScaledOrder(max, b, max, dotRows);
      }
    }
  }

  /** A bar is `h` dots tall or taller exactly when `h - 1` full steps of the
      scale lie below its value. */
  lemma BarSteps(value: real, max: real, dotRows: nat, h: nat)
    requires max > 0.0 && 1 <= h <= dotRows
    ensures DotsFor(value, max, dotRows) >= h <==> value > 0.0 && (h - 1) as real * max < value * dotRows as real
  {
    hide Scaled;
    if value > 0.0 {
      ScaledSteps(value, max, dotRows, h);
      if h == 1 {
        assert 0.0 * max == 0.0;
        ProductSign(value, dotRows as real);
      }
    }
  }

  lemma ScaledSteps(value: real, max: real, dotRows: nat, h: nat)
    requires max > 0.0 && h >= 1
    ensures Scaled(value, max, dotRows) >= h <==> (h - 1) as real * max < value * dotRows as real
  {
    var q := value / max * dotRows as real;
    assert q * max == value * dotRows as real by {
      assert value / max * max == value;
      Reorder(value / max, dotRows as real, max);
    }
    Cancel((h - 1) as real, q, max);
  }

  lemma Reorder(q: real, k: real, m: real)
    ensures q * k * m == q * m * k
  {
  }

  lemma Cancel(x: real, y: real, m: real)
    requires m > 0.0
    ensures x < y <==> x * m < y * m
  {
    if x < y {
      ProductSign(y - x, m);
      assert (y - x) * m == y * m - x * m;
    } else {
      NonNegative(x - y, m);
      assert (x - y) * m == x * m - y * m;
    }
  }

  lemma ProductSign(x: real, y: real)
    requires x > 0.0 && y > 0.0
    ensures x * y > 0.0
  {
  }

  lemma QuotientOrder(a: real, b: real, m: real)
    requires m > 0.0 && a <= b
    ensures a / m <= b / m
  {
    assert b / m - a / m == (b - a) / m;
  }

  lemma Scale(x: real, y: real, k: real)
    requires x <= y && k >= 0.0
    ensures x * k <= y * k
  {
    var d := y - x;
    NonNegative(d, k);
    assert y * k - x * k == d * k;
  }

  lemma NonNegative(d: real, k: real)
    requires d >= 0.0 && k >= 0.0
    ensures d * k >= 0.0
  {
  }

  // ----------------------------------------------------------------------- drawing

  /** The dot in graph column `col` at height `h` above the bottom is to be lit. */
  predicate Wanted(shown: seq<real>, max: real, pad: nat, dotRows: nat, col: nat, h: nat) {
    pad <= col < pad + |shown| && h < DotsFor(shown[col - pad], max, dotRows)
  }

  /** The same, once the first `i` samples and `d` dots of the next are drawn. */
  ghost predicate WantedSoFar(shown: seq<real>, max: real, pad: nat, dotRows: nat, i: nat, d: nat, col: nat, h: nat) {
    && pad <= col < pad + |shown|
    && (if col < pad + i then h < DotsFor(shown[col - pad], max, dotRows) else col == pad + i && h < d)
  }

  /** The cells show exactly the dots drawn so far: row `r` from the top, dot
      row `dr` within it, is height `dotRows - 1 - (4r + dr)`. */
  ghost predicate Shows(cells: array2<bv8>, shown: seq<real>, max: real, pad: nat, i: nat, d: nat)
    reads cells
  {
    var dotRows := DOT_ROWS * cells.Length0;
    forall r, c, dot, dr ::
      0 <= r < cells.Length0 && 0 <= c < cells.Length1 && 0 <= dot < DOT_COLS && 0 <= dr < DOT_ROWS ==>
      (HasDot(cells[r, c], dot, dr) <==>
       WantedSoFar(shown, max, pad, dotRows, i, d, DOT_COLS * c + dot, dotRows - 1 - (DOT_ROWS * r + dr)))
  }

  method DrawDot(cells: array2<bv8>, shown: seq<real>, max: real, pad: nat, i: nat, d: nat)
    requires pad + |shown| == DOT_COLS * cells.Length1 && i < |shown|
    requires d < DotsFor(shown[i], max, DOT_ROWS * cells.Length0)
    requires Shows(cells, shown, max, pad, i, d)
    modifies cells
    ensures Shows(cells, shown, max, pad, i, d + 1)
  {
    hide DotsFor, DotBit, HasDot;
    var dotRows := DOT_ROWS * cells.Length0;
    var fromTop := dotRows - 1 - d;
    var row, dotRow := fromTop / DOT_ROWS, fromTop % DOT_ROWS;
    var cell, dot := (pad + i) / DOT_COLS, (pad + i) % DOT_COLS;
    forall b: bv8, c: nat, r: nat | c < DOT_COLS && r < DOT_ROWS
      ensures HasDot(b | DotBit(dot, dotRow), c, r) <==> HasDot(b, c, r) || (dot == c && dotRow == r)
    {
      SettingOneDot(b, dot, dotRow, c, r);
    }
    cells[row, cell] := cells[row, cell] | DotBit(dot, dotRow);
    forall r, c, dt, dr | 0 <= r < cells.Length0 && 0 <= c < cells.Length1 && 0 <= dt < DOT_COLS && 0 <= dr < DOT_ROWS
      ensures HasDot(cells[r, c], dt, dr) <==>
              WantedSoFar(shown, max, pad, dotRows, i, d + 1, DOT_COLS * c + dt, dotRows - 1 - (DOT_ROWS * r + dr))
    {
      assert cells[r, c] == if r == row && c == cell then old(cells[r, c]) | DotBit(dot, dotRow) else old(cells[r, c]);
      assert HasDot(old(cells[r, c]), dt, dr) <==>
             WantedSoFar(shown, max, pad, dotRows, i, d, DOT_COLS * c + dt, dotRows - 1 - (DOT_ROWS * r + dr));
      PlaceIsUnique(r, dr, fromTop, DOT_ROWS);
      PlaceIsUnique(c, dt, pad + i, DOT_COLS);
      OneMoreDot(shown, max, pad, dotRows, i, d, DOT_COLS * c + dt, dotRows - 1 - (DOT_ROWS * r + dr));
    }
  }

  lemma PlaceIsUnique(q: nat, r: nat, n: nat, k: nat)
    requires k in {DOT_COLS, DOT_ROWS} && r < k
    ensures k * q + r == n <==> q == n / k && r == n % k
  {
  }

  lemma OneMoreDot(shown: seq<real>, max: real, pad: nat, dotRows: nat, i: nat, d: nat, col: nat, h: nat)
    requires i < |shown|
    ensures WantedSoFar(shown, max, pad, dotRows, i, d + 1, col, h) <==>
            WantedSoFar(shown, max, pad, dotRows, i, d, col, h) || (col == pad + i && h == d)
  {
    hide DotsFor;
  }

  method DrawSamples(cells: array2<bv8>, shown: seq<real>, max: real, pad: nat)
    requires pad + |shown| == DOT_COLS * cells.Length1
    requires Shows(cells, shown, max, pad, 0, 0)
    modifies cells
    ensures Shows(cells, shown, max, pad, |shown|, 0)
  {
    hide Shows, DotsFor;
    var i := 0;
    while i < |shown|
      invariant i <= |shown| && Shows(cells, shown, max, pad, i, 0)
    {
      var filled := DotsFor(shown[i], max, DOT_ROWS * cells.Length0);
      var d := 0;
      while d < filled
        invariant d <= filled && Shows(cells, shown, max, pad, i, d)
      {
        DrawDot(cells, shown, max, pad, i, d);
        d := d + 1;
      }
      NextSample(cells, shown, max, pad, i);
      i := i + 1;
    }
  }

  /** The graph of the newest samples, drawn dot by dot into a grid of cells. */
  method BrailleRows(samples: seq<real>, max: real, width: nat, height: nat) returns (rows: seq<string>)
    ensures width == 0 || height == 0 ==> rows == []
    ensures width > 0 && height > 0 ==> IsGraph(rows, samples, max, width, height)
  {
    hide Shows, DotsFor, IsGraph, Glyph;
    if width == 0 || height == 0 {
      return [];
    }
    var dotCols := DOT_COLS * width;
    var shown := Newest(samples, dotCols);
    var pad: nat := dotCols - |shown|;
    var cells := new bv8[height, width]((_, _) => 0);
    StartsBlank(cells, shown, max, pad);
    DrawSamples(cells, shown, max, pad);
    rows := Characters(cells);
    GraphIsDrawn(cells, rows, samples, max, width, height);
  }

  lemma StartsBlank(cells: array2<bv8>, shown: seq<real>, max: real, pad: nat)
    requires forall r, c :: 0 <= r < cells.Length0 && 0 <= c < cells.Length1 ==> cells[r, c] == 0
    ensures Shows(cells, shown, max, pad, 0, 0)
  {
    hide DotsFor;
    forall dot, dr | 0 <= dot < DOT_COLS && 0 <= dr < DOT_ROWS
      ensures !HasDot(0, dot, dr)
    {
      NoDots(dot, dr);
    }
    hide HasDot;
  }

  lemma NextSample(cells: array2<bv8>, shown: seq<real>, max: real, pad: nat, i: nat)
    requires i < |shown|
    requires Shows(cells, shown, max, pad, i, DotsFor(shown[i], max, DOT_ROWS * cells.Length0))
    ensures Shows(cells, shown, max, pad, i + 1, 0)
  {
    hide DotsFor, HasDot;
  }

  method Characters(cells: array2<bv8>) returns (rows: seq<string>)
    ensures |rows| == cells.Length0
    ensures forall r :: 0 <= r < |rows| ==> |rows[r]| == cells.Length1
    ensures forall r, c :: 0 <= r < |rows| && 0 <= c < |rows[r]| ==> rows[r][c] == Glyph(cells[r, c])
  {
    rows := [];
    var r := 0;
    while r < cells.Length0
      invariant r <= cells.Length0 && |rows| == r
      invariant forall s :: 0 <= s < r ==> |rows[s]| == cells.Length1
      invariant forall s, c :: 0 <= s < r && 0 <= c < cells.Length1 ==> rows[s][c] == Glyph(cells[s, c])
    {
      var row: string := [];
      var c := 0;
      while c < cells.Length1
        invariant c <= cells.Length1 && |row| == c
        invariant forall k :: 0 <= k < c ==> row[k] == Glyph(cells[r, k])
      {
        row := row + [Glyph(cells[r, c])];
        c := c + 1;
      }
      rows := rows + [row];
      r := r + 1;
    }
  }

  /** Rows of braille glyphs, one for each cell. */
  predicate IsGrid(rows: seq<string>, width: nat, height: nat) {
    && |rows| == height
    && forall r :: 0 <= r < height ==>
      |rows[r]| == width && forall c :: 0 <= c < width ==> IsBraille(rows[r][c])
  }

  /** The dot in column `col`, `h` dots above the bottom, of a grid, as Unicode numbers the dots. */
  predicate Lit(rows: seq<string>, width: nat, height: nat, col: nat, h: nat)
  {
    && IsGrid(rows, width, height) && col < DOT_COLS * width && h < DOT_ROWS * height
    && var fromTop := DOT_ROWS * height - 1 - h;
    Raised(rows[fromTop / 4][col / 2], DotNumber(col % 2, fromTop % 4))
  }

  /** The graph of the newest samples, right-aligned: dot by dot. */
  ghost predicate IsGraph(rows: seq<string>, samples: seq<real>, max: real, width: nat, height: nat) {
    var shown := Newest(samples, DOT_COLS * width);
    && IsGrid(rows, width, height)
    && forall col: nat, h: nat :: col < DOT_COLS * width && h < DOT_ROWS * height ==>
      (Lit(rows, width, height, col, h) <==>
       Wanted(shown, max, DOT_COLS * width - |shown|, DOT_ROWS * height, col, h))
  }

  lemma GraphIsDrawn(cells: array2<bv8>, rows: seq<string>, samples: seq<real>, max: real, width: nat, height: nat)
    requires cells.Length0 == height && cells.Length1 == width
    requires |rows| == height && forall r :: 0 <= r < height ==> |rows[r]| == width
    requires forall r, c :: 0 <= r < height && 0 <= c < width ==> rows[r][c] == Glyph(cells[r, c])
    requires var shown := Newest(samples, DOT_COLS * width);
             Shows(cells, shown, max, DOT_COLS * width - |shown|, |shown|, 0)
    ensures IsGraph(rows, samples, max, width, height)
  {
    hide DotsFor, HasDot, Glyph, Raised, DotNumber, Newest;
    var shown := Newest(samples, DOT_COLS * width);
    assert IsGrid(rows, width, height);
    forall col: nat, h: nat | col < DOT_COLS * width && h < DOT_ROWS * height
      ensures Lit(rows, width, height, col, h)
         <==> Wanted(shown, max, DOT_COLS * width - |shown|, DOT_ROWS * height, col, h)
    {
      var fromTop := DOT_ROWS * height - 1 - h;
      var r, c := fromTop / DOT_ROWS, col / DOT_COLS;
      GlyphRaises(cells[r, c], col % DOT_COLS, fromTop % DOT_ROWS);
    }
  }

  lemma GraphDot(rows: seq<string>, samples: seq<real>, max: real, width: nat, height: nat, col: nat, h: nat)
    requires IsGraph(rows, samples, max, width, height) && col < DOT_COLS * width && h < DOT_ROWS * height
    ensures var shown := Newest(samples, DOT_COLS * width);
            Lit(rows, width, height, col, h)
            <==> Wanted(shown, max, DOT_COLS * width - |shown|, DOT_ROWS * height, col, h)
  {
    hide Raised, DotNumber, DotsFor, Newest;
  }

  /** The reading `age` places from the newest of a run is one of the 4096 kept,
      and is above `h` full steps of a scale of `dotRows` steps up to `max`. */
  predicate BarReaches(rs: seq<Reading>, age: nat, max: real, dotRows: nat, h: nat) {
    && age < |rs| && age < 4096 && max > 0.0
    && match rs[|rs| - 1 - age]
       case Finite(v) => v > 0.0 && h as real * max < v * dotRows as real
       case NotFinite => false
  }

  lemma ReadingSteps(r: Reading, max: real, dotRows: nat, h: nat)
    requires h < dotRows
    ensures h < DotsFor(Clamped(r), max, dotRows) <==>
            max > 0.0 && match r
                         case Finite(v) => v > 0.0 && h as real * max < v * dotRows as real
                         case NotFinite => false
  {
    if max > 0.0 {
      BarSteps(Clamped(r), max, dotRows, h + 1);
    }
    hide DotsFor;
  }

  /** The sample `age` places from the newest, as a wanted column sees it. */
  lemma WantedOfRun(rs: seq<Reading>, max: real, dots: nat, dotRows: nat, col: nat, h: nat)
    requires col < dots && h < dotRows
    ensures var shown := Newest(AllClamped(rs), if dots < SAMPLES then dots else SAMPLES);
            Wanted(shown, max, dots - |shown|, dotRows, col, h) <==> BarReaches(rs, dots - 1 - col, max, dotRows, h)
  {
    hide DotsFor, AllClamped, Newest, Clamped;
    var age := dots - 1 - col;
    if age < |rs| {
      ReadingSteps(rs[|rs| - 1 - age], max, dotRows, h);
    }
  }

  /** Over any run of pushes: the graph drawn from a series read with a window
      as wide as the graph or wider shows, in its column `col`, exactly the bar
      of the sample that many places from the newest. */
  lemma GraphOfRun(rs: seq<Reading>, window: nat, rows: seq<string>, max: real, width: nat, height: nat,
          col: nat, h: nat)
    requires DOT_COLS * width <= window && IsGraph(rows, Newest(Pushed(rs), window), max, width, height)
    requires col < DOT_COLS * width && h < DOT_ROWS * height
    ensures Lit(rows, width, height, col, h) <==> BarReaches(rs, DOT_COLS * width - 1 - col, max, DOT_ROWS * height, h)
  {
    hide DotsFor, Lit, Wanted, IsGraph, Pushed, Newest, AllClamped, BarReaches;
    ShownOfRun(rs, window, DOT_COLS * width);
    GraphDot(rows, Newest(Pushed(rs), window), max, width, height, col, h);
    WantedOfRun(rs, max, DOT_COLS * width, DOT_ROWS * height, col, h);
  }

  /** A series fed a run of readings, read back and drawn: every dot of the graph. */
  method DrawRun(rs: seq<Reading>, window: nat, max: real, width: nat, height: nat) returns (rows: seq<string>)
    requires DOT_COLS * width <= window
    ensures if width == 0 || height == 0 then rows == [] else IsGrid(rows, width, height)
    ensures forall col: nat, h: nat :: col < DOT_COLS * width && h < DOT_ROWS * height ==>
      (Lit(rows, width, height, col, h) <==> BarReaches(rs, DOT_COLS * width - 1 - col, max, DOT_ROWS * height, h))
  {
    hide DotsFor, Lit, Wanted, Pushed, Newest, AllClamped, BarReaches, Clamped;
    var series := new Series();
    var i := 0;
    PushedNothing();
    while i < |rs|
      invariant i <= |rs| && series.Valid() && series.samples == Pushed(rs[..i])
    {
      series.Push(rs[i]);
      PushedOneMore(rs, i);
      i := i + 1;
    }
    assert rs[..|rs|] == rs;
    var tail := series.Tail(window);
    rows := BrailleRows(tail, max, width, height);
    forall col: nat, h: nat | col < DOT_COLS * width && h < DOT_ROWS * height
      ensures Lit(rows, width, height, col, h)
         <==> BarReaches(rs, DOT_COLS * width - 1 - col, max, DOT_ROWS * height, h)
    {
      GraphOfRun(rs, window, rows, max, width, height, col, h);
    }
  }
}
