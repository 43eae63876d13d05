/** Frame geometry: the height predictor (crates/agent/src/render_layout.rs),
    the process budget, and the renderer they must agree with
    (crates/agent/src/render.rs). A rendered line is modelled by what it shows. */
module Frame {
  import opened Sizes
  import opened Basics
  import opened CoreCells
  import opened Wrappers
  import Text

  const TABLE_CHROME_ROWS := 2
  const MIN_READABLE_BAR_W := 5
  const USIZE_MAX := Text.U64_MAX
  const NET_VISIBLE_BYTES_PER_SEC := 1024.0

  datatype Snapshot = Snapshot(cores: seq<Core>, tempUnit: TempUnit, memTotal: nat, diskTotal: nat,
          rxRate: real, txRate: real, procs: seq<Proc>)

  // ------------------------------------------------------------------- geometry

  function BarLenFor(cols: nat): nat {
    var rest := Less(cols, 32);
    if rest < 4 then 4 else rest
  }

  predicate ShowsNet(rxRate: real, txRate: real) {
    rxRate > NET_VISIBLE_BYTES_PER_SEC || txRate > NET_VISIBLE_BYTES_PER_SEC
  }

  function Ceil(n: nat, d: nat): nat
    requires d > 0
  {
    (n + d - 1) / d
  }

  /** Digits of the widest core index: one for zero, else `ilog10 + 1`. */
  function IndexDigits(n: nat): (d: nat)
    ensures d > 0
  {
    if n < 10 then 1 else 1 + IndexDigits(n / 10)
  }

  datatype CoreGrid = CoreGrid(idxW: nat, barLen: nat, showBars: bool, cellW: nat, numCols: nat, rows: nat)

  function Grid(maxIdx: nat, numCores: nat, cols: nat, barLen: nat, hasTemps: bool): (g: CoreGrid)
    ensures g.numCols > 0 && g.rows == Ceil(numCores, g.numCols)
  {
    var idxW := IndexDigits(maxIdx);
    var quotient := barLen / (if numCores < 1 then 1 else numCores);
    var perCore := if quotient < 12 then quotient else 12;
    var showBars := perCore >= MIN_READABLE_BAR_W;
    var segW := idxW + 1 + (if showBars then perCore else 0) + 4 + (if hasTemps then 5 else 0);
    var cellW := segW + 1;
    var fit := Less(cols, 6) / cellW;
    var numCols := if fit < 1 then 1 else fit;
    CoreGrid(idxW, perCore, showBars, cellW, numCols, Ceil(numCores, numCols))
  }

  datatype Tier = TooSmall | Micro | Minimal | Compact | Full {
    function Rank(): nat {
      match this case TooSmall => 0 case Micro => 1 case Minimal => 2 case Compact => 3 case Full => 4
    }
  }

  function TierFor(lines: nat): Tier {
    if 1 <= lines <= 2 then TooSmall
    else if 3 <= lines <= 4 then Micro
    else if 5 <= lines <= 7 then Minimal
    else if 8 <= lines <= 11 then Compact
    else Full
  }

  function Flag(b: bool): nat {
    if b then 1 else 0
  }

  datatype Chrome = Chrome(numCores: nat, hasTemps: bool, cols: nat, mem: bool, disk: bool, net: bool,
          tier: Tier, lines: nat) {
    function CpuRows(): nat {
      if tier == Micro || tier == TooSmall then 0
      else if numCores < 2 then 1
      else Grid(numCores - 1, numCores, cols, BarLenFor(cols), hasTemps).rows
    }

    function Height(): nat {
      match tier
      case TooSmall => 1 + Flag(lines > 1)
      case Micro => 2
      case _ => 1 + CpuRows() + Flag(mem) + Flag(disk) + Flag(net)
    }

    predicate TwoColumn(n: nat) {
      cols >= TWO_COLUMN_MIN_COLS && n > 1
    }

    /** The rows that `n` processes take, the two above them counted. */
    function TableHeight(n: nat): nat {
      if n == 0 || tier.Rank() < Compact.Rank() then 0
      else TABLE_CHROME_ROWS + if TwoColumn(n) then Ceil(n, 2) else n
    }
  }

  function ChromeOf(snap: Snapshot, cols: nat, lines: nat): Chrome {
    var tier := TierFor(lines);
    Chrome(
      if tier.Rank() <= Compact.Rank() then 1 else |snap.cores|,
      HasTemps(snap.cores),
      cols,
      tier.Rank() > Micro.Rank() && snap.memTotal > 0,
      tier.Rank() > Micro.Rank() && snap.diskTotal > 0,
      tier == Full && ShowsNet(snap.rxRate, snap.txRate),
      tier,
      lines)
  }

  // ------------------------------------------------------------------ the budget

  /** `n` processes fit below the frame's own rows. */
  predicate TableFits(c: Chrome, lines: nat, n: nat) {
    c.TableHeight(n) <= Less(lines, c.Height())
  }

  /** The number of processes worth sampling for a panel of `lines`: the most that
      fit, or no bound when no height is known. */
  ghost predicate IsBudget(c: Chrome, lines: nat, n: nat) {
    if c.tier.Rank() < Compact.Rank() then n == 0
    else if lines == 0 then n == USIZE_MAX
    else TableFits(c, lines, n) && forall m :: n < m ==> !TableFits(c, lines, m)
  }

  method ProcBudget(c: Chrome, lines: nat) returns (n: nat)
    ensures IsBudget(c, lines, n)
    ensures n > 0 && lines > 0 ==> c.TableHeight(n) == Less(lines, c.Height())
  {
    if c.tier.Rank() < Compact.Rank() {
      return 0;
    }
    if lines == 0 {
      return USIZE_MAX;
    }
    var available := Less(lines, c.Height());
    if available <= TABLE_CHROME_ROWS {
      return 0;
    }
    var body: nat := available - TABLE_CHROME_ROWS;
    var estimate: nat := if c.cols >= TWO_COLUMN_MIN_COLS then body * 2 else body;
    EstimateIsMost(c, lines, body);
    n := CountDown(c, lines, estimate);
    EstimateFits(c, lines, body);
    assert TableFits(c, lines, estimate);
  }

  /** Come down from an estimate that is nowhere too low to the largest number that fits. */
  method CountDown(c: Chrome, lines: nat, estimate: nat) returns (n: nat)
    requires forall m :: estimate < m ==> !TableFits(c, lines, m)
    ensures n <= estimate && (n == 0 || TableFits(c, lines, n))
    ensures forall m :: n < m ==> !TableFits(c, lines, m)
  {
    hide Chrome.TableHeight, Chrome.Height;
    n := estimate;
    while n > 0 && c.TableHeight(n) > Less(lines, c.Height())
      invariant n <= estimate && forall m :: n < m ==> !TableFits(c, lines, m)
    {
      n := n - 1;
    }
  }

  lemma EstimateIsMost(c: Chrome, lines: nat, body: nat)
    requires c.tier.Rank() >= Compact.Rank() && Less(lines, c.Height()) == TABLE_CHROME_ROWS + body
    ensures forall m :: (if c.cols >= TWO_COLUMN_MIN_COLS then body * 2 else body) < m ==> !TableFits(c, lines, m)
  {
    hide Chrome.Height;
  }

  lemma EstimateFits(c: Chrome, lines: nat, body: nat)
    requires c.tier.Rank() >= Compact.Rank() && Less(lines, c.Height()) == TABLE_CHROME_ROWS + body && body > 0
    ensures c.TableHeight(if c.cols >= TWO_COLUMN_MIN_COLS then body * 2 else body) == Less(lines, c.Height())
  {
    hide Chrome.Height;
  }

  lemma BudgetIsUnique(c: Chrome, lines: nat, m: nat, n: nat)
    requires IsBudget(c, lines, m) && IsBudget(c, lines, n)
    ensures m == n
  {
    hide Chrome.TableHeight, Chrome.Height;
    assert c.tier.Rank() >= Compact.Rank() && lines > 0 && m < n ==> !TableFits(c, lines, n);
    assert c.tier.Rank() >= Compact.Rank() && lines > 0 && n < m ==> !TableFits(c, lines, m);
  }

  // ---------------------------------------------------------------- the renderer

  /** What a line of the frame shows. */
  datatype Row =
    | Header
    | TooSmallNote
    | Summary
    | Cores(from: nat, to: nat, width: nat)
    | CpuBar
    | MemBar
    | DiskBar
    | Net
    | Rule
    | TableHead
    | OneProc(index: nat)
    | TwoProcs(left: nat, right: nat)

  /** The grid the renderer draws: from the largest index there is. */
  function DrawnGrid(cores: seq<Core>, cols: nat, barLen: nat): CoreGrid {
    Grid(MaxIndex(cores), |cores|, cols, barLen, HasTemps(cores))
  }

  /** Each of `n` cores in order, `k` to a row, in columns of one width. */
  function CoreRows(n: nat, k: nat, from: nat, width: nat): (r: seq<Row>)
    requires k > 0 && from <= n
    ensures |r| == Ceil(n - from, k)
    decreases n - from
  {
    if from == n then []
    else
      var to := if from + k < n then from + k else n;
      CeilStep(n - from, k);
      [Cores(from, to, width)] + CoreRows(n, k, to, width)
  }

  lemma CeilStep(n: nat, k: nat)
    requires n > 0 && k > 0
    ensures Ceil(n, k) == 1 + Ceil(if n > k then n - k else 0, k)
  {
    if n > k {
      assert (n + k - 1) == (n - 1) + k;
      DivPlus(n - 1, k);
    } else {
      DivPlus(n - 1, k);
      assert (n - 1) / k == 0;
      assert (k - 1) / k == 0;
    }
  }

  lemma DivPlus(n: nat, k: nat)
    requires k > 0
    ensures (n + k) / k == n / k + 1
  {
    var q, r := n / k, n % k;
    var q', r' := (n + k) / k, (n + k) % k;
    assert n == q * k + r && n + k == q' * k + r';
    QuotientMonotone(q, q', k);
    assert (q + 1) * k == q * k + k;
    QuotientMonotone(q + 1, q', k);
  }

  method PushCoreRows(out: seq<Row>, cores: seq<Core>, cols: nat, barLen: nat) returns (r: seq<Row>)
    ensures var grid := DrawnGrid(cores, cols, barLen);
            r == out + CoreRows(|cores|, grid.numCols, 0, grid.cellW)
  {
    hide Grid, CoreRows;
    var grid := DrawnGrid(cores, cols, barLen);
    r := out;
    var i := 0;
    CoreRowsStart(|cores|, grid.numCols, grid.cellW);
    while i < |cores|
      invariant i <= |cores|
      invariant r + CoreRows(|cores|, grid.numCols, i, grid.cellW)
             == out + CoreRows(|cores|, grid.numCols, 0, grid.cellW)
    {
      CoreRowsNext(|cores|, grid.numCols, i, grid.cellW);
      var to := if i + grid.numCols < |cores| then i + grid.numCols else |cores|;
      Associate(r, [Cores(i, to, grid.cellW)], CoreRows(|cores|, grid.numCols, to, grid.cellW));
      r := r + [Cores(i, to, grid.cellW)];
      i := to;
    }
  }

  lemma CoreRowsStart(n: nat, k: nat, width: nat)
    requires k > 0
    ensures CoreRows(n, k, n, width) == []
  {
  }

  lemma CoreRowsNext(n: nat, k: nat, from: nat, width: nat)
    requires k > 0 && from < n
    ensures var to := if from + k < n then from + k else n;
            CoreRows(n, k, from, width) == [Cores(from, to, width)] + CoreRows(n, k, to, width)
  {
  }

  /** The body of the table: down the left half and then down the right, or one below the other. */
  function TableBody(n: nat, twoColumn: bool): (r: seq<Row>)
    ensures |r| == if twoColumn then Ceil(n, 2) else n
  {
    var mid := Ceil(n, 2);
    if twoColumn then seq(mid, (i: nat) => if i + mid < n then TwoProcs(i, i + mid) else OneProc(i))
    else seq(n, (i: nat) => OneProc(i))
  }

  method PushProcTable(out: seq<Row>, n: nat, cols: nat) returns (r: seq<Row>)
    ensures r == if n == 0 then out else out + [Rule, TableHead] + TableBody(n, cols >= TWO_COLUMN_MIN_COLS && n > 1)
  {
    if n == 0 {
      return out;
    }
    r := out + [Rule];
    var twoColumn := cols >= TWO_COLUMN_MIN_COLS && n > 1;
    r := r + [TableHead];
    assert r == out + [Rule, TableHead];
    ghost var head := r;
    var i := 0;
    if twoColumn {
      var mid := Ceil(n, 2);
      while i < mid
        invariant i <= mid && r == head + TableBody(n, true)[..i]
      {
        if i + mid < n {
          r := r + [TwoProcs(i, i + mid)];
        } else {
          r := r + [OneProc(i)];
        }
        i := i + 1;
      }
    } else {
      while i < n
        invariant i <= n && r == head + TableBody(n, false)[..i]
      {
        r := r + [OneProc(i)];
        i := i + 1;
      }
    }
    assert TableBody(n, twoColumn)[..|TableBody(n, twoColumn)|] == TableBody(n, twoColumn);
  }

  function RowIf(shown: bool, row: Row): seq<Row> {
    if shown then [row] else []
  }

  /** The rows for the processors: the grid, when there is room and more than one core. */
  function CpuRowsOf(snap: Snapshot, cols: nat, tier: Tier, barLen: nat): seq<Row> {
    if tier == Full && |snap.cores| >= 2 then
      var grid := DrawnGrid(snap.cores, cols, barLen);
      CoreRows(|snap.cores|, grid.numCols, 0, grid.cellW)
    else [CpuBar]
  }

  function MeterRows(snap: Snapshot, tier: Tier): seq<Row> {
    RowIf(snap.memTotal > 0, MemBar) + RowIf(snap.diskTotal > 0, DiskBar)
    + RowIf(tier == Full && ShowsNet(snap.rxRate, snap.txRate), Net)
  }

  /** The frame without its process table. */
  function OwnRows(snap: Snapshot, cols: nat, lines: nat, barLen: nat): seq<Row> {
    var tier := TierFor(lines);
    if tier == TooSmall then [Header] + RowIf(lines > 1, TooSmallNote)
    else if tier == Micro then [Header, Summary]
    else [Header] + CpuRowsOf(snap, cols, tier, barLen) + MeterRows(snap, tier)
  }

  function Table(n: nat, cols: nat): seq<Row> {
    if n == 0 then [] else [Rule, TableHead] + TableBody(n, cols >= TWO_COLUMN_MIN_COLS && n > 1)
  }

  /** How many processes a frame draws of those it has. */
  function Drawn(budget: nat, procs: nat): nat {
    if budget < procs then budget else procs
  }

  method PushMeters(out: seq<Row>, snap: Snapshot, tier: Tier) returns (r: seq<Row>)
    ensures r == out + MeterRows(snap, tier)
  {
    r := out;
    if snap.memTotal > 0 {
      r := r + [MemBar];
    }
    if snap.diskTotal > 0 {
      r := r + [DiskBar];
    }
    if tier == Full && ShowsNet(snap.rxRate, snap.txRate) {
      r := r + [Net];
    }
  }

  /** One frame. Where the grids agree its height is the predicted one, it never
      exceeds the panel by more than its own rows demand, and a positive budget
      with processes enough fills the panel. */
  method Render(snap: Snapshot, cols: nat, lines: nat, barLen: nat) returns (out: seq<Row>, ghost budget: nat)
    ensures IsBudget(ChromeOf(snap, cols, lines), lines, budget)
    ensures out == OwnRows(snap, cols, lines, barLen) + Table(Drawn(budget, |snap.procs|), cols)
    ensures (TierFor(lines) == Full ==> GridsAgree(snap.cores, cols, barLen)) ==>
      FramedAsPredicted(snap, cols, lines, budget, out)
    ensures forall i :: 0 <= i < |out| ==> CoreRowFits(out[i], snap, cols, barLen)
    ensures ShowsByHeight(snap, lines, out)
  {
    hide CoreRowFits, ShowsByHeight, OwnRows, Table, CpuRowsOf;
    out, budget := Draw(snap, cols, lines, barLen);
    if TierFor(lines) == Full ==> GridsAgree(snap.cores, cols, barLen) {
      FrameFits(snap, cols, lines, barLen, budget);
    }
    RowsFit(snap, cols, lines, barLen, Drawn(budget, |snap.procs|));
    ShownByHeight(snap, cols, lines, barLen, budget, Drawn(budget, |snap.procs|));
  }

  /** The rows of a frame, one after the other. */
  method Draw(snap: Snapshot, cols: nat, lines: nat, barLen: nat) returns (out: seq<Row>, ghost budget: nat)
    ensures IsBudget(ChromeOf(snap, cols, lines), lines, budget)
    ensures out == OwnRows(snap, cols, lines, barLen) + Table(Drawn(budget, |snap.procs|), cols)
  {
    hide Grid, CoreRows, TableBody, Chrome.Height, Chrome.CpuRows, MeterRows, DrawnGrid, TableFits;
    var chrome := ChromeOf(snap, cols, lines);
    var tier := chrome.tier;
    var n := ProcBudget(chrome, lines);
    budget := n;
    out := [Header];
    if tier == TooSmall {
      if lines > 1 {
        out := out + [TooSmallNote];
      }
    } else if tier == Micro {
      out := out + [Summary];
    } else {
      if tier == Full && |snap.cores| >= 2 {
        out := PushCoreRows(out, snap.cores, cols, barLen);
      } else {
        out := out + [CpuBar];
      }
      out := PushMeters(out, snap, tier);
      if tier.Rank() >= Compact.Rank() {
        if n > 0 && |snap.procs| > 0 {
          out := PushProcTable(out, Drawn(n, |snap.procs|), cols);
        }
      }
    }
  }

  // ------------------------------------------------- the predictor agrees with it

  /** The renderer sizes its cells for the largest core number and the bar
      length it is given, the predictor for the last core's position and the bar
      length the width calls for; both fill as many rows. */
  predicate GridsAgree(cores: seq<Core>, cols: nat, barLen: nat) {
    |cores| >= 2 ==>
      var drawn := Grid(MaxIndex(cores), |cores|, cols, barLen, HasTemps(cores)).numCols;
      var predicted := Grid(|cores| - 1, |cores|, cols, BarLenFor(cols), HasTemps(cores)).numCols;
      Ceil(|cores|, drawn) == Ceil(|cores|, predicted)
  }

  /** The renderer's own rows are the predicted height exactly when the grid of
      cores, where one is drawn, fills the rows predicted for it. */
  lemma OwnRowsAreHeight(snap: Snapshot, cols: nat, lines: nat, barLen: nat)
    ensures |OwnRows(snap, cols, lines, barLen)| == ChromeOf(snap, cols, lines).Height()
       <==> (TierFor(lines) == Full ==> GridsAgree(snap.cores, cols, barLen))
  {
    hide Grid, CoreRows, MaxIndex;
  }

  /** Cores numbered from zero without a gap, as the kernel numbers them when all are online. */
  predicate Contiguous(cores: seq<Core>) {
    forall i :: 0 <= i < |cores| ==> cores[i].index == i
  }

  lemma {:induction false} MaxOfContiguous(cores: seq<Core>)
    requires Contiguous(cores)
    ensures MaxIndex(cores) == if cores == [] then 0 else |cores| - 1
  {
    if cores == [] {
    } else {
      MaxOfContiguous(cores[..|cores| - 1]);
    }
  }

  /** Enough for agreement: the largest index has as many digits as the number of the last core. */
  predicate IndexWidthAgrees(cores: seq<Core>) {
    |cores| >= 2 ==> IndexDigits(MaxIndex(cores)) == IndexDigits(|cores| - 1)
  }

  lemma AgreeingIndices(cores: seq<Core>, cols: nat)
    requires Contiguous(cores) || IndexWidthAgrees(cores)
    ensures GridsAgree(cores, cols, BarLenFor(cols))
  {
    if Contiguous(cores) {
      MaxOfContiguous(cores);
    }
    hide IndexDigits, MaxIndex;
  }

  /** What was predicted of a frame: its lines are its height and the table's;
      it fits the panel unless its own rows do not; it fills the panel when
      there are processes to fill it with. */
  predicate FramedAsPredicted(snap: Snapshot, cols: nat, lines: nat, budget: nat, frame: seq<Row>) {
    var c := ChromeOf(snap, cols, lines);
    && |frame| == c.Height() + c.TableHeight(Drawn(budget, |snap.procs|))
    && (lines > 0 ==> |frame| <= lines || |frame| == c.Height())
    && (lines > 0 && 0 < budget <= |snap.procs| ==> |frame| == lines)
  }

  /** The number of lines emitted is the predicted height plus the table's
      exactly when the grids agree, as they do, with the bar length for the width,
      for cores numbered without gaps and for any numbers that do not widen the index. */
  lemma FrameHeight(snap: Snapshot, cols: nat, lines: nat, barLen: nat, budget: nat)
    requires IsBudget(ChromeOf(snap, cols, lines), lines, budget)
    ensures var c, shown := ChromeOf(snap, cols, lines), Drawn(budget, |snap.procs|);
            |OwnRows(snap, cols, lines, barLen) + Table(shown, cols)| == c.Height() + c.TableHeight(shown)
            <==> (TierFor(lines) == Full ==> GridsAgree(snap.cores, cols, barLen))
    ensures Contiguous(snap.cores) || IndexWidthAgrees(snap.cores) ==> GridsAgree(snap.cores, cols, BarLenFor(cols))
  {
    hide OwnRows, Chrome.Height, Chrome.TableHeight, Table, GridsAgree, Contiguous, IndexWidthAgrees;
    OwnRowsAreHeight(snap, cols, lines, barLen);
    TableIsTableHeight(snap, cols, lines, budget);
    if Contiguous(snap.cores) || IndexWidthAgrees(snap.cores) {
      AgreeingIndices(snap.cores, cols);
    }
  }

  lemma TableIsTableHeight(snap: Snapshot, cols: nat, lines: nat, budget: nat)
    requires IsBudget(ChromeOf(snap, cols, lines), lines, budget)
    ensures var c, shown := ChromeOf(snap, cols, lines), Drawn(budget, |snap.procs|);
            |Table(shown, cols)| == c.TableHeight(shown)
  {
    hide Chrome.Height;
  }

  /** With the grids in agreement, the frame is as predicted. */
  lemma FrameFits(snap: Snapshot, cols: nat, lines: nat, barLen: nat, budget: nat)
    requires TierFor(lines) == Full ==> GridsAgree(snap.cores, cols, barLen)
    requires IsBudget(ChromeOf(snap, cols, lines), lines, budget)
    ensures FramedAsPredicted(snap, cols, lines, budget,
                              OwnRows(snap, cols, lines, barLen) + Table(Drawn(budget, |snap.procs|), cols))
  {
    hide OwnRows, Table, Chrome.Height, Chrome.TableHeight, GridsAgree;
    FrameHeight(snap, cols, lines, barLen, budget);
    if lines > 0 {
      FittingTable(ChromeOf(snap, cols, lines), lines, budget, Drawn(budget, |snap.procs|));
    }
  }

  /** Any part of the budget fits, and the whole of a positive one fills the panel. */
  lemma FittingTable(c: Chrome, lines: nat, budget: nat, shown: nat)
    requires IsBudget(c, lines, budget) && lines > 0 && shown <= budget
    ensures c.TableHeight(shown) == 0 || c.Height() + c.TableHeight(shown) <= lines
    ensures budget > 0 ==> c.Height() + c.TableHeight(budget) == lines
  {
    hide Chrome.Height;
    if c.tier.Rank() >= Compact.Rank() {
      TableGrows(c, shown, budget);
      if budget > 0 {
        TableGrowsByOne(c, budget);
        assert !TableFits(c, lines, budget + 1);
        assert !TableFits(c, lines, budget + 2);
      }
    }
  }

  lemma TableGrows(c: Chrome, m: nat, n: nat)
    requires m <= n
    ensures c.TableHeight(m) <= c.TableHeight(n)
  {
  }

  /** Past the first, two more processes make a table exactly one row taller, or two. */
  lemma TableGrowsByOne(c: Chrome, n: nat)
    requires n > 0
    ensures c.TableHeight(n + 1) <= c.TableHeight(n) + 1
  {
  }

  /** Two cores numbered 0 and 100 in a panel of 20 columns: the renderer
      measures the second number, the predictor counts two cores, and the frame
      comes out one line taller than predicted. */
  lemma SparseCoresOutgrowThePrediction()
    ensures var snap := Snapshot([Core(0, "7", 0, None), Core(100, "7", 0, None)], C, 0, 0, 0.0, 0.0, []);
            |OwnRows(snap, 20, 12, BarLenFor(20))| == ChromeOf(snap, 20, 12).Height() + 1
  {
    var snap := Snapshot([Core(0, "7", 0, None), Core(100, "7", 0, None)], C, 0, 0, 0.0, 0.0, []);
    SparseGrids(snap.cores);
    hide Grid, CoreRows, MaxIndex;
  }

  lemma SparseGrids(cores: seq<Core>)
    requires cores == [Core(0, "7", 0, None), Core(100, "7", 0, None)]
    ensures DrawnGrid(cores, 20, 4).rows == 2 && Grid(1, 2, 20, 4, false).rows == 1
  {
    assert cores[..1] == [Core(0, "7", 0, None)] && cores[..1][..0] == [];
    assert MaxIndex(cores[..1]) == 0 && MaxIndex(cores) == 100;
    assert IndexDigits(10) == 2 && IndexDigits(100) == 3;
    hide MaxIndex, IndexDigits;
    assert Grid(100, 2, 20, 4, false).numCols == 1;
    assert Grid(1, 2, 20, 4, false).numCols == 2 by {
      OneDigit();
    }
  }

  lemma OneDigit()
    ensures IndexDigits(1) == 1
  {
  }

  // ------------------------------------------------------- what a frame shows when

  /** Which rows a height calls for, whatever they are called: a note in one or
      two lines, a summary up to four, no table up to seven, and everything from
      twelve on or when no height is known. */
  ghost predicate ShowsByHeight(snap: Snapshot, lines: nat, out: seq<Row>) {
    var all := lines == 0 || lines >= 12;
    && out != [] && out[0] == Header
    && (lines == 1 ==> out == [Header])
    && (lines == 2 ==> out == [Header, TooSmallNote])
    && (3 <= lines <= 4 ==> out == [Header, Summary])
    && (5 <= lines <= 7 ==> Rule !in out)
    && (all || lines >= 5 ==>
          && (MemBar in out <==> snap.memTotal > 0) && (DiskBar in out <==> snap.diskTotal > 0)
          && (Net in out <==> all && (snap.rxRate > 1024.0 || snap.txRate > 1024.0))
          && (CpuBar in out <==> !all || |snap.cores| < 2))
  }

  lemma {:induction false} OnlyCores(n: nat, k: nat, from: nat, width: nat)
    requires k > 0 && from <= n
    ensures forall i :: 0 <= i < |CoreRows(n, k, from, width)| ==> CoreRows(n, k, from, width)[i].Cores?
    decreases n - from
  {
    if from < n {
      CoreRowsNext(n, k, from, width);
      OnlyCores(n, k, if from + k < n then from + k else n, width);
    }
  }

  lemma OnlyProcs(n: nat, twoColumn: bool)
    ensures forall i :: 0 <= i < |TableBody(n, twoColumn)| ==>
      TableBody(n, twoColumn)[i].OneProc? || TableBody(n, twoColumn)[i].TwoProcs?
  {
  }

  lemma OwnShowsByHeight(snap: Snapshot, cols: nat, lines: nat, barLen: nat)
    ensures ShowsByHeight(snap, lines, OwnRows(snap, cols, lines, barLen))
  {
    hide MeterRows, CpuRowsOf, ShowsNet;
    MetersShow(snap, TierFor(lines));
    CpuShows(snap, cols, TierFor(lines), barLen);
    ShowsNetAbove(snap.rxRate, snap.txRate);
    var cpu, meters := CpuRowsOf(snap, cols, TierFor(lines), barLen), MeterRows(snap, TierFor(lines));
    if lines == 0 || lines >= 5 {
      assert OwnRows(snap, cols, lines, barLen) == [Header] + cpu + meters;
    }
  }

  lemma ShowsNetAbove(rxRate: real, txRate: real)
    ensures ShowsNet(rxRate, txRate) <==> rxRate > 1024.0 || txRate > 1024.0
  {
  }

  lemma MetersShow(snap: Snapshot, tier: Tier)
    ensures var meters := MeterRows(snap, tier);
            && (MemBar in meters <==> snap.memTotal > 0) && (DiskBar in meters <==> snap.diskTotal > 0)
            && (Net in meters <==> tier == Full && ShowsNet(snap.rxRate, snap.txRate))
            && CpuBar !in meters && Rule !in meters
  {
    hide ShowsNet;
  }

  lemma CpuShows(snap: Snapshot, cols: nat, tier: Tier, barLen: nat)
    ensures var cpu := CpuRowsOf(snap, cols, tier, barLen);
            && (CpuBar in cpu <==> tier != Full || |snap.cores| < 2)
            && MemBar !in cpu && DiskBar !in cpu && Net !in cpu && Rule !in cpu
  {
    hide CoreRows, Grid;
    var grid := DrawnGrid(snap.cores, cols, barLen);
    OnlyCores(|snap.cores|, grid.numCols, 0, grid.cellW);
  }

  /** A table adds rows of its own kinds only. */
  lemma TableAddsNoMeter(own: seq<Row>, table: seq<Row>, row: Row)
    requires forall i :: 0 <= i < |table| ==>
      table[i].Rule? || table[i].TableHead? || table[i].OneProc? || table[i].TwoProcs?
    ensures row in {MemBar, DiskBar, Net, CpuBar} ==> (row in own + table <==> row in own)
  {
  }

  lemma TableRows(shown: nat, cols: nat)
    ensures forall i :: 0 <= i < |Table(shown, cols)| ==>
      var r := Table(shown, cols)[i]; r.Rule? || r.TableHead? || r.OneProc? || r.TwoProcs?
  {
    hide TableBody;
    OnlyProcs(shown, cols >= TWO_COLUMN_MIN_COLS && shown > 1);
  }

  lemma ShownByHeight(snap: Snapshot, cols: nat, lines: nat, barLen: nat, budget: nat, shown: nat)
    requires IsBudget(ChromeOf(snap, cols, lines), lines, budget) && shown <= budget
    ensures ShowsByHeight(snap, lines, OwnRows(snap, cols, lines, barLen) + Table(shown, cols))
  {
    hide OwnRows, TableBody, Chrome.Height, Chrome.TableHeight, TableFits;
    OwnShowsByHeight(snap, cols, lines, barLen);
    TableRows(shown, cols);
    var own, table := OwnRows(snap, cols, lines, barLen), Table(shown, cols);
    if 1 <= lines <= 7 {
      assert table == [] && own + table == own;
    } else {
      hide Table;
      TableAddsNoMeter(own, table, MemBar);
      TableAddsNoMeter(own, table, DiskBar);
      TableAddsNoMeter(own, table, Net);
      TableAddsNoMeter(own, table, CpuBar);
    }
  }

  // --------------------------------------------------------- core rows fit the panel

  lemma {:induction false} IndexDigitsAreDecimal(n: nat)
    ensures IndexDigits(n) == |Text.Decimal(n)|
  {
    if n >= 10 {
      IndexDigitsAreDecimal(n / 10);
    }
  }

  /** The grid's columns hold the widest cell and a gap, and as many of them
      stand in a row as fit after the label with a column to spare, or one. */
  lemma GridHoldsCells(cores: seq<Core>, cols: nat, barLen: nat, unit: TempUnit)
    ensures var g := DrawnGrid(cores, cols, barLen);
            && g.cellW == |WidestCell(cores, barLen, unit)| + 1
            && (g.numCols == 1 || 6 + g.numCols * g.cellW <= cols)
            && 6 + (g.numCols + 1) * g.cellW > cols
  {
    hide IndexDigits, MaxIndex, HasTemps, WidestCell;
    IndexDigitsAreDecimal(MaxIndex(cores));
    WidestLength(cores, barLen, unit);
    GridColumns(MaxIndex(cores), |cores|, cols, barLen, HasTemps(cores));
  }

  lemma GridColumns(maxIdx: nat, n: nat, cols: nat, barLen: nat, hasTemps: bool)
    ensures var g := Grid(maxIdx, n, cols, barLen, hasTemps);
            && g.cellW > 0 && (g.numCols == 1 || 6 + g.numCols * g.cellW <= cols)
            && 6 + (g.numCols + 1) * g.cellW > cols
  {
    hide IndexDigits;
    var w := Grid(maxIdx, n, cols, barLen, hasTemps).cellW;
    var fit := Less(cols, 6) / w;
    assert Grid(maxIdx, n, cols, barLen, hasTemps).numCols == if fit < 1 then 1 else fit;
    hide Grid;
    QuotientFits(Less(cols, 6), w, fit);
    if fit == 0 {
      assert (1 + 1) * w == w + w;
    }
  }

  lemma QuotientFits(n: nat, d: nat, q: nat)
    requires d > 0 && q == n / d
    ensures q * d <= n < (q + 1) * d
  {
    assert n == q * d + n % d;
    assert (q + 1) * d == q * d + d;
  }

  /** A row of cores: every cell has its column with a gap after it, the row is
      no wider than the panel as soon as one cell fits beside the label, and a
      row that is not the last has no room for one column more. */
  ghost predicate CoreRowFits(r: Row, snap: Snapshot, cols: nat, barLen: nat) {
    r.Cores? ==>
      && r.from < r.to <= |snap.cores|
      && (forall i :: r.from <= i < r.to && Ordinary(snap.cores[i]) ==>
            |CellText(snap.cores[i], snap.cores, barLen, snap.tempUnit)| < r.width)
      && (AllOrdinary(snap.cores) && |LABEL| + |WidestCell(snap.cores, barLen, snap.tempUnit)| <= cols ==>
            |RowText(snap.cores, r.from, r.to, r.width, barLen, snap.tempUnit)| <= cols)
      && (r.to < |snap.cores| ==> 6 + (r.to - r.from + 1) * r.width > cols)
  }

  lemma OneRowFits(snap: Snapshot, cols: nat, barLen: nat, row: nat)
    requires var grid := DrawnGrid(snap.cores, cols, barLen);
             row < |CoreRows(|snap.cores|, grid.numCols, 0, grid.cellW)|
    ensures var grid := DrawnGrid(snap.cores, cols, barLen);
            CoreRowFits(CoreRows(|snap.cores|, grid.numCols, 0, grid.cellW)[row], snap, cols, barLen)
  {
    hide Grid, CoreRows, CellText, WidestCell, RowText, HasTemps, MaxIndex;
    var grid := DrawnGrid(snap.cores, cols, barLen);
    var r := CoreRows(|snap.cores|, grid.numCols, 0, grid.cellW)[row];
    CoreRowsTile(|snap.cores|, grid.numCols, 0, grid.cellW, row);
    RowStarts(row, grid.numCols);
    hide RowStart;
    GridHoldsCells(snap.cores, cols, barLen, snap.tempUnit);
    forall i | r.from <= i < r.to && Ordinary(snap.cores[i])
      ensures |CellText(snap.cores[i], snap.cores, barLen, snap.tempUnit)| < r.width
    {
      CellLeavesGap(snap.cores, i, r.width, barLen, snap.tempUnit);
    }
    if AllOrdinary(snap.cores) && |LABEL| + |WidestCell(snap.cores, barLen, snap.tempUnit)| <= cols {
      FewerColumns(r.to - r.from, grid.numCols, r.width);
      RowFits(snap.cores, r.from, r.to, r.width, cols, barLen, snap.tempUnit);
    }
  }

  lemma FewerColumns(m: nat, n: nat, width: nat)
    requires m <= n
    ensures m * width <= n * width
  {
  }

  lemma RowsFit(snap: Snapshot, cols: nat, lines: nat, barLen: nat, shown: nat)
    ensures var out := OwnRows(snap, cols, lines, barLen) + Table(shown, cols);
            forall i :: 0 <= i < |out| ==> CoreRowFits(out[i], snap, cols, barLen)
  {
    hide CoreRows, TableBody, Grid, CellText, WidestCell, RowText;
    OnlyProcs(shown, cols >= TWO_COLUMN_MIN_COLS && shown > 1);
    var grid := DrawnGrid(snap.cores, cols, barLen);
    var rows := CoreRows(|snap.cores|, grid.numCols, 0, grid.cellW);
    forall i | 0 <= i < |rows|
      ensures CoreRowFits(rows[i], snap, cols, barLen)
    {
      OneRowFits(snap, cols, barLen, i);
    }
    hide CoreRowFits;
  }

  /** The spare column and the last gap are not always needed: in 28 columns two
      cells of eleven would stand in one row, and are given two. */
  lemma RoomToSpare(cores: seq<Core>)
    requires cores == [Core(0, "7", 0, Some("40")), Core(1, "7", 0, Some("41"))]
    ensures DrawnGrid(cores, 28, 4).rows == 2 && BarLenFor(28) == 4
    ensures |RowText(cores, 0, 2, DrawnGrid(cores, 28, 4).cellW, 4, C)| == 28
  {
    hide Grid, RowText, MaxIndex, HasTemps, CellText, WidestCell, BarCells;
    TwoCores(cores);
    SpareGrid();
    SpareCell(cores);
    RowWidth(cores, 0, 2, 12, 4, C);
  }

  lemma TwoCores(cores: seq<Core>)
    requires |cores| == 2 && cores[0].index == 0 && cores[1].index == 1 && cores[0].degrees.Some?
    ensures MaxIndex(cores) == 1 && HasTemps(cores)
  {
    assert cores[..1][..0] == [];
    assert MaxIndex(cores[..1]) == 0;
  }

  lemma SpareGrid()
    ensures var g := Grid(1, 2, 28, 4, true); g.rows == 2 && g.cellW == 12
  {
    OneDigit();
    hide IndexDigits;
  }

  lemma SpareCell(cores: seq<Core>)
    requires |cores| == 2 && MaxIndex(cores) == 1 && HasTemps(cores)
    requires |cores[1].percent| <= 3 && cores[1].degrees.Some? && |cores[1].degrees.value| == 2
    ensures |WidestCell(cores, 4, C)| == 11 && |CellText(cores[1], cores, 4, C)| == 11
  {
    hide MaxIndex, HasTemps, CellText, WidestCell;
    WidestLength(cores, 4, C);
    CellLength(cores, 1, 4, C);
    assert |Text.Decimal(1)| == 1;
  }

  // -------------------------------------------------------------------- meter rows

  /** A memory or disk row: its label, a bar between brackets, the percentage and the two sizes. */
  function MeterText(name: string, filled: nat, percent: string, used: nat, total: nat, barLen: nat): string {
    " " + name + " [" + BarText(filled, barLen) + "] " + PadLeft(percent, 3) + "% "
    + PadRight(FmtSize(used) + "/" + FmtSize(total), 2 * SIZE_W + 1)
  }

  /** With the bar length for its width a meter row fills the panel to the last
      column, from 36 columns on; below that it is 36 wide. */
  lemma MeterFillsPanel(name: string, filled: nat, percent: string, used: nat, total: nat, cols: nat)
    requires |name| == 3 && |percent| <= 3 && used < SIZE_MAX && total < SIZE_MAX
    ensures |MeterText(name, filled, percent, used, total, BarLenFor(cols))| == if cols < 36 then 36 else cols
  {
    SizeFitsColumn(used);
    SizeFitsColumn(total);
    hide FmtSize;
  }

  // -------------------------------------------------------- nothing is drawn twice

  /** The processes a row shows, left to right. */
  function ProcsOf(r: Row): seq<nat> {
    match r
    case OneProc(i) => [i]
    case TwoProcs(i, j) => [i, j]
    case _ => []
  }

  /** The row of the table that a process stands on. */
  function RowOf(n: nat, twoColumn: bool, p: nat): nat {
    if twoColumn && p >= Ceil(n, 2) then p - Ceil(n, 2) else p
  }

  /** Every process of the table stands on exactly one row, and none that is not of the table on any. */
  lemma EachProcOnce(n: nat, twoColumn: bool, row: nat, p: nat)
    requires row < |TableBody(n, twoColumn)|
    ensures p in ProcsOf(TableBody(n, twoColumn)[row]) <==> p < n && row == RowOf(n, twoColumn, p)
  {
    var r := TableBody(n, twoColumn)[row];
    if twoColumn {
      assert r == if row + Ceil(n, 2) < n then TwoProcs(row, row + Ceil(n, 2)) else OneProc(row);
    } else {
      assert r == OneProc(row);
    }
  }

  /** Where row `row` of rows of `k` begins. */
  function RowStart(row: nat, k: nat): nat {
    row * k
  }

  lemma RowStarts(row: nat, k: nat)
    ensures RowStart(0, k) == 0 && RowStart(row + 1, k) == RowStart(row, k) + k
  {
  }

  /** The core rows run through the cores in order without a gap, never more than `k` to a row. */
  lemma {:induction false} CoreRowsTile(n: nat, k: nat, from: nat, width: nat, row: nat)
    requires k > 0 && from <= n && row < |CoreRows(n, k, from, width)|
    ensures CoreRows(n, k, from, width)[row].Cores?
    ensures var r := CoreRows(n, k, from, width)[row];
            && r.from == from + RowStart(row, k) < r.to && r.width == width
            && r.to == if from + RowStart(row + 1, k) < n then from + RowStart(row + 1, k) else n
    decreases row
  {
    hide CoreRows, RowStart;
    CoreRowsNonEmpty(n, k, from, width);
    CoreRowsNext(n, k, from, width);
    RowStarts(row, k);
    var to := if from + k < n then from + k else n;
    if row > 0 {
      RowStarts(row - 1, k);
      CoreRowsTile(n, k, to, width, row - 1);
      CoreRowsNonEmpty(n, k, to, width);
    }
  }

  lemma CoreRowsNonEmpty(n: nat, k: nat, from: nat, width: nat)
    requires k > 0 && from <= n
    ensures CoreRows(n, k, from, width) == [] <==> from == n
  {
    CoreRowsStart(n, k, width);
    if from < n {
      CoreRowsNext(n, k, from, width);
    }
  }
}
