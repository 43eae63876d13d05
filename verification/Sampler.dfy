/** The process sampler between ticks: `prime`, `top_into` and `fill_names` of
    crates/agent/src/proc.rs. A scan of the host is given as the rows it found. */
module Sampler {
  import opened Sorting

  datatype PidSample = PidSample(ticks: nat, starttime: nat)

  datatype Raw = Raw(pid: nat, comm: string, statComm: string, ticks: nat, starttime: nat, rssPages: nat)

  datatype Proc = Proc(pid: nat, name: string, cpu: real, mem: nat)

  datatype SortBy = Cpu | Mem

  /** Clock ticks a second. */
  type Rate = r: real | r > 0.0 witness 100.0

  /** The kernel lists every process once. */
  predicate DistinctPids(found: seq<Raw>) {
    forall i, j :: 0 <= i < j < |found| ==> found[i].pid != found[j].pid
  }

  function SampleOf(s: Raw): PidSample {
    PidSample(s.ticks, s.starttime)
  }

  /** A scan as a baseline: each pid with its ticks and start time. */
  function ScanMap(found: seq<Raw>): (m: map<nat, PidSample>)
  {
    if found == [] then map[] else ScanMap(found[..|found| - 1])[found[|found| - 1].pid := SampleOf(found[|found| - 1])]
  }

  lemma {:induction false} ScanMapKeys(found: seq<Raw>)
    ensures forall pid :: pid in ScanMap(found) <==> exists i :: 0 <= i < |found| && found[i].pid == pid
  {
    if found == [] {
    } else {
      var front, last := found[..|found| - 1], found[|found| - 1];
      ScanMapKeys(front);
      forall pid
        ensures pid in ScanMap(found) <==> exists i :: 0 <= i < |found| && found[i].pid == pid
      {
        if i :| 0 <= i < |found| && found[i].pid == pid {
          assert i < |front| ==> front[i].pid == pid;
        }
        if pid in ScanMap(front) {
          var i :| 0 <= i < |front| && front[i].pid == pid;
          assert found[i].pid == pid;
        }
        assert pid == last.pid ==> found[|found| - 1].pid == pid;
      }
    }
  }

  lemma {:induction false} ScanMapAt(found: seq<Raw>, i: nat)
    requires DistinctPids(found) && i < |found|
    ensures found[i].pid in ScanMap(found) && ScanMap(found)[found[i].pid] == SampleOf(found[i])
  {
    var last := |found| - 1;
    if i < last {
      ScanMapAt(found[..last], i);
      assert found[..last][i] == found[i];
    }
  }

  // ------------------------------------------------------------------ the figures

  /** The share of one core a process has used since the baseline, in percent:
      nothing unless the same process was there. */
  function CpuOf(prev: map<nat, PidSample>, s: Raw, elapsed: real, clkTck: Rate): real
  {
    if s.pid in prev && prev[s.pid].starttime == s.starttime && elapsed > 0.0 then
      (if s.ticks < prev[s.pid].ticks then 0 else s.ticks - prev[s.pid].ticks) as real / clkTck / elapsed * 100.0
    else 0.0
  }

  /** `p` of the scan before is the same process as `s`, and `s` has run since. */
  predicate RanSince(p: Raw, s: Raw) {
    p.pid == s.pid && p.starttime == s.starttime && p.ticks < s.ticks
  }

  lemma BaselineHolds(previous: seq<Raw>, s: Raw)
    requires DistinctPids(previous)
    ensures var prev := ScanMap(previous);
            (s.pid in prev && prev[s.pid].starttime == s.starttime && prev[s.pid].ticks < s.ticks) <==>
            exists p :: p in previous && RanSince(p, s)
  {
    ScanMapKeys(previous);
    hide ScanMap;
    var prev := ScanMap(previous);
    forall i | 0 <= i < |previous|
      ensures previous[i].pid in prev && prev[previous[i].pid] == SampleOf(previous[i])
    {
      ScanMapAt(previous, i);
    }
    if s.pid in prev && prev[s.pid].starttime == s.starttime && prev[s.pid].ticks < s.ticks {
      var i :| 0 <= i < |previous| && previous[i].pid == s.pid;
      assert previous[i] in previous && RanSince(previous[i], s);
    }
  }

  /** A figure is above zero exactly when the baseline scan held the same
      process, with the same start time and fewer ticks, and time has passed. */
  lemma CpuComesFromPreviousScan(previous: seq<Raw>, s: Raw, elapsed: real, clkTck: Rate)
    requires DistinctPids(previous)
    ensures CpuOf(ScanMap(previous), s, elapsed, clkTck) >= 0.0
    ensures CpuOf(ScanMap(previous), s, elapsed, clkTck) > 0.0 <==>
            elapsed > 0.0 && exists p :: p in previous && RanSince(p, s)
  {
    hide ScanMap, RanSince;
    BaselineHolds(previous, s);
    var prev := ScanMap(previous);
    if s.pid in prev && prev[s.pid].starttime == s.starttime && elapsed > 0.0 {
      var d := (if s.ticks < prev[s.pid].ticks then 0 else s.ticks - prev[s.pid].ticks) as real;
      QuotientSign(d, clkTck);
      QuotientSign(d / clkTck, elapsed);
    }
  }

  lemma QuotientSign(x: real, y: real)
    requires x >= 0.0 && y > 0.0
    ensures x / y >= 0.0 && (x / y > 0.0 <==> x > 0.0)
  {
    assert x / y * y == x;
  }

  // ---------------------------------------------------------------------- the table

  /** One candidate row: its place in the scan and its two metrics. */
  datatype Row = Row(pid: nat, at: nat, cpu: real, mem: nat)

  function RowsOf(prev: map<nat, PidSample>, found: seq<Raw>, elapsed: real, clkTck: Rate, pageSize: nat): (r: seq<Row>)
    ensures |r| == |found|
    ensures forall i :: 0 <= i < |found| ==>
      r[i] == Row(found[i].pid, i, CpuOf(prev, found[i], elapsed, clkTck), found[i].rssPages * pageSize)
  {
    seq(|found|, i requires 0 <= i < |found| =>
          Row(found[i].pid, i, CpuOf(prev, found[i], elapsed, clkTck), found[i].rssPages * pageSize))
  }

  /** The order of the table: by the chosen metric, then by the other, both
      from the top, then by pid. */
  predicate Ranks(sortBy: SortBy, a: Row, b: Row) {
    match sortBy
    case Cpu => a.cpu > b.cpu || (a.cpu == b.cpu && (a.mem > b.mem || (a.mem == b.mem && a.pid <= b.pid)))
    case Mem => a.mem > b.mem || (a.mem == b.mem && (a.cpu > b.cpu || (a.cpu == b.cpu && a.pid <= b.pid)))
  }

  function Order(sortBy: SortBy): (Row, Row) -> bool {
    (a: Row, b: Row) => Ranks(sortBy, a, b)
  }

  lemma RanksIsOrder(sortBy: SortBy)
    ensures TotalPreorder(Order(sortBy))
  {
  }

  function Shown(row: Row, found: seq<Raw>, readComm: nat -> string): Proc
    requires row.at < |found|
  {
    var s := found[row.at];
    Proc(s.pid, if s.comm == [] then readComm(s.pid) else s.comm, row.cpu, row.mem)
  }

  ghost predicate IsSorted(order: seq<Row>, rows: seq<Row>, sortBy: SortBy) {
    multiset(order) == multiset(rows) && Ordered(order, Order(sortBy))
  }

  ghost predicate Draws(order: seq<Row>, n: nat, found: seq<Raw>, readComm: nat -> string, out: seq<Proc>) {
    && |out| == (if n < |order| then n else |order|)
    && forall i :: 0 <= i < |out| ==> order[i].at < |found| && out[i] == Shown(order[i], found, readComm)
  }

  /** `out` draws the first `n` candidates of the order: every other one ranks after each of them. */
  ghost predicate IsTop(rows: seq<Row>, sortBy: SortBy, n: nat, found: seq<Raw>, readComm: nat -> string,
          out: seq<Proc>)
  {
    exists order :: IsSorted(order, rows, sortBy) && Draws(order, n, found, readComm, out)
  }

  /** With distinct pids no two candidates tie. */
  lemma RowsDoNotTie(rows: seq<Row>, found: seq<Raw>, order: seq<Row>, sortBy: SortBy)
    requires DistinctPids(found) && |rows| == |found|
    requires forall i :: 0 <= i < |rows| ==> rows[i].pid == found[i].pid
    requires multiset(order) == multiset(rows)
    ensures NoTies(order, Order(sortBy))
  {
    var le := Order(sortBy);
    forall i, j | 0 <= i < |order| && 0 <= j < |order| && le(order[i], order[j]) && le(order[j], order[i])
      ensures order[i] == order[j]
    {
      PermutedElement(order, rows, i);
      PermutedElement(order, rows, j);
      var k :| 0 <= k < |rows| && rows[k] == order[i];
      var l :| 0 <= l < |rows| && rows[l] == order[j];
      assert found[k].pid == found[l].pid;
    }
  }

  /** With distinct pids there is only one such table. */
  lemma TopIsUnique(rows: seq<Row>, sortBy: SortBy, n: nat, found: seq<Raw>, readComm: nat -> string,
          a: seq<Proc>, b: seq<Proc>)
    requires DistinctPids(found) && |rows| == |found|
    requires forall i :: 0 <= i < |rows| ==> rows[i].pid == found[i].pid
    requires IsTop(rows, sortBy, n, found, readComm, a) && IsTop(rows, sortBy, n, found, readComm, b)
    ensures a == b
  {
    hide Ranks, Order;
    var x :| IsSorted(x, rows, sortBy) && Draws(x, n, found, readComm, a);
    var y :| IsSorted(y, rows, sortBy) && Draws(y, n, found, readComm, b);
    RowsDoNotTie(rows, found, x, sortBy);
    OrderedIsUnique(x, y, Order(sortBy));
  }

  // ------------------------------------------------------------------ the sampler

  lemma NothingScanned(prev: map<nat, PidSample>)
    ensures prev == prev + ScanMap([])
  {
  }

  /** One process measured: the processes of the same scan before it have not touched its baseline. */
  lemma BaselineStep(prev: map<nat, PidSample>, found: seq<Raw>, i: nat, elapsed: real, clkTck: Rate)
    requires DistinctPids(found) && i < |found|
    ensures CpuOf(prev + ScanMap(found[..i]), found[i], elapsed, clkTck) == CpuOf(prev, found[i], elapsed, clkTck)
    ensures prev + ScanMap(found[..i + 1]) == (prev + ScanMap(found[..i]))[found[i].pid := SampleOf(found[i])]
  {
    ScanMapKeys(found[..i]);
    assert found[..i + 1][..i] == found[..i];
  }

  lemma SortIsSorted(rows: seq<Row>, sortBy: SortBy)
    ensures IsSorted(Sort(rows, Order(sortBy)), rows, sortBy) && multiset(Sort(rows, Order(sortBy))) == multiset(rows)
  {
    hide Ranks, Order;
    RanksIsOrder(sortBy);
    SortPermutes(rows, Order(sortBy));
    SortOrders(rows, Order(sortBy));
  }

  lemma RowsStandInScan(prev: map<nat, PidSample>, found: seq<Raw>, elapsed: real, clkTck: Rate, pageSize: nat)
    ensures var rows := RowsOf(prev, found, elapsed, clkTck, pageSize);
            forall i :: 0 <= i < |rows| ==> rows[i].at < |found|
  {
  }

  lemma OrderStandsInScan(order: seq<Row>, rows: seq<Row>, n: nat)
    requires multiset(order) == multiset(rows) && forall i :: 0 <= i < |rows| ==> rows[i].at < n
    ensures forall i :: 0 <= i < |order| ==> order[i].at < n
  {
    forall i | 0 <= i < |order|
      ensures order[i].at < n
    {
      PermutedElement(order, rows, i);
    }
  }

  /** Keep the first `n` of the order and draw each. */
  method DrawRows(order: seq<Row>, n: nat, found: seq<Raw>, ghost rows: seq<Row>, readComm: nat -> string)
    returns (out: seq<Proc>)
    requires multiset(order) == multiset(rows) && forall i :: 0 <= i < |rows| ==> rows[i].at < |found|
    ensures Draws(order, n, found, readComm, out)
  {
    hide Shown;
    OrderStandsInScan(order, rows, |found|);
    var kept := if n < |order| then order[..n] else order;
    out := [];
    var i := 0;
    while i < |kept|
      invariant i <= |kept| && |out| == i
      invariant forall k :: 0 <= k < i ==> order[k].at < |found| && out[k] == Shown(order[k], found, readComm)
    {
      out := out + [Shown(kept[i], found, readComm)];
      i := i + 1;
    }
  }

  class ProcSampler {
    var prev: map<nat, PidSample>
    var scanned: seq<Raw>
    const clkTck: Rate
    const pageSize: nat

    /** `sysconf` answers, with the fallbacks the source has for them. */
    constructor (clkTck: int, pageSize: int)
      ensures prev == map[] && scanned == []
      ensures this.clkTck == (if clkTck > 0 then clkTck as real else 100.0)
      ensures this.pageSize == if pageSize > 0 then pageSize else 4096
    {
      prev, scanned := map[], [];
      this.clkTck := if clkTck > 0 then clkTck as real else 100.0;
      this.pageSize := if pageSize > 0 then pageSize else 4096;
    }

    /** Take a first scan to measure the next one against. */
    method Prime(found: seq<Raw>)
      modifies this
      ensures scanned == found && prev == ScanMap(found)
    {
      scanned := found;
      prev := map[];
      var i := 0;
      while i < |scanned|
        invariant i <= |scanned| && scanned == found
        invariant prev == ScanMap(found[..i])
      {
        assert found[..i + 1][..i] == found[..i];
        prev := prev[scanned[i].pid := PidSample(scanned[i].ticks, scanned[i].starttime)];
        i := i + 1;
      }
      assert found[..|found|] == found;
    }

    /** The candidate rows of one scan, the baseline moving on as they are made. */
    method Measure(found: seq<Raw>, elapsed: real) returns (rows: seq<Row>)
      requires DistinctPids(found)
      modifies this`prev
      ensures rows == RowsOf(old(prev), found, elapsed, clkTck, pageSize)
      ensures prev == old(prev) + ScanMap(found)
    {
      hide CpuOf, ScanMap;
      ghost var all := RowsOf(prev, found, elapsed, clkTck, pageSize);
      rows := [];
      var i := 0;
      NothingScanned(prev);
      while i < |found|
        invariant i <= |found|
        invariant rows == all[..i]
        invariant prev == old(prev) + ScanMap(found[..i])
      {
        var s := found[i];
        BaselineStep(old(prev), found, i, elapsed, clkTck);
        var cpu := CpuOf(prev, s, elapsed, clkTck);
        prev := prev[s.pid := PidSample(s.ticks, s.starttime)];
        rows := rows + [Row(s.pid, i, cpu, s.rssPages * pageSize)];
        i := i + 1;
      }
      assert found[..|found|] == found;
    }

    /** One tick: the `n` rows that rank first since the scan before, `elapsed`
        seconds ago; this scan is the next one's baseline. */
    method TopInto(found: seq<Raw>, elapsed: real, n: nat, sortBy: SortBy, readComm: nat -> string)
      returns (out: seq<Proc>)
      requires DistinctPids(found)
      modifies this
      ensures scanned == found && prev == ScanMap(found)
      ensures IsTop(RowsOf(old(prev), found, elapsed, clkTck, pageSize), sortBy, n, found, readComm, out)
      ensures forall previous :: DistinctPids(previous) && old(prev) == ScanMap(previous) ==>
        MeasuredSince(previous, Tick(found, elapsed, n, sortBy), clkTck, pageSize, readComm, out)
    {
      hide RowsOf, ScanMap, IsSorted, Draws, Order, MeasuredSince, DistinctPids;
      var rows := Measure(found, elapsed);
      ghost var was := old(prev);
      Forget(found, was);
      var order := Sort(rows, Order(sortBy));
      SortIsSorted(rows, sortBy);
      RowsStandInScan(was, found, elapsed, clkTck, pageSize);
      out := DrawRows(order, n, found, rows, readComm);
      scanned := found;
      var t := Tick(found, elapsed, n, sortBy);
      forall previous | DistinctPids(previous) && was == ScanMap(previous)
        ensures MeasuredSince(previous, t, clkTck, pageSize, readComm, out)
      {
        TopAnswers(was, t, clkTck, pageSize, readComm, out);
        FiguresComeFromPreviousScan(previous, t, out, clkTck, pageSize, readComm);
      }
    }

    /** Drop every baseline whose process this scan no longer saw. */
    method Forget(found: seq<Raw>, ghost was: map<nat, PidSample>)
      requires prev == was + ScanMap(found)
      modifies this`prev
      ensures prev == ScanMap(found)
    {
      var activePids := {};
      var i := 0;
      while i < |found|
        invariant i <= |found|
        invariant forall pid :: pid in activePids <==> exists k :: 0 <= k < i && found[k].pid == pid
      {
        activePids := activePids + {found[i].pid};
        i := i + 1;
      }
      ScanMapKeys(found);
      prev := map pid | pid in prev && pid in activePids :: prev[pid];
      assert prev == ScanMap(found);
    }

    /** The names of the last scan, each once and in order, for searching. */
    method FillNames() returns (names: seq<string>)
      ensures IsNameList(NamesSeen(scanned), names)
    {
      hide AtMost, Increasing, Ordered, IsNameList, Below, TotalPreorder;
      names := [];
      var i := 0;
      while i < |scanned|
        invariant i <= |scanned|
        invariant names == NamesSeen(scanned[..i])
      {
        assert scanned[..i + 1][..i] == scanned[..i];
        var name := if scanned[i].comm == [] then scanned[i].statComm else scanned[i].comm;
        if name != [] {
          names := names + [name];
        }
        i := i + 1;
      }
      assert scanned[..|scanned|] == scanned;
      ghost var seen := names;
      names := Sort(names, AtMost);
      AtMostIsOrder();
      SortPermutes(seen, AtMost);
      SortOrders(seen, AtMost);
      ghost var sorted := names;
      names := Dedup(names);
      ghost var distinct := names;
      if |names| > MAX_FILTER_NAMES {
        names := names[..MAX_FILTER_NAMES];
      }
      NamesAreLeast(seen, sorted, distinct, names);
    }
  }

  // ---------------------------------------------------------------------- the names

  const MAX_FILTER_NAMES := 2048

  /** Every non-empty name of a scan, the full one where there is one. */
  function NamesSeen(found: seq<Raw>): seq<string> {
    if found == [] then []
    else
      var s := found[|found| - 1];
      var name := if s.comm == [] then s.statComm else s.comm;
      NamesSeen(found[..|found| - 1]) + (if name == [] then [] else [name])
  }

  /** The name a process is searched by. */
  predicate HasName(s: Raw, name: string) {
    name != [] && name == if s.comm == [] then s.statComm else s.comm
  }

  lemma {:induction false} NamesSeenAreNames(found: seq<Raw>, name: string)
    ensures name in NamesSeen(found) <==> exists i :: 0 <= i < |found| && HasName(found[i], name)
  {
    if found == [] {
    } else {
      var last := |found| - 1;
      NamesSeenAreNames(found[..last], name);
      if i :| 0 <= i < |found| && HasName(found[i], name) {
        assert i < last ==> found[..last][i] == found[i];
      }
      if i :| 0 <= i < last && HasName(found[..last][i], name) {
        assert HasName(found[i], name);
      }
      assert HasName(found[last], name) ==> name in NamesSeen(found);
    }
  }

  /** `a` is below `b` at `k` and equal before. */
  predicate FirstBelow(a: string, b: string, k: nat) {
    k < |a| && k < |b| && a[k] < b[k] && forall i :: 0 <= i < k ==> a[i] == b[i]
  }

  /** `a` is the beginning of `b`, or comes before it in a dictionary. */
  ghost predicate InDictionaryOrder(a: string, b: string) {
    a <= b || exists k: nat :: FirstBelow(a, b, k)
  }

  lemma FirstBelowTail(a: string, b: string, k: nat)
    requires a != [] && b != [] && a[0] == b[0]
    ensures FirstBelow(a, b, k + 1) <==> FirstBelow(a[1..], b[1..], k)
    ensures !FirstBelow(a, b, 0)
    ensures a <= b <==> a[1..] <= b[1..]
  {
    assert a == [a[0]] + a[1..] && b == [b[0]] + b[1..];
    if FirstBelow(a, b, k + 1) {
      assert forall i :: 0 <= i < k ==> a[1..][i] == a[i + 1] && b[1..][i] == b[i + 1];
    }
  }

  lemma DictionaryTail(a: string, b: string)
    requires a != [] && b != [] && a[0] == b[0]
    ensures InDictionaryOrder(a, b) <==> InDictionaryOrder(a[1..], b[1..])
  {
    hide FirstBelow;
    FirstBelowTail(a, b, 0);
    if !(a <= b) {
      if k: nat :| FirstBelow(a, b, k) {
        FirstBelowTail(a, b, k - 1);
        assert FirstBelow(a[1..], b[1..], k - 1);
      }
      if k: nat :| FirstBelow(a[1..], b[1..], k) {
        FirstBelowTail(a, b, k);
        assert FirstBelow(a, b, k + 1);
      }
    }
  }

  lemma {:induction false} AtMostIsDictionaryOrder(a: string, b: string)
    ensures AtMost(a, b) <==> InDictionaryOrder(a, b)
  {
    if a == [] || b == [] {
    } else if a[0] == b[0] {
      hide InDictionaryOrder;
      AtMostIsDictionaryOrder(a[1..], b[1..]);
      DictionaryTail(a, b);
    } else {
      assert FirstBelow(a, b, 0) <==> a[0] < b[0];
    }
  }

  /** As a `str` orders: UTF-8 bytes compare as the characters do. */
  predicate AtMost(a: string, b: string) {
    a == [] || (b != [] && (a[0] < b[0] || (a[0] == b[0] && AtMost(a[1..], b[1..]))))
  }

  lemma {:induction false} AtMostTotal(a: string, b: string)
    ensures AtMost(a, b) || AtMost(b, a)
    ensures AtMost(a, b) && AtMost(b, a) ==> a == b
  {
    if a != [] && b != [] {
      AtMostTotal(a[1..], b[1..]);
      assert a == [a[0]] + a[1..] && b == [b[0]] + b[1..];
    }
  }

  lemma {:induction false} AtMostTransitive(a: string, b: string, c: string)
    requires AtMost(a, b) && AtMost(b, c)
    ensures AtMost(a, c)
  {
    if a != [] && a[0] == b[0] == c[0] {
      AtMostTransitive(a[1..], b[1..], c[1..]);
    }
  }

  lemma AtMostIsOrder()
    ensures TotalPreorder(AtMost)
  {
    forall a: string, b: string
      ensures AtMost(a, b) || AtMost(b, a)
    {
      AtMostTotal(a, b);
    }
    forall a: string, b: string, c: string | AtMost(a, b) && AtMost(b, c)
      ensures AtMost(a, c)
    {
      AtMostTransitive(a, b, c);
    }
  }

  predicate Below(a: string, b: string) {
    AtMost(a, b) && a != b
  }

  predicate Increasing(names: seq<string>) {
    forall i, j :: 0 <= i < j < |names| ==> Below(names[i], names[j])
  }

  /** The least names there are, each once, in order, as many as the list may carry. */
  ghost predicate IsNameList(seen: seq<string>, names: seq<string>) {
    && Increasing(names) && |names| <= MAX_FILTER_NAMES
    && (forall i :: 0 <= i < |names| ==> names[i] in seen)
    && (forall x :: x in seen ==>
          x in names || (|names| == MAX_FILTER_NAMES && forall i :: 0 <= i < |names| ==> Below(names[i], x)))
  }

  /** Drop every element equal to the one before it. */
  method Dedup(s: seq<string>) returns (r: seq<string>)
    requires Ordered(s, AtMost)
    ensures Increasing(r)
    ensures forall x :: x in r <==> x in s
  {
    hide AtMost;
    r := [];
    var i := 0;
    while i < |s|
      invariant i <= |s| && Increasing(r)
      invariant forall x :: x in r <==> x in s[..i]
      invariant (r == [] <==> i == 0) && (r != [] ==> r[|r| - 1] == s[i - 1])
    {
      assert s[..i + 1] == s[..i] + [s[i]];
      if r == [] || r[|r| - 1] != s[i] {
        forall k | 0 <= k < |r|
          ensures Below(r[k], s[i])
        {
          AtMostTransitive(r[k], s[i - 1], s[i]) by {
            AtMostTotal(r[k], r[k]);
          }
          AtMostTotal(r[k], s[i - 1]);
          AtMostTotal(s[i - 1], s[i]);
        }
        r := r + [s[i]];
      }
      i := i + 1;
    }
    assert s[..|s|] == s;
  }

  lemma NamesAreLeast(seen: seq<string>, sorted: seq<string>, distinct: seq<string>, names: seq<string>)
    requires multiset(sorted) == multiset(seen)
    requires Increasing(distinct) && forall x :: x in distinct <==> x in sorted
    requires names == if |distinct| > MAX_FILTER_NAMES then distinct[..MAX_FILTER_NAMES] else distinct
    ensures IsNameList(seen, names)
  {
    forall x
      ensures x in sorted <==> x in seen
    {
      assert x in sorted <==> x in multiset(sorted);
      assert x in seen <==> x in multiset(seen);
    }
    forall x | x in seen && x !in names
      ensures |names| == MAX_FILTER_NAMES && forall i :: 0 <= i < |names| ==> Below(names[i], x)
    {
      var k :| 0 <= k < |distinct| && distinct[k] == x;
      assert forall m :: 0 <= m < |names| ==> names[m] == distinct[m];
    }
  }

  // --------------------------------------------------------------------- over a run

  /** One tick of a run: the scan it makes and what it is asked for. */
  datatype Tick = Tick(found: seq<Raw>, elapsed: real, n: nat, sortBy: SortBy)

  /** What one tick may answer, measured against a baseline. */
  ghost predicate Answers(baseline: map<nat, PidSample>, t: Tick, clkTck: Rate, pageSize: nat,
          readComm: nat -> string, out: seq<Proc>)
  {
    IsTop(RowsOf(baseline, t.found, t.elapsed, clkTck, pageSize), t.sortBy, t.n, t.found, readComm, out)
  }

  /** What tick `k` is measured against: the scan just before it, whatever was
      scanned earlier; only the first tick sees what the sampler held. */
  function Baseline(held: map<nat, PidSample>, ticks: seq<Tick>, k: nat): map<nat, PidSample>
    requires k <= |ticks|
  {
    if k == 0 then held else ScanMap(ticks[k - 1].found)
  }

  /** The same process as one of the scan before, which a figure is measured against. */
  predicate SameProcess(p: Raw, s: Raw) {
    p.pid == s.pid && p.starttime == s.starttime
  }

  /** The ticks a process has run since, none if its counter fell. */
  function TicksRun(p: Raw, s: Raw): nat {
    if s.ticks < p.ticks then 0 else s.ticks - p.ticks
  }

  /** The percentage of one core: 100 for every second of ticks in every second
      gone by, and nothing for a process that the scan before did not hold. */
  ghost predicate FigureOf(previous: seq<Raw>, elapsed: real, clkTck: Rate, s: Raw, cpu: real) {
    && (forall p :: p in previous && SameProcess(p, s) && elapsed > 0.0 ==>
          cpu * elapsed * clkTck == 100.0 * TicksRun(p, s) as real)
    && ((elapsed <= 0.0 || forall p :: p in previous ==> !SameProcess(p, s)) ==> cpu == 0.0)
  }

  /** Ranks first: by the chosen metric, then the other, from the top, then by pid from the bottom. */
  predicate Outranks(sortBy: SortBy, cpu: real, mem: nat, pid: nat, cpu': real, mem': nat, pid': nat) {
    match sortBy
    case Cpu => cpu > cpu' || (cpu == cpu' && mem > mem') || (cpu == cpu' && mem == mem' && pid < pid')
    case Mem => mem > mem' || (mem == mem' && cpu > cpu') || (mem == mem' && cpu == cpu' && pid < pid')
  }

  /** A drawn row is this process of the scan, by name, memory and figure. */
  ghost predicate RowOfProcess(previous: seq<Raw>, t: Tick, clkTck: Rate, pageSize: nat, readComm: nat -> string,
          row: Proc, s: Raw)
  {
    && row.pid == s.pid && row.mem == s.rssPages * pageSize
    && row.name == (if s.comm == [] then readComm(s.pid) else s.comm)
    && FigureOf(previous, t.elapsed, clkTck, s, row.cpu)
  }

  /** The processes of the scan with their figures: `rows[k]` is process `k`, drawn. */
  ghost predicate Candidates(previous: seq<Raw>, t: Tick, clkTck: Rate, pageSize: nat, readComm: nat -> string,
          rows: seq<Proc>)
  {
    && |rows| == |t.found|
    && forall k :: 0 <= k < |rows| ==> RowOfProcess(previous, t, clkTck, pageSize, readComm, rows[k], t.found[k])
  }

  /** A table of the scan: as many of its candidates as asked for, or all of
      them, each outranking the next and the last outranking all that are left out. */
  ghost predicate IsTable(t: Tick, rows: seq<Proc>, out: seq<Proc>) {
    && |out| == (if t.n < |rows| then t.n else |rows|)
    && (forall i :: 0 <= i < |out| ==> out[i] in rows)
    && (forall i, j :: 0 <= i < j < |out| ==>
          Outranks(t.sortBy, out[i].cpu, out[i].mem, out[i].pid, out[j].cpu, out[j].mem, out[j].pid))
    && (forall i, r :: 0 <= i < |out| && r in rows && r !in out ==>
          Outranks(t.sortBy, out[i].cpu, out[i].mem, out[i].pid, r.cpu, r.mem, r.pid))
  }

  ghost predicate MeasuredSince(previous: seq<Raw>, t: Tick, clkTck: Rate, pageSize: nat, readComm: nat -> string,
          out: seq<Proc>)
  {
    exists rows :: Candidates(previous, t, clkTck, pageSize, readComm, rows) && IsTable(t, rows, out)
  }

  lemma FigureIsShare(previous: seq<Raw>, elapsed: real, clkTck: Rate, s: Raw)
    requires DistinctPids(previous)
    ensures FigureOf(previous, elapsed, clkTck, s, CpuOf(ScanMap(previous), s, elapsed, clkTck))
  {
    ScanMapKeys(previous);
    hide ScanMap;
    var prev := ScanMap(previous);
    var cpu := CpuOf(prev, s, elapsed, clkTck);
    forall i | 0 <= i < |previous|
      ensures previous[i].pid in prev && prev[previous[i].pid] == SampleOf(previous[i])
    {
      ScanMapAt(previous, i);
    }
    if s.pid in prev && prev[s.pid].starttime == s.starttime && elapsed > 0.0 {
      var i :| 0 <= i < |previous| && previous[i].pid == s.pid;
      assert previous[i] in previous && SameProcess(previous[i], s);
      ShareOfTicks(TicksRun(previous[i], s) as real, clkTck, elapsed);
    } else {
      assert cpu == 0.0;
    }
  }

  lemma ShareOfTicks(ticks: real, clkTck: real, elapsed: real)
    requires clkTck > 0.0 && elapsed > 0.0
    ensures ticks / clkTck / elapsed * 100.0 * elapsed * clkTck == 100.0 * ticks
  {
    var seconds := ticks / clkTck;
    var share := seconds / elapsed;
    assert seconds * clkTck == ticks && share * elapsed == seconds;
    assert share * 100.0 * elapsed == 100.0 * (share * elapsed);
    assert 100.0 * seconds * clkTck == 100.0 * (seconds * clkTck);
  }

  /** A process that ran in every tick of the interval reads exactly 100. */
  lemma FullCoreReadsHundred(previous: seq<Raw>, p: Raw, s: Raw, elapsed: real, clkTck: Rate, cpu: real)
    requires FigureOf(previous, elapsed, clkTck, s, cpu) && p in previous && SameProcess(p, s)
    requires elapsed > 0.0 && TicksRun(p, s) as real == elapsed * clkTck
    ensures cpu == 100.0
  {
    assert elapsed * clkTck > 0.0;
    assert cpu * elapsed * clkTck == cpu * (elapsed * clkTck);
    SameFactor(cpu, 100.0, elapsed * clkTck);
  }

  lemma SameFactor(x: real, y: real, m: real)
    requires m > 0.0 && x * m == y * m
    ensures x == y
  {
    assert (x - y) * m == 0.0;
  }

  /** The candidates as they would be drawn, in scan order. */
  function DrawnRows(rows: seq<Row>, found: seq<Raw>, readComm: nat -> string): (r: seq<Proc>)
    requires forall i :: 0 <= i < |rows| ==> rows[i].at < |found|
    ensures |r| == |rows| && forall i :: 0 <= i < |rows| ==> r[i] == Shown(rows[i], found, readComm)
  {
    seq(|rows|, i requires 0 <= i < |rows| => Shown(rows[i], found, readComm))
  }

  lemma RowsAreCandidates(previous: seq<Raw>, t: Tick, clkTck: Rate, pageSize: nat, readComm: nat -> string)
    requires DistinctPids(previous)
    ensures var rows := RowsOf(ScanMap(previous), t.found, t.elapsed, clkTck, pageSize);
            Candidates(previous, t, clkTck, pageSize, readComm, DrawnRows(rows, t.found, readComm))
  {
    hide CpuOf, ScanMap, FigureOf, DistinctPids;
    var rows := RowsOf(ScanMap(previous), t.found, t.elapsed, clkTck, pageSize);
    forall k | 0 <= k < |rows|
      ensures FigureOf(previous, t.elapsed, clkTck, t.found[k], rows[k].cpu)
    {
      FigureIsShare(previous, t.elapsed, clkTck, t.found[k]);
    }
  }

  /** The rows of an order are rows of the scan, each its own process. */
  lemma OrderedRows(order: seq<Row>, rows: seq<Row>, found: seq<Raw>, sortBy: SortBy)
    requires DistinctPids(found) && |rows| == |found|
    requires forall i :: 0 <= i < |rows| ==> rows[i].at == i && rows[i].pid == found[i].pid
    requires multiset(order) == multiset(rows) && Ordered(order, Order(sortBy))
    ensures |order| == |rows| && forall i :: 0 <= i < |order| ==> order[i] in rows
    ensures forall r :: r in rows ==> r in order
    ensures forall i, j :: 0 <= i < j < |order| ==>
      Outranks(sortBy, order[i].cpu, order[i].mem, order[i].pid, order[j].cpu, order[j].mem, order[j].pid)
  {
    assert |multiset(order)| == |order| && |multiset(rows)| == |rows|;
    forall i | 0 <= i < |order|
      ensures order[i] in rows
    {
      assert order[i] in multiset(order);
    }
    forall r | r in rows
      ensures r in order
    {
      assert r in multiset(rows);
    }
    forall i, j | 0 <= i < j < |order|
      ensures Outranks(sortBy, order[i].cpu, order[i].mem, order[i].pid, order[j].cpu, order[j].mem, order[j].pid)
    {
      DistinctRows(order, rows, found, i, j);
      assert Order(sortBy)(order[i], order[j]);
    }
  }

  /** No process stands twice in an order. */
  lemma DistinctRows(order: seq<Row>, rows: seq<Row>, found: seq<Raw>, i: nat, j: nat)
    requires DistinctPids(found) && |rows| == |found| && i < j < |order|
    requires forall i :: 0 <= i < |rows| ==> rows[i].at == i && rows[i].pid == found[i].pid
    requires multiset(order) == multiset(rows)
    ensures order[i].pid != order[j].pid
  {
    PermutedElement(order, rows, i);
    PermutedElement(order, rows, j);
    var k :| 0 <= k < |rows| && rows[k] == order[i];
    var l :| 0 <= l < |rows| && rows[l] == order[j];
    if k == l {
      OnceInRows(rows, k);
      TwiceInOrder(order, i, j);
      assert false;
    }
  }

  lemma TwiceInOrder(order: seq<Row>, i: nat, j: nat)
    requires i < j < |order| && order[i] == order[j]
    ensures multiset(order)[order[i]] >= 2
  {
    assert order == order[..i] + [order[i]] + order[i + 1..j] + [order[j]] + order[j + 1..];
  }

  lemma OnceInRows(rows: seq<Row>, k: nat)
    requires k < |rows| && forall i :: 0 <= i < |rows| ==> rows[i].at == i
    ensures multiset(rows)[rows[k]] == 1
  {
    assert rows == rows[..k] + [rows[k]] + rows[k + 1..];
    assert rows[k] !in rows[..k] && rows[k] !in rows[k + 1..];
  }

  lemma DrawnIsTable(order: seq<Row>, rows: seq<Row>, t: Tick, readComm: nat -> string, out: seq<Proc>)
    requires DistinctPids(t.found) && |rows| == |t.found|
    requires forall i :: 0 <= i < |rows| ==> rows[i].at == i && rows[i].pid == t.found[i].pid
    requires IsSorted(order, rows, t.sortBy) && Draws(order, t.n, t.found, readComm, out)
    ensures IsTable(t, DrawnRows(rows, t.found, readComm), out)
  {
    hide Order, Ordered, DistinctPids, Outranks;
    OrderedRows(order, rows, t.found, t.sortBy);
    var drawn := DrawnRows(rows, t.found, readComm);
    forall i | 0 <= i < |out|
      ensures out[i] in drawn
    {
      var k :| 0 <= k < |rows| && rows[k] == order[i];
      assert drawn[k] == out[i];
    }
    forall i, r | 0 <= i < |out| && r in drawn
      ensures r in out || Outranks(t.sortBy, out[i].cpu, out[i].mem, out[i].pid, r.cpu, r.mem, r.pid)
    {
      var k :| 0 <= k < |rows| && drawn[k] == r;
      assert rows[k] in order;
      var j :| 0 <= j < |order| && order[j] == rows[k];
      if j < |out| {
        assert out[j] == r;
      }
    }
  }

  /** Every tick's answer is a table of its scan, by figures that the scan before accounts for. */
  lemma FiguresComeFromPreviousScan(previous: seq<Raw>, t: Tick, out: seq<Proc>, clkTck: Rate, pageSize: nat,
          readComm: nat -> string)
    requires DistinctPids(previous) && DistinctPids(t.found)
    requires Answers(ScanMap(previous), t, clkTck, pageSize, readComm, out)
    ensures MeasuredSince(previous, t, clkTck, pageSize, readComm, out)
  {
    hide CpuOf, ScanMap, Candidates, IsTable, DistinctPids, IsSorted, Draws;
    var rows := RowsOf(ScanMap(previous), t.found, t.elapsed, clkTck, pageSize);
    var order :| IsSorted(order, rows, t.sortBy) && Draws(order, t.n, t.found, readComm, out);
    RowsAreCandidates(previous, t, clkTck, pageSize, readComm);
    DrawnIsTable(order, rows, t, readComm, out);
  }

  /** A sampler over a run of ticks: each is measured against the scan of the
      tick before it, and nothing of an older scan, or of a process gone since,
      shows in a figure or is left at the end. */
  method TopOverTicks(sampler: ProcSampler, ticks: seq<Tick>, readComm: nat -> string) returns (outs: seq<seq<Proc>>)
    requires forall k :: 0 <= k < |ticks| ==> DistinctPids(ticks[k].found)
    modifies sampler
    ensures |outs| == |ticks| && sampler.prev == Baseline(old(sampler.prev), ticks, |ticks|)
    ensures forall k :: 0 <= k < |ticks| ==>
      Answers(Baseline(old(sampler.prev), ticks, k), ticks[k], sampler.clkTck, sampler.pageSize, readComm, outs[k])
    ensures forall k :: 0 < k < |ticks| ==>
      MeasuredSince(ticks[k - 1].found, ticks[k], sampler.clkTck, sampler.pageSize, readComm, outs[k])
  {
    hide Answers, ScanMap, MeasuredSince, DistinctPids, AnsweredSoFar, Baseline;
    ghost var held := sampler.prev;
    outs := [];
    var i := 0;
    NothingAnswered(held, ticks, sampler.clkTck, sampler.pageSize, readComm);
    while i < |ticks|
      invariant i <= |ticks| && |outs| == i && sampler.prev == Baseline(held, ticks, i)
      invariant AnsweredSoFar(held, ticks, outs, sampler.clkTck, sampler.pageSize, readComm)
    {
      var t := ticks[i];
      var out := sampler.TopInto(t.found, t.elapsed, t.n, t.sortBy, readComm);
      TopAnswers(Baseline(held, ticks, i), t, sampler.clkTck, sampler.pageSize, readComm, out);
      OneMoreAnswer(held, ticks, outs, out, sampler.clkTck, sampler.pageSize, readComm);
      outs := outs + [out];
      i := i + 1;
    }
    AllAnswered(held, ticks, outs, sampler.clkTck, sampler.pageSize, readComm);
  }

  /** The ticks so far are answered, each from the baseline of the one before. */
  ghost predicate AnsweredSoFar(held: map<nat, PidSample>, ticks: seq<Tick>, outs: seq<seq<Proc>>, clkTck: Rate,
          pageSize: nat, readComm: nat -> string)
  {
    |outs| <= |ticks| &&
    forall k :: 0 <= k < |outs| ==> Answers(Baseline(held, ticks, k), ticks[k], clkTck, pageSize, readComm, outs[k])
  }

  lemma NothingAnswered(held: map<nat, PidSample>, ticks: seq<Tick>, clkTck: Rate, pageSize: nat,
          readComm: nat -> string)
    ensures AnsweredSoFar(held, ticks, [], clkTck, pageSize, readComm) && Baseline(held, ticks, 0) == held
  {
  }

  lemma OneMoreAnswer(held: map<nat, PidSample>, ticks: seq<Tick>, outs: seq<seq<Proc>>, out: seq<Proc>, clkTck: Rate,
          pageSize: nat, readComm: nat -> string)
    requires AnsweredSoFar(held, ticks, outs, clkTck, pageSize, readComm) && |outs| < |ticks|
    requires Answers(Baseline(held, ticks, |outs|), ticks[|outs|], clkTck, pageSize, readComm, out)
    ensures AnsweredSoFar(held, ticks, outs + [out], clkTck, pageSize, readComm)
    ensures Baseline(held, ticks, |outs| + 1) == ScanMap(ticks[|outs|].found)
  {
    hide Answers, ScanMap;
  }

  lemma AllAnswered(held: map<nat, PidSample>, ticks: seq<Tick>, outs: seq<seq<Proc>>, clkTck: Rate, pageSize: nat,
          readComm: nat -> string)
    requires AnsweredSoFar(held, ticks, outs, clkTck, pageSize, readComm) && |outs| == |ticks|
    requires forall k :: 0 <= k < |ticks| ==> DistinctPids(ticks[k].found)
    ensures forall k :: 0 <= k < |ticks| ==>
      Answers(Baseline(held, ticks, k), ticks[k], clkTck, pageSize, readComm, outs[k])
    ensures forall k :: 0 < k < |ticks| ==>
      MeasuredSince(ticks[k - 1].found, ticks[k], clkTck, pageSize, readComm, outs[k])
  {
    hide Answers, ScanMap, MeasuredSince, DistinctPids;
    forall k | 0 < k < |ticks|
      ensures MeasuredSince(ticks[k - 1].found, ticks[k], clkTck, pageSize, readComm, outs[k])
    {
      FiguresComeFromPreviousScan(ticks[k - 1].found, ticks[k], outs[k], clkTck, pageSize, readComm);
    }
  }

  lemma TopAnswers(baseline: map<nat, PidSample>, t: Tick, clkTck: Rate, pageSize: nat, readComm: nat -> string,
          out: seq<Proc>)
    requires IsTop(RowsOf(baseline, t.found, t.elapsed, clkTck, pageSize), t.sortBy, t.n, t.found, readComm, out)
    ensures Answers(baseline, t, clkTck, pageSize, readComm, out)
  {
    hide IsTop, RowsOf;
  }
}
