/** The one line splitter (crates/agent/src/proc_read.rs): every line of an
    input, in order, through one fixed buffer, however the reads cut it. */
module ProcRead {
  import opened Basics
  import opened Wrappers
  import opened Utf8

  const NL: Byte := 10

  // ------------------------------------------------------------ the reference

  /** `input.split(|&b| b == b'\n')`: always at least one part. */
  function Split(input: seq<Byte>): (r: seq<seq<Byte>>)
    ensures |r| > 0
  {
    if input == [] then [[]]
    else
      var rest := Split(input[1..]);
      if input[0] == NL then [[]] + rest else [[input[0]] + rest[0]] + rest[1..]
  }

  /** The newline-split parts; the empty part after a final newline is no line. */
  function Parts(input: seq<Byte>): seq<seq<Byte>> {
    var parts := Split(input);
    if parts[|parts| - 1] == [] then parts[..|parts| - 1] else parts
  }

  /** What one part feeds: nothing when it is too long to hold or is not UTF-8. */
  function Line(part: seq<Byte>, capacity: nat): seq<string> {
    if |part| < capacity && Decode(part).Some? then [Decode(part).value] else []
  }

  function Lines(parts: seq<seq<Byte>>, capacity: nat): seq<string> {
    if parts == [] then [] else Line(parts[0], capacity) + Lines(parts[1..], capacity)
  }

  /** Every line a buffer of `capacity` bytes is promised to feed. */
  function Fed(input: seq<Byte>, capacity: nat): seq<string> {
    Lines(Parts(input), capacity)
  }

  // ------------------------------------------------------------- the streaming view

  /** The bytes after the last newline. */
  ghost function Tail(d: seq<Byte>): seq<Byte> {
    if d == [] || d[|d| - 1] == NL then [] else Tail(d[..|d| - 1]) + [d[|d| - 1]]
  }

  /** What the newline-terminated lines of `d` feed. */
  ghost function Complete(d: seq<Byte>, capacity: nat): seq<string> {
    if d == [] then []
    else
      var front := d[..|d| - 1];
      if d[|d| - 1] == NL then Complete(front, capacity) + Line(Tail(front), capacity)
      else Complete(front, capacity)
  }

  ghost function AtEnd(d: seq<Byte>, capacity: nat): seq<string> {
    Complete(d, capacity) + (if Tail(d) == [] then [] else Line(Tail(d), capacity))
  }

  ghost predicate NoNewline(s: seq<Byte>) {
    forall i :: 0 <= i < |s| ==> s[i] != NL
  }

  lemma {:induction false} AppendWithinLine(d: seq<Byte>, s: seq<Byte>, capacity: nat)
    requires NoNewline(s)
    ensures Tail(d + s) == Tail(d) + s && Complete(d + s, capacity) == Complete(d, capacity)
  {
    hide Line;
    if s == [] {
      assert d + s == d;
    } else {
      var t := s[..|s| - 1];
      AppendWithinLine(d, t, capacity);
      assert (d + s)[..|d + s| - 1] == d + t;
    }
  }

  lemma AppendLine(d: seq<Byte>, s: seq<Byte>, capacity: nat)
    requires NoNewline(s)
    ensures Tail(d + s + [NL]) == []
    ensures Complete(d + s + [NL], capacity) == Complete(d, capacity) + Line(Tail(d) + s, capacity)
  {
    hide Line;
    AppendWithinLine(d, s, capacity);
    assert (d + s + [NL])[..|d + s|] == d + s;
  }

  // ------------------------------------- the streaming view is the reference

  function DropLast<T>(s: seq<T>): seq<T>
    requires |s| > 0
  {
    s[..|s| - 1]
  }

  function Last<T>(s: seq<T>): T
    requires |s| > 0
  {
    s[|s| - 1]
  }

  /** Append one byte to the last part, or open a new part. */
  ghost function Grown(parts: seq<seq<Byte>>, b: Byte): seq<seq<Byte>>
    requires |parts| > 0
  {
    if b == NL then parts + [[]] else DropLast(parts) + [Last(parts) + [b]]
  }

  lemma GrownAfterNewline(rest: seq<seq<Byte>>, b: Byte)
    requires |rest| > 0
    ensures Grown([[]] + rest, b) == [[]] + Grown(rest, b)
  {
  }

  lemma GrownAfterByte(rest: seq<seq<Byte>>, x: Byte, b: Byte)
    requires |rest| > 0
    ensures Grown([[x] + rest[0]] + rest[1..], b) == [[x] + Grown(rest, b)[0]] + Grown(rest, b)[1..]
  {
    if |rest| == 1 {
      assert [x] + (rest[0] + [b]) == [x] + rest[0] + [b];
    }
  }

  lemma {:induction false} SplitSnoc(d: seq<Byte>, b: Byte)
    ensures Split(d + [b]) == Grown(Split(d), b)
  {
    if d == [] {
      assert d + [b] == [b] && [b][1..] == [];
      assert Split([]) == [[]];
      assert [b] + [] == [b] && [] + [b] == [b];
    } else {
      SplitSnoc(d[1..], b);
      assert (d + [b])[1..] == d[1..] + [b];
      if d[0] == NL {
        GrownAfterNewline(Split(d[1..]), b);
      } else {
        GrownAfterByte(Split(d[1..]), d[0], b);
      }
    }
  }

  lemma {:induction false} LinesSnoc(parts: seq<seq<Byte>>, capacity: nat)
    requires |parts| > 0
    ensures Lines(parts, capacity) == Lines(DropLast(parts), capacity) + Line(Last(parts), capacity)
  {
    hide Line;
    if |parts| == 1 {
      assert parts[1..] == [] && DropLast(parts) == [];
    } else {
      LinesSnoc(parts[1..], capacity);
      assert DropLast(parts[1..]) == DropLast(parts)[1..];
    }
  }

  lemma {:induction false} SplitIsStreamed(d: seq<Byte>, capacity: nat)
    ensures Last(Split(d)) == Tail(d) && Lines(DropLast(Split(d)), capacity) == Complete(d, capacity)
  {
    hide Line;
    if d == [] {
      assert DropLast(Split(d)) == [];
    } else {
      var front, b := d[..|d| - 1], d[|d| - 1];
      SplitIsStreamed(front, capacity);
      SplitSnoc(front, b);
      assert d == front + [b];
      if b == NL {
        LinesSnoc(Split(front), capacity);
        assert DropLast(Split(d)) == Split(front);
      } else {
        assert DropLast(Split(d)) == DropLast(Split(front));
      }
    }
  }

  lemma FedIsStreamed(d: seq<Byte>, capacity: nat)
    ensures Fed(d, capacity) == AtEnd(d, capacity)
  {
    hide Line;
    SplitIsStreamed(d, capacity);
    LinesSnoc(Split(d), capacity);
  }

  lemma {:induction false} SplitFirstLine(line: seq<Byte>, rest: seq<Byte>)
    requires NoNewline(line)
    ensures Split(line + [NL] + rest) == [line] + Split(rest)
  {
    var all := line + [NL] + rest;
    if line == [] {
      assert all[1..] == rest;
    } else {
      SplitFirstLine(line[1..], rest);
      assert all[1..] == line[1..] + [NL] + rest && all[0] == line[0];
      assert ([line[1..]] + Split(rest))[1..] == Split(rest);
      assert [line[0]] + line[1..] == line;
    }
  }

  lemma {:induction false} CompleteGrows(d: seq<Byte>, e: seq<Byte>, capacity: nat)
    ensures Complete(d, capacity) <= Complete(d + e, capacity)
  {
    hide Line;
    if e == [] {
      assert d + e == d;
    } else {
      CompleteGrows(d, e[..|e| - 1], capacity);
      assert (d + e)[..|d + e| - 1] == d + e[..|e| - 1];
    }
  }

  /** What a read that failed part-way has fed is the start of what the whole input feeds. */
  lemma CompleteIsPrefixOfFed(d: seq<Byte>, e: seq<Byte>, capacity: nat)
    ensures Complete(d, capacity) <= Fed(d + e, capacity)
  {
    CompleteGrows(d, e, capacity);
    FedIsStreamed(d + e, capacity);
  }

  // ----------------------------------------------------------------- the reader

  /** One answer of `Read::read`: so many bytes at most, or an error. */
  datatype ReadStep = Take(n: nat) | Fail

  ghost predicate NeverFails(plan: seq<ReadStep>) {
    forall i :: 0 <= i < |plan| ==> plan[i] != Fail
  }

  /** A reader over `data` that answers as `plan` says, so every way of cutting
      an input into reads, with or without a failure, is some `Reader`. */
  class Reader {
    const data: seq<Byte>
    var plan: seq<ReadStep>
    var pos: nat
    var failed: bool

    ghost predicate Valid()
      reads this
    {
      pos <= |data|
    }

    constructor (data: seq<Byte>, plan: seq<ReadStep>)
      ensures this.data == data && this.plan == plan && pos == 0 && !failed && Valid()
    {
      this.data, this.plan, pos, failed := data, plan, 0, false;
    }

    /** Fill some of `buf[from..]` with the next bytes. Callers leave room, so
        zero bytes mean the end of the data. */
    method Read(buf: array<Byte>, from: nat) returns (r: Option<nat>)
      requires Valid() && from < buf.Length
      modifies this, buf
      ensures Valid()
      ensures r.None? ==> failed && pos == old(pos)
      ensures r.Some? ==>
        && failed == old(failed)
        && pos == old(pos) + r.value && from + r.value <= buf.Length
        && buf[..from + r.value] == old(buf[..from]) + data[old(pos)..pos]
        && (r.value == 0 <==> old(pos) == |data|)
      ensures old(NeverFails(plan)) ==> r.Some? && NeverFails(plan)
    {
      var room := buf.Length - from;
      var left := |data| - pos;
      var n := if room < left then room else left;
      if |plan| > 0 {
        var step := plan[0];
        plan := plan[1..];
        if step.Fail? {
          failed := true;
          return None;
        }
        // A read never answers zero bytes while it has room and data.
        var wanted := if step.n == 0 then 1 else step.n;
        n := if wanted < n then wanted else n;
      }
      var chunk := data[pos..pos + n];
      forall i | from <= i < from + n {
        buf[i] := chunk[i - from];
      }
      assert buf[..from + n] == old(buf[..from]) + chunk;
      pos := pos + n;
      r := Some(n);
    }
  }

  // --------------------------------------------------------------- the splitter

  /** `held` are the delivered bytes not yet dealt with, after `base`; while
      `skipping`, they continue a line already too long to hold. */
  ghost predicate InLine(base: seq<Byte>, delivered: seq<Byte>, held: seq<Byte>, skipping: bool,
          fed: seq<string>, capacity: nat)
  {
    && delivered == base + held
    && fed == Complete(base, capacity)
    && (if skipping then |Tail(base)| >= capacity else Tail(base) == [])
  }

  /** `r` is how far after `start` the first newline of `held` is, if there is one. */
  ghost predicate Found(held: seq<Byte>, start: nat, r: Option<nat>) {
    && start <= |held|
    && match r
      case Some(n) => start + n < |held| && held[start + n] == NL && NoNewline(held[start..start + n])
      case None => NoNewline(held[start..])
  }

  /** The position of the first newline in `buf[start..filled]`, from `start`. */
  method FindNewline(buf: array<Byte>, start: nat, filled: nat) returns (r: Option<nat>)
    requires start <= filled <= buf.Length
    ensures Found(buf[..filled], start, r)
  {
    ghost var held := buf[..filled];
    var i := start;
    while i < filled
      invariant start <= i <= filled
      invariant NoNewline(held[start..i])
    {
      if buf[i] == NL {
        return Some(i - start);
      }
      assert held[start..i + 1] == held[start..i] + [buf[i]];
      i := i + 1;
    }
    assert held[start..] == held[start..filled];
    r := None;
  }

  // One lemma for each move of the splitter.

  lemma Starts(capacity: nat)
    ensures InLine([], [], [], false, [], capacity)
  {
  }

  /** A read brings `data[from..to]`. */
  lemma BytesArrive(base: seq<Byte>, data: seq<Byte>, from: nat, to: nat, held: seq<Byte>, skipping: bool,
          fed: seq<string>, capacity: nat)
    requires from <= to <= |data| && InLine(base, data[..from], held, skipping, fed, capacity)
    ensures InLine(base, data[..to], held + data[from..to], skipping, fed, capacity)
  {
    hide Complete, Tail;
    assert data[..to] == data[..from] + data[from..to];
  }

  lemma LineEnds(base: seq<Byte>, delivered: seq<Byte>, line: seq<Byte>, rest: seq<Byte>, skipping: bool,
          fed: seq<string>, capacity: nat)
    requires InLine(base, delivered, line + [NL] + rest, skipping, fed, capacity)
    requires NoNewline(line)
    ensures InLine(base + line + [NL], delivered, rest, false,
                   if skipping then fed else fed + Line(line, capacity), capacity)
  {
    hide Decode, Complete, Tail, NoNewline;
    AppendLine(base, line, capacity);
    Associate(base, line + [NL], rest);
    Associate(base, line, [NL]);
    if skipping {
      assert Line(Tail(base) + line, capacity) == [];
      assert fed + [] == fed;
    } else {
      assert [] + line == line;
    }
  }

  /** The line that begins at `start` ends `n` bytes later. */
  lemma PassesLine(base: seq<Byte>, delivered: seq<Byte>, held: seq<Byte>, start: nat, n: nat, skipping: bool,
          fed: seq<string>, capacity: nat)
    requires Found(held, start, Some(n))
    requires InLine(base, delivered, held[start..], skipping, fed, capacity)
    ensures InLine(base + held[start..start + n] + [NL], delivered, held[start + n + 1..], false,
                   if skipping then fed else fed + Line(held[start..start + n], capacity), capacity)
  {
    hide InLine, Line;
    assert held[start..] == held[start..start + n] + [NL] + held[start + n + 1..];
    LineEnds(base, delivered, held[start..start + n], held[start + n + 1..], skipping, fed, capacity);
  }

  lemma LineOverflows(base: seq<Byte>, delivered: seq<Byte>, held: seq<Byte>, skipping: bool, fed: seq<string>,
          capacity: nat)
    requires InLine(base, delivered, held, skipping, fed, capacity)
    requires NoNewline(held) && |held| == capacity
    ensures InLine(base + held, delivered, [], true, fed, capacity)
  {
    AppendWithinLine(base, held, capacity);
    assert base + held + [] == base + held;
  }

  lemma EndsAtEof(base: seq<Byte>, delivered: seq<Byte>, held: seq<Byte>, skipping: bool, fed: seq<string>,
          capacity: nat)
    requires InLine(base, delivered, held, skipping, fed, capacity) && NoNewline(held)
    ensures Fed(delivered, capacity) == if |held| > 0 && !skipping then fed + Line(held, capacity) else fed
  {
    hide Decode, Fed;
    AppendWithinLine(base, held, capacity);
    FedIsStreamed(delivered, capacity);
    if !skipping {
      assert [] + held == held;
    }
  }

  lemma EndsByFailure(base: seq<Byte>, data: seq<Byte>, pos: nat, held: seq<Byte>, skipping: bool,
          fed: seq<string>, capacity: nat)
    requires pos <= |data| && InLine(base, data[..pos], held, skipping, fed, capacity) && NoNewline(held)
    ensures fed == Complete(data[..pos], capacity) && fed <= Fed(data, capacity)
  {
    hide Fed;
    AppendWithinLine(base, held, capacity);
    CompleteIsPrefixOfFed(data[..pos], data[pos..], capacity);
    assert data[..pos] + data[pos..] == data;
  }

  /** Feed every line that ends within `buf[..filled]`: `start` is where the
      unfinished one begins, `base` grows by the bytes passed over. */
  method FeedEndedLines(buf: array<Byte>, filled: nat, wasSkipping: bool, ghost before: seq<Byte>,
          ghost delivered: seq<Byte>, ghost wasFed: seq<string>)
    returns (start: nat, skipping: bool, lines: seq<string>, ghost base: seq<Byte>)
    requires filled <= buf.Length
    requires InLine(before, delivered, buf[..filled], wasSkipping, wasFed, buf.Length)
    ensures start <= filled && NoNewline(buf[..filled][start..])
    ensures InLine(base, delivered, buf[..filled][start..], skipping, wasFed + lines, buf.Length)
    ensures if start == 0 then skipping == wasSkipping else !skipping
  {
    hide Line, InLine, NoNewline;
    ghost var held := buf[..filled];
    start, skipping, lines, base := 0, wasSkipping, [], before;
    assert wasFed + lines == wasFed && held[start..] == held;
    var pos := FindNewline(buf, start, filled);
    while pos.Some?
      invariant start <= filled && Found(held, start, pos)
      invariant InLine(base, delivered, held[start..], skipping, wasFed + lines, buf.Length)
      invariant if start == 0 then skipping == wasSkipping else !skipping
      decreases filled - start, pos.Some?
    {
      ghost var line := held[start..start + pos.value];
      PassesLine(base, delivered, held, start, pos.value, skipping, wasFed + lines, buf.Length);
      if skipping {
        skipping := false;
      } else {
        assert buf[start..start + pos.value] == line;
        Associate(wasFed, lines, Line(line, buf.Length));
        lines := lines + Line(buf[start..start + pos.value], buf.Length);
      }
      base := base + line + [NL];
      start := start + pos.value + 1;
      pos := FindNewline(buf, start, filled);
    }
  }

  /** The work after one read: feed the ended lines, then keep the unfinished
      one at the front of `buf`, or start skipping it when it fills `buf`. */
  method FeedAndShift(buf: array<Byte>, filled: nat, wasSkipping: bool, ghost before: seq<Byte>,
          ghost delivered: seq<Byte>, ghost wasFed: seq<string>)
    returns (left: nat, skipping: bool, lines: seq<string>, ghost base: seq<Byte>)
    requires buf.Length >= 1 && filled <= buf.Length
    requires InLine(before, delivered, buf[..filled], wasSkipping, wasFed, buf.Length)
    modifies buf
    ensures left < buf.Length && NoNewline(buf[..left])
    ensures InLine(base, delivered, buf[..left], skipping, wasFed + lines, buf.Length)
  {
    hide Line, InLine, NoNewline;
    var start;
    start, skipping, lines, base := FeedEndedLines(buf, filled, wasSkipping, before, delivered, wasFed);
    ghost var held := buf[..filled][start..];
    if start == 0 && filled == buf.Length {
      // The buffer holds nothing but the start of a line: no room is left to finish it.
      LineOverflows(base, delivered, held, skipping, wasFed + lines, buf.Length);
      NothingHeld();
      base := base + held;
      left, skipping := 0, true;
      assert buf[..left] == [];
    } else {
      ShiftToFront(buf, start, filled);
      left := filled - start;
    }
  }

  lemma NothingHeld()
    ensures NoNewline([])
  {
  }

  /** `buf.copy_within(start..filled, 0)`. */
  method ShiftToFront(buf: array<Byte>, start: nat, filled: nat)
    requires start <= filled <= buf.Length
    modifies buf
    ensures buf[..filled - start] == old(buf[..filled][start..])
  {
    forall i | 0 <= i < filled - start {
      buf[i] := buf[start + i];
    }
  }

  /** Feed every line of `input` through `buf`; `fed` are the calls of the
      source's `line` closure, in order. */
  method ForEachLineIn(input: Reader, buf: array<Byte>) returns (any: bool, fed: seq<string>)
    requires input.Valid() && input.pos == 0 && !input.failed && buf.Length >= 1
    modifies input, buf
    ensures input.Valid()
    ensures !input.failed ==>
      input.pos == |input.data| && fed == Fed(input.data, buf.Length) && any == (input.data != [])
    ensures input.failed ==>
      !any && fed == Complete(input.data[..input.pos], buf.Length) && fed <= Fed(input.data, buf.Length)
    ensures old(NeverFails(input.plan)) ==> !input.failed
  {
    hide Line, Complete, Fed, InLine, NoNewline, NeverFails;
    var filled: nat, skipping := 0, false;
    any, fed := false, [];
    ghost var base: seq<Byte> := [];
    Starts(buf.Length);
    NothingHeld();
    assert input.data[..0] == [] && buf[..0] == [];
    while true
      invariant input.Valid() && !input.failed
      invariant filled < buf.Length
      invariant InLine(base, input.data[..input.pos], buf[..filled], skipping, fed, buf.Length)
      invariant NoNewline(buf[..filled])
      invariant any == (input.pos > 0)
      invariant old(NeverFails(input.plan)) ==> NeverFails(input.plan)
      decreases |input.data| - input.pos
    {
      ghost var pos, held := input.pos, buf[..filled];
      var got := input.Read(buf, filled);
      if got.None? {
        EndsByFailure(base, input.data, pos, held, skipping, fed, buf.Length);
        return false, fed;
      }
      if got.value == 0 {
        assert input.data[..pos] == input.data && held + input.data[pos..pos] == held;
        EndsAtEof(base, input.data, held, skipping, fed, buf.Length);
        if filled > 0 && !skipping {
          fed := fed + Line(buf[..filled], buf.Length);
        }
        return any, fed;
      }
      any := true;
      BytesArrive(base, input.data, pos, input.pos, held, skipping, fed, buf.Length);
      filled := filled + got.value;
      var lines;
      filled, skipping, lines, base := FeedAndShift(buf, filled, skipping, base, input.data[..input.pos], fed);
      fed := fed + lines;
    }
  }
}
