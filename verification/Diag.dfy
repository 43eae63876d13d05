/** The two-thread diagnostic handshake of crates/multitop/src/diag.rs: the
    signal thread notes signals and writes the signal tier, the event loop
    polls for requests. Every atomic access is one step, in one total order. */
module Diag {

  /** The two signals. A stored signal number of zero, as at the start, names USR1. */
  datatype Sig = Usr1 | Usr2

  /** Where the signal thread stands: after the named access of `note_signal`, or waiting. */
  datatype SignalPc =
    | Waiting
    | Counted(sig: Sig)      // signals_seen.fetch_add
    | Requested(sig: Sig)    // requested.store(true)
    | SigStored(sig: Sig)    // requested_sig.store
    | SeqDrawn(sig: Sig, n: nat) // seq.fetch_add
    | SeqStored(sig: Sig)    // requested_seq.store

  /** Where the loop stands in `take_request`. */
  datatype LoopPc =
    | Idle
    | Swapped               // requested.swap(false) was true
    | SigLoaded(sig: Sig)   // requested_sig.load

  /** A number and a name: what a dump is filed under. */
  datatype Label = Label(n: nat, sig: Sig)

  /** The atomics, the two threads, and what has happened: the signals noted in
      order, the signal-tier files written, the requests taken. */
  datatype State = State(
    requested: bool, requestedSig: Sig, requestedSeq: nat, counter: nat, signalsSeen: nat,
    signal: SignalPc, loop: LoopPc,
    noted: seq<Sig>, written: seq<Label>, taken: seq<Label>)

  const START := State(false, Usr1, 0, 0, 0, Waiting, Idle, [], [], [])

  datatype Step = Arrive(sig: Sig) | SignalStep | LoopStep

  /** A step is taken by a thread that has one to take. */
  predicate Enabled(s: State, step: Step) {
    match step
    case Arrive(_) => s.signal == Waiting
    case SignalStep => s.signal != Waiting
    case LoopStep => true
  }

  function Next(s: State, step: Step): State
    requires Enabled(s, step)
  {
    match step
    case Arrive(sig) =>
      s.(signalsSeen := s.signalsSeen + 1, noted := s.noted + [sig], signal := Counted(sig))
    case SignalStep =>
      (match s.signal
       case Counted(sig) => s.(requested := true, signal := Requested(sig))
       case Requested(sig) => s.(requestedSig := sig, signal := SigStored(sig))
       case SigStored(sig) => s.(counter := s.counter + 1, signal := SeqDrawn(sig, s.counter))
       case SeqDrawn(sig, n) => s.(requestedSeq := n, signal := SeqStored(sig))
       // The thread reads `requested_seq` back and writes its file.
       case SeqStored(sig) => s.(written := s.written + [Label(s.requestedSeq, sig)], signal := Waiting)
       case Waiting => s)
    case LoopStep =>
      (match s.loop
       case Idle => if s.requested then s.(requested := false, loop := Swapped) else s
       case Swapped => s.(loop := SigLoaded(s.requestedSig))
       case SigLoaded(sig) => s.(taken := s.taken + [Label(s.requestedSeq, sig)], loop := Idle))
  }

  /** The state after each of these steps in turn, whichever thread takes them. */
  ghost predicate CanRun(s: State, steps: seq<Step>)
    decreases |steps|
  {
    steps == [] || (Enabled(s, steps[0]) && CanRun(Next(s, steps[0]), steps[1..]))
  }

  function Run(s: State, steps: seq<Step>): State
    requires CanRun(s, steps)
    decreases |steps|
  {
    if steps == [] then s else Run(Next(s, steps[0]), steps[1..])
  }

  // ------------------------------------------------------------------ what always holds

  /** Signals whose request flag, whose name, whose number is in place. */
  function Flagged(s: State): int {
    |s.noted| - if s.signal.Counted? then 1 else 0
  }

  function Named(s: State): int {
    |s.noted| - if s.signal.Counted? || s.signal.Requested? then 1 else 0
  }

  function Drawn(s: State): int {
    |s.noted| - if s.signal.Counted? || s.signal.Requested? || s.signal.SigStored? then 1 else 0
  }

  function Numbered(s: State): int {
    |s.noted| - if s.signal.Waiting? || s.signal.SeqStored? then 0 else 1
  }

  function Written(s: State): int {
    |s.noted| - if s.signal.Waiting? then 0 else 1
  }

  /** Requests consumed: taken, or being taken. */
  function Swaps(s: State): nat {
    |s.taken| + if s.loop.Idle? then 0 else 1
  }

  /** The counters, the flag and the stored label say what the history says. */
  ghost predicate Tallied(s: State) {
    && s.signalsSeen == |s.noted|
    && (s.signal.Waiting? || (|s.noted| > 0 && s.signal.sig == s.noted[|s.noted| - 1]))
    && (s.signal.SeqDrawn? ==> s.signal.n == |s.noted| - 1)
    && Swaps(s) + (if s.requested then 1 else 0) <= Flagged(s)
    && s.counter == Drawn(s)
    && s.requestedSeq == (if Numbered(s) > 0 then Numbered(s) - 1 else 0)
    && s.requestedSig == (if Named(s) > 0 then s.noted[Named(s) - 1] else Usr1)
  }

  /** The files written are numbered in order, each under its own signal. */
  ghost predicate Filed(s: State) {
    && |s.written| == Written(s)
    && forall i :: 0 <= i < |s.written| ==> s.written[i] == Label(i, s.noted[i])
  }

  ghost predicate Inv(s: State) {
    Tallied(s) && Filed(s)
  }

  /** A step of the loop touches only the flag, its own place and what it has taken. */
  lemma LoopLeavesInv(s: State, t: State)
    requires Inv(s) && t == s.(requested := t.requested, loop := t.loop, taken := t.taken)
    requires Swaps(t) + (if t.requested then 1 else 0) == Swaps(s) + (if s.requested then 1 else 0)
    ensures Inv(t)
  {
    hide Swaps;
  }

  lemma LoopKeepsInv(s: State)
    requires Inv(s)
    ensures Inv(Next(s, LoopStep))
  {
    hide Inv;
    LoopLeavesInv(s, Next(s, LoopStep));
  }

  lemma ArrivalKeepsInv(s: State, sig: Sig)
    requires Inv(s) && Enabled(s, Arrive(sig))
    ensures Inv(Next(s, Arrive(sig)))
  {
    var t := Next(s, Arrive(sig));
    assert forall i :: 0 <= i < |s.noted| ==> t.noted[i] == s.noted[i];
  }

  lemma SignalKeepsTallied(s: State)
    requires Tallied(s) && Enabled(s, SignalStep)
    ensures Tallied(Next(s, SignalStep))
  {
  }

  lemma SignalKeepsInv(s: State)
    requires Inv(s) && Enabled(s, SignalStep)
    ensures Inv(Next(s, SignalStep))
  {
    SignalKeepsTallied(s);
    var t := Next(s, SignalStep);
    assert t.noted == s.noted;
    assert s.signal.SeqStored? ==> t.written == s.written + [Label(|s.written|, s.noted[|s.written|])];
  }

  lemma StepKeepsInv(s: State, step: Step)
    requires Inv(s) && Enabled(s, step)
    ensures Inv(Next(s, step))
  {
    hide Inv, Next;
    match step
    case Arrive(sig) => ArrivalKeepsInv(s, sig);
    case SignalStep => SignalKeepsInv(s);
    case LoopStep => LoopKeepsInv(s);
  }

  /** Every state any interleaving reaches. */
  lemma {:induction false} RunKeepsInv(s: State, steps: seq<Step>)
    requires Inv(s) && CanRun(s, steps)
    ensures Inv(Run(s, steps))
    decreases |steps|
  {
    hide Inv, Next;
    if steps == [] {
    } else {
      StepKeepsInv(s, steps[0]);
      RunKeepsInv(Next(s, steps[0]), steps[1..]);
    }
  }

  lemma StartHolds()
    ensures Inv(START)
  {
  }

  /** In every interleaving: requests taken never exceed signals noted, and the
      signal-tier files are numbered 0, 1, 2 and on, each under its own signal,
      so no two share a number. */
  lemma EveryRun(steps: seq<Step>)
    requires CanRun(START, steps)
    ensures var s := Run(START, steps);
            && |s.taken| <= |s.noted| == s.signalsSeen
            && (forall i :: 0 <= i < |s.written| ==> i < |s.noted| && s.written[i] == Label(i, s.noted[i]))
            && (forall i, j :: 0 <= i < j < |s.written| ==> s.written[i].n != s.written[j].n)
  {
    StartHolds();
    RunKeepsInv(START, steps);
    hide Run;
  }

  // ------------------------------------------------------------------- nothing is lost

  /** The loop polls: it enters `take_request` at this step. */
  predicate Polls(s: State, step: Step) {
    step == LoopStep && s.loop == Idle
  }

  ghost predicate PollsWithin(s: State, steps: seq<Step>)
    requires CanRun(s, steps)
    decreases |steps|
  {
    steps != [] && (Polls(s, steps[0]) || PollsWithin(Next(s, steps[0]), steps[1..]))
  }

  lemma {:induction false} SwapsGrow(s: State, steps: seq<Step>)
    requires CanRun(s, steps)
    ensures Swaps(s) <= Swaps(Run(s, steps))
    decreases |steps|
  {
    if steps == [] {
    } else {
      SwapsGrow(Next(s, steps[0]), steps[1..]);
      assert Swaps(s) <= Swaps(Next(s, steps[0]));
    }
  }

  /** Once a signal's request flag is up, a poll after it consumes a request,
      whatever the threads do in between: the signal is not lost. */
  lemma {:induction false} FlaggedSignalIsTaken(s: State, steps: seq<Step>)
    requires s.requested && CanRun(s, steps) && PollsWithin(s, steps)
    ensures Swaps(Run(s, steps)) > Swaps(s)
    decreases |steps|
  {
    var next := Next(s, steps[0]);
    if Polls(s, steps[0]) {
      SwapsGrow(next, steps[1..]);
    } else {
      assert next.requested && Swaps(next) >= Swaps(s);
      FlaggedSignalIsTaken(next, steps[1..]);
    }
  }

  lemma {:induction false} RunOn(s: State, a: seq<Step>, b: seq<Step>)
    requires CanRun(s, a) && CanRun(Run(s, a), b)
    ensures CanRun(s, a + b) && Run(s, a + b) == Run(Run(s, a), b)
    decreases |a|
  {
    hide Next, Enabled;
    if a == [] {
      assert a + b == b;
    } else {
      RunOn(Next(s, a[0]), a[1..], b);
      assert (a + b)[1..] == a[1..] + b;
    }
  }

  lemma RunOne(s: State, step: Step)
    requires Enabled(s, step)
    ensures CanRun(s, [step]) && Run(s, [step]) == Next(s, step)
  {
    var t := Next(s, step);
    assert Run(t, []) == t && [step][1..] == [];
  }

  /** A noted signal is not lost: in any run in which `note_signal` takes its
      second access, which raises the flag, and the loop polls afterwards, a
      request is consumed after that access. */
  lemma NotedSignalIsTaken(s: State, before: seq<Step>, after: seq<Step>)
    requires CanRun(s, before) && Run(s, before).signal.Counted?
    requires CanRun(Next(Run(s, before), SignalStep), after) && PollsWithin(Next(Run(s, before), SignalStep), after)
    ensures CanRun(s, before + [SignalStep] + after)
    ensures Swaps(Run(s, before + [SignalStep] + after)) > Swaps(Run(s, before))
  {
    hide Run, CanRun, PollsWithin;
    var noting := Run(s, before);
    var flagged := Next(noting, SignalStep);
    RunOne(noting, SignalStep);
    RunOn(s, before, [SignalStep]);
    RunOn(s, before + [SignalStep], after);
    FlaggedSignalIsTaken(flagged, after);
  }

  // -------------------------------------------------------------- what a request says

  /** `note_signal` is not between its first access and its last. */
  predicate Settled(s: State) {
    s.signal.Waiting? || s.signal.SeqStored?
  }

  /** A taken request carries the latest signal's number exactly when no
      `note_signal` is in progress as the number is read, or there has been but
      one signal, whose number the fresh counter shows by chance. */
  lemma NumberIsLatest(s: State)
    requires Inv(s) && s.loop.SigLoaded?
    ensures var t := Next(s, LoopStep);
            t.taken[|s.taken|].n == |s.noted| - 1 <==> Settled(s) || |s.noted| == 1
  {
  }

  /** Likewise its name: right when the latest signal's name is stored, or the
      one before it had the same (before the first, USR1). */
  lemma NameIsLatest(s: State)
    requires Inv(s) && s.loop == Swapped
    ensures var last := |s.noted| - 1;
            Next(s, LoopStep).loop.sig == s.noted[last] <==>
            Named(s) == |s.noted| || s.noted[last] == (if last > 0 then s.noted[last - 1] else Usr1)
  {
  }

  predicate NoArrival(steps: seq<Step>) {
    forall i :: 0 <= i < |steps| ==> !steps[i].Arrive?
  }

  /** The request being taken will carry the latest signal's number and name. */
  ghost predicate OnCourse(s: State) {
    Settled(s) && |s.noted| > 0 && (s.loop.SigLoaded? ==> s.loop.sig == s.noted[|s.noted| - 1])
  }

  /** A poll that finds a request while no `note_signal` is in progress, and
      none begins before it ends, returns the latest signal's number and name. */
  lemma {:induction false} UndisturbedPollIsLatest(s: State, steps: seq<Step>)
    requires Inv(s) && !s.loop.Idle? && OnCourse(s)
    requires CanRun(s, steps) && NoArrival(steps)
    ensures var t := Run(s, steps);
            && t.noted == s.noted && s.taken <= t.taken
            && (|t.taken| > |s.taken| ==> t.taken[|s.taken|] == Label(|s.noted| - 1, s.noted[|s.noted| - 1]))
    decreases |steps|
  {
    if steps == [] {
    } else {
      var next := Next(s, steps[0]);
      StepKeepsInv(s, steps[0]);
      assert forall i :: 0 <= i < |steps| - 1 ==> steps[1..][i] == steps[i + 1];
      assert Enabled(s, steps[0]) && !steps[0].Arrive?;
      if next.loop.Idle? {
        TakenStays(next, steps[1..]);
      } else {
        UndisturbedPollIsLatest(next, steps[1..]);
      }
    }
  }

  /** What has been taken stays taken, and only arrivals are noted. */
  lemma {:induction false} TakenStays(s: State, steps: seq<Step>)
    requires CanRun(s, steps) && NoArrival(steps)
    ensures s.taken <= Run(s, steps).taken && Run(s, steps).noted == s.noted
    decreases |steps|
  {
    if steps == [] {
    } else {
      assert forall i :: 0 <= i < |steps| - 1 ==> steps[1..][i] == steps[i + 1];
      assert !steps[0].Arrive?;
      TakenStays(Next(s, steps[0]), steps[1..]);
    }
  }

  /** A poll begun with the signal thread settled sets out on that course. */
  lemma SettledPollSetsOut(s: State)
    requires Inv(s) && s.loop == Idle && s.requested && Settled(s)
    ensures var t := Next(s, LoopStep); !t.loop.Idle? && OnCourse(t)
  {
  }

  // ---------------------------------------------------------- a poll in the middle

  /** The rest of one signal's steps after it arrives, its file included. */
  const WHOLE_NOTE: seq<Step> := [SignalStep] + [SignalStep] + [SignalStep] + [SignalStep] + [SignalStep]

  const POLL: seq<Step> := [LoopStep] + [LoopStep] + [LoopStep]

  lemma NoteRuns(s: State, sig: Sig)
    requires s.signal == Counted(sig)
    ensures CanRun(s, WHOLE_NOTE)
    ensures Run(s, WHOLE_NOTE) ==
            s.(requested := true, requestedSig := sig, requestedSeq := s.counter, counter := s.counter + 1,
               written := s.written + [Label(s.counter, sig)], signal := Waiting)
  {
    var a, b := Next(s, SignalStep), Next(Next(s, SignalStep), SignalStep);
    var c := Next(b, SignalStep);
    var d := Next(c, SignalStep);
    RunOne(s, SignalStep);
    RunOne(a, SignalStep);
    RunOne(b, SignalStep);
    RunOne(c, SignalStep);
    RunOne(d, SignalStep);
    hide Next, Run, CanRun;
    RunOn(s, [SignalStep], [SignalStep]);
    RunOn(s, [SignalStep] + [SignalStep], [SignalStep]);
    RunOn(s, [SignalStep] + [SignalStep] + [SignalStep], [SignalStep]);
    RunOn(s, [SignalStep] + [SignalStep] + [SignalStep] + [SignalStep], [SignalStep]);
  }

  lemma PollRuns(s: State)
    requires s.loop == Idle && s.requested
    ensures CanRun(s, POLL)
    ensures Run(s, POLL) == s.(requested := false, taken := s.taken + [Label(s.requestedSeq, s.requestedSig)])
  {
    var a, b := Next(s, LoopStep), Next(Next(s, LoopStep), LoopStep);
    RunOne(s, LoopStep);
    RunOne(a, LoopStep);
    RunOne(b, LoopStep);
    RunOn(s, [LoopStep], [LoopStep]);
    RunOn(s, [LoopStep] + [LoopStep], [LoopStep]);
  }

  /** A poll in the middle of `note_signal` returns a stale request: USR1 is
      noted and taken, USR2 raises its flag, and a poll before its name and
      number are stored takes number 0 and USR1 again. USR2's own request is
      spent with it. */
  lemma PollDuringNoteIsStale()
    ensures var steps := [Arrive(Usr1)] + WHOLE_NOTE + POLL + [Arrive(Usr2)] + [SignalStep] + POLL;
            CanRun(START, steps) &&
            var t := Run(START, steps);
            t.noted == [Usr1, Usr2] && t.taken == [Label(0, Usr1), Label(0, Usr1)] && !t.requested && !Settled(t)
  {
    hide CanRun, Run;
    var s1 := Next(START, Arrive(Usr1));
    RunOne(START, Arrive(Usr1));
    NoteRuns(s1, Usr1);
    RunOn(START, [Arrive(Usr1)], WHOLE_NOTE);
    var s2 := Run(s1, WHOLE_NOTE);
    PollRuns(s2);
    RunOn(START, [Arrive(Usr1)] + WHOLE_NOTE, POLL);
    var s3 := Run(s2, POLL);
    RunOne(s3, Arrive(Usr2));
    RunOn(START, [Arrive(Usr1)] + WHOLE_NOTE + POLL, [Arrive(Usr2)]);
    var s4 := Next(s3, Arrive(Usr2));
    RunOne(s4, SignalStep);
    RunOn(START, [Arrive(Usr1)] + WHOLE_NOTE + POLL + [Arrive(Usr2)], [SignalStep]);
    var s5 := Next(s4, SignalStep);
    PollRuns(s5);
    RunOn(START, [Arrive(Usr1)] + WHOLE_NOTE + POLL + [Arrive(Usr2)] + [SignalStep], POLL);
  }
}
