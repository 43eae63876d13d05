/** What a panel remembers of one measured quantity: `Series` of
    crates/multitop/src/history.rs. */
module History {

  const SAMPLES := 4096

  /** A measurement as it arrives; an `f64` that is NaN or infinite is `NotFinite`. */
  datatype Reading = Finite(value: real) | NotFinite

  /** What is stored of a reading: neither a negative nor a non-finite number is drawable. */
  function Clamped(r: Reading): real {
    match r
    case Finite(v) => if v > 0.0 then v else 0.0
    case NotFinite => 0.0
  }

  function AllClamped(rs: seq<Reading>): (s: seq<real>)
    ensures |s| == |rs|
    ensures forall i :: 0 <= i < |rs| ==> s[i] == Clamped(rs[i])
  {
    seq(|rs|, i requires 0 <= i < |rs| => Clamped(rs[i]))
  }

  /** The last `n` of a sequence, or all of it. */
  function Newest<T>(s: seq<T>, n: nat): (r: seq<T>)
    ensures |r| == if |s| < n then |s| else n
    ensures forall i :: 0 <= i < |r| ==> r[i] == s[|s| - |r| + i]
  {
    if |s| < n then s else s[|s| - n..]
  }

  class Series {
    var samples: seq<real>

    ghost predicate Valid()
      reads this
    {
      |samples| <= SAMPLES
    }

    constructor ()
      ensures Valid() && samples == []
    {
      samples := [];
    }

    method Push(value: Reading)
      requires Valid()
      modifies this
      ensures Valid() && samples == Newest(old(samples) + [Clamped(value)], SAMPLES)
      ensures samples[|samples| - 1] == if value.Finite? && value.value >= 0.0 then value.value else 0.0
    {
      var clamped := match value case Finite(v) => (if v > 0.0 then v else 0.0) case NotFinite => 0.0;
      if |samples| == SAMPLES {
        samples := samples[1..];
      }
      samples := samples + [clamped];
    }

    method Tail(n: nat) returns (r: seq<real>)
      requires Valid()
      ensures r == Newest(samples, n)
    {
      var skip := if |samples| < n then 0 else |samples| - n;
      r := samples[skip..];
    }
  }

  /** A series after a run of pushes, one `Push` a reading. */
  ghost function Pushed(rs: seq<Reading>): seq<real> {
    if rs == [] then [] else Newest(Pushed(rs[..|rs| - 1]) + [Clamped(rs[|rs| - 1])], SAMPLES)
  }

  /** Of a run, the reading `age` places from the newest is stored as it is when
      it is finite and not negative, and as zero otherwise. */
  lemma StoredAsRead(rs: seq<Reading>, age: nat)
    requires age < |rs| && age < SAMPLES
    ensures var s, r := Pushed(rs), rs[|rs| - 1 - age];
            age < |s| && s[|s| - 1 - age] == if r.Finite? && r.value >= 0.0 then r.value else 0.0
  {
    hide Pushed, Newest, AllClamped;
    PushedIsNewest(rs);
  }

  lemma PushedNothing()
    ensures forall rs: seq<Reading> :: Pushed(rs[..0]) == []
  {
  }

  lemma PushedOneMore(rs: seq<Reading>, i: nat)
    requires i < |rs|
    ensures Pushed(rs[..i + 1]) == Newest(Pushed(rs[..i]) + [Clamped(rs[i])], SAMPLES)
  {
    hide Newest, Clamped;
    assert rs[..i + 1][..i] == rs[..i];
  }

  lemma NewestSnoc<T>(s: seq<T>, x: T, n: nat)
    ensures Newest(Newest(s, n) + [x], n) == Newest(s + [x], n)
  {
  }

  lemma AllClampedSnoc(rs: seq<Reading>)
    requires rs != []
    ensures AllClamped(rs) == AllClamped(rs[..|rs| - 1]) + [Clamped(rs[|rs| - 1])]
  {
    hide Clamped;
  }

  /** A series holds the newest 4096 clamped readings of its whole life. */
  lemma {:induction false} PushedIsNewest(rs: seq<Reading>)
    ensures Pushed(rs) == Newest(AllClamped(rs), SAMPLES)
  {
    hide Clamped, Newest;
    if rs == [] {
    } else {
      PushedIsNewest(rs[..|rs| - 1]);
      AllClampedSnoc(rs);
      NewestSnoc(AllClamped(rs[..|rs| - 1]), Clamped(rs[|rs| - 1]), SAMPLES);
    }
  }

  /** Taking the newest of the newest. */
  lemma NewestOfNewest<T>(s: seq<T>, m: nat, n: nat)
    ensures Newest(Newest(s, m), n) == Newest(s, if m < n then m else n)
  {
  }

  /** What a graph `dots` wide shows of a series read with a window at least
      that wide: the newest samples of the whole run, no more than the series keeps. */
  lemma ShownOfRun(rs: seq<Reading>, window: nat, dots: nat)
    requires dots <= window
    ensures Newest(Newest(Pushed(rs), window), dots) == Newest(AllClamped(rs), if dots < SAMPLES then dots else SAMPLES)
  {
    PushedIsNewest(rs);
    NewestOfNewest(Pushed(rs), window, dots);
    NewestOfNewest(AllClamped(rs), SAMPLES, dots);
  }
}
