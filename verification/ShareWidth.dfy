/** Sharing a row's width between cells that may shrink: `share_width` of
    crates/multitop/src/layout.rs. */
module ShareWidth {
  import opened Basics

  function Sum(s: seq<nat>): nat {
    if s == [] then 0 else Sum(s[..|s| - 1]) + s[|s| - 1]
  }

  /** The most a cell is ever given: what it wants, or its minimum if that is more. */
  function Cap(min: nat, want: nat): nat {
    if want > min then want else min
  }

  function Caps(min: seq<nat>, want: seq<nat>): (r: seq<nat>)
    requires |min| <= |want|
    ensures |r| == |min| && forall i :: 0 <= i < |min| ==> r[i] == Cap(min[i], want[i])
  {
    seq(|min|, i requires 0 <= i < |min| => Cap(min[i], want[i]))
  }

  // --------------------------------------------------------- what a share must be

  ghost predicate Within(min: seq<nat>, want: seq<nat>, out: seq<nat>) {
    |out| == |min| <= |want| && forall i :: 0 <= i < |min| ==> min[i] <= out[i] <= Cap(min[i], want[i])
  }

  /** What a cell holds beyond its minimum. */
  ghost function Grant(min: seq<nat>, out: seq<nat>, i: nat): int
    requires i < |min| && i < |out|
  {
    out[i] as int - min[i] as int
  }

  /** A cell still short of its want has no less than any other cell's grant
      minus one, and no less than any later cell's. */
  ghost predicate Fair(min: seq<nat>, want: seq<nat>, out: seq<nat>)
    requires Within(min, want, out)
  {
    forall i, j :: 0 <= i < |min| && 0 <= j < |min| && out[i] < want[i] ==>
      Grant(min, out, j) <= Grant(min, out, i) + (if i < j then 0 else 1)
  }

  lemma {:induction false} SumOrder(a: seq<nat>, b: seq<nat>)
    requires |a| == |b| && forall i :: 0 <= i < |a| ==> a[i] <= b[i]
    ensures Sum(a) <= Sum(b)
    ensures Sum(a) == Sum(b) ==> a == b
  {
    if a == [] {
    } else {
      SumOrder(a[..|a| - 1], b[..|b| - 1]);
      assert a == a[..|a| - 1] + [a[|a| - 1]];
      assert b == b[..|b| - 1] + [b[|b| - 1]];
    }
  }

  /** Two fair shares cannot trade: what one cell gains no other cell has lost. */
  lemma NoTrade(min: seq<nat>, want: seq<nat>, a: seq<nat>, b: seq<nat>, i: nat, j: nat)
    requires Within(min, want, a) && Within(min, want, b)
    requires Fair(min, want, a) && Fair(min, want, b)
    requires i < |a| && j < |a|
    ensures !(a[i] < b[i] && b[j] < a[j])
  {
    assert a[i] < want[i] ==> Grant(min, a, j) <= Grant(min, a, i) + (if i < j then 0 else 1);
    assert b[j] < want[j] ==> Grant(min, b, i) <= Grant(min, b, j) + (if j < i then 0 else 1);
  }

  /** Fairness, the bounds and the total leave only one answer. */
  lemma FairShareIsUnique(min: seq<nat>, want: seq<nat>, a: seq<nat>, b: seq<nat>)
    requires Within(min, want, a) && Within(min, want, b)
    requires Fair(min, want, a) && Fair(min, want, b)
    requires Sum(a) == Sum(b)
    ensures a == b
  {
    forall i, j | 0 <= i < |a| && 0 <= j < |a|
      ensures !(a[i] < b[i] && b[j] < a[j])
    {
      NoTrade(min, want, a, b, i, j);
    }
    hide Fair, Within;
    if forall i :: 0 <= i < |a| ==> a[i] <= b[i] {
      SumOrder(a, b);
    } else {
      SumOrder(b, a);
    }
  }

  /** A sum is the sum of its parts, and of one cell the cell. */
  lemma {:induction false} SumOfParts(a: seq<nat>, b: seq<nat>, x: nat)
    ensures Sum(a + b) == Sum(a) + Sum(b) && Sum([x]) == x
  {
    assert [x][..0] == [];
    if b == [] {
      assert a + b == a;
    } else {
      SumOfParts(a, b[..|b| - 1], x);
      assert (a + b)[..|a + b| - 1] == a + b[..|b| - 1];
    }
  }

  lemma {:induction false} SumUpdate(s: seq<nat>, i: nat, v: nat)
    requires i < |s|
    ensures Sum(s[i := v]) == Sum(s) - s[i] + v
  {
    var last := |s| - 1;
    if i == last {
      assert s[i := v][..last] == s[..last];
    } else {
      SumUpdate(s[..last], i, v);
      assert s[i := v][..last] == s[..last][i := v];
    }
  }

  // ---------------------------------------------------------------- the allocator

  /** The cells still short of their want, in display order. */
  ghost predicate Hungry(min: seq<nat>, want: seq<nat>, out: seq<nat>, hungry: seq<nat>)
    requires |out| == |min| <= |want|
  {
    && (forall k :: 0 <= k < |hungry| ==> hungry[k] < |min| && out[hungry[k]] < want[hungry[k]])
    && (forall k, l :: 0 <= k < l < |hungry| ==> hungry[k] < hungry[l])
    && (forall i :: 0 <= i < |min| && out[i] < want[i] ==> i in hungry)
  }

  /** Between rounds every hungry cell has been granted the same, and no cell more. */
  ghost predicate AtLevel(min: seq<nat>, want: seq<nat>, out: seq<nat>, level: nat)
    requires |out| == |min| <= |want|
  {
    forall i :: 0 <= i < |min| ==>
      Grant(min, out, i) <= level && (out[i] < want[i] ==> Grant(min, out, i) == level)
  }

  /** How a round leaves the cells: the first `fed` hungry ones have had their
      share or their need, the others nothing. */
  ghost predicate Fed(before: seq<nat>, want: seq<nat>, hungry: seq<nat>, share: nat, fed: nat, out: seq<nat>)
    requires |out| == |before| <= |want| && fed <= |hungry|
    requires forall k :: 0 <= k < |hungry| ==> hungry[k] < |before| && before[hungry[k]] <= want[hungry[k]]
  {
    && (forall k :: 0 <= k < fed ==>
          out[hungry[k]] == before[hungry[k]] + Least(share, want[hungry[k]] - before[hungry[k]]))
    && (forall i :: 0 <= i < |before| && i !in hungry[..fed] ==> out[i] == before[i])
  }

  lemma FedStep(before: seq<nat>, want: seq<nat>, hungry: seq<nat>, share: nat, k: nat, out: seq<nat>)
    requires |out| == |before| <= |want| && k < |hungry|
    requires forall l :: 0 <= l < |hungry| ==> hungry[l] < |before| && before[hungry[l]] < want[hungry[l]]
    requires forall l, m :: 0 <= l < m < |hungry| ==> hungry[l] < hungry[m]
    requires Fed(before, want, hungry, share, k, out)
    ensures out[hungry[k]] == before[hungry[k]]
    ensures Fed(before, want, hungry, share, k + 1,
                out[hungry[k] := out[hungry[k]] + Least(share, want[hungry[k]] - out[hungry[k]])])
  {
    var i := hungry[k];
    assert i !in hungry[..k];
    assert hungry[..k + 1] == hungry[..k] + [i];
  }

  lemma Untouched(before: seq<nat>, want: seq<nat>, hungry: seq<nat>, share: nat, fed: nat, k: nat, out: seq<nat>)
    requires |out| == |before| <= |want| && fed <= k < |hungry|
    requires forall l :: 0 <= l < |hungry| ==> hungry[l] < |before| && before[hungry[l]] < want[hungry[l]]
    requires forall l, m :: 0 <= l < m < |hungry| ==> hungry[l] < hungry[m]
    requires Fed(before, want, hungry, share, fed, out)
    ensures out[hungry[k]] < want[hungry[k]]
  {
    assert hungry[k] !in hungry[..fed];
  }

  /** The hungry cells that are hungry still, among the first `k` of them. */
  ghost predicate StillHungry(want: seq<nat>, hungry: seq<nat>, k: nat, out: seq<nat>, still: seq<nat>)
    requires |out| <= |want| && k <= |hungry|
    requires forall l :: 0 <= l < |hungry| ==> hungry[l] < |out|
  {
    && (forall m :: 0 <= m < |still| ==> still[m] in hungry[..k] && out[still[m]] < want[still[m]])
    && (forall l, m :: 0 <= l < m < |still| ==> still[l] < still[m])
    && (forall m :: 0 <= m < k && out[hungry[m]] < want[hungry[m]] ==> hungry[m] in still)
  }

  lemma StillHungryStep(want: seq<nat>, hungry: seq<nat>, k: nat, out: seq<nat>, still: seq<nat>, out': seq<nat>)
    requires |out| == |out'| <= |want| && k < |hungry|
    requires forall l :: 0 <= l < |hungry| ==> hungry[l] < |out|
    requires forall l, m :: 0 <= l < m < |hungry| ==> hungry[l] < hungry[m]
    requires StillHungry(want, hungry, k, out, still)
    requires forall j :: 0 <= j < |out| && j != hungry[k] ==> out'[j] == out[j]
    ensures StillHungry(want, hungry, k + 1, out',
                        if out'[hungry[k]] < want[hungry[k]] then still + [hungry[k]] else still)
  {
    var i := hungry[k];
    assert i !in hungry[..k];
    assert hungry[..k + 1] == hungry[..k] + [i];
  }

  /** One round over the hungry cells. */
  method Round(want: seq<nat>, before: seq<nat>, hungry: seq<nat>, surplus: nat)
    returns (out: seq<nat>, pool: nat, stillHungry: seq<nat>, ghost share: nat, ghost fed: nat)
    requires |before| <= |want| && surplus > 0 && hungry != []
    requires forall k :: 0 <= k < |hungry| ==> hungry[k] < |before| && before[hungry[k]] < want[hungry[k]]
    requires forall k, l :: 0 <= k < l < |hungry| ==> hungry[k] < hungry[l]
    ensures |out| == |before| && Sum(out) + pool == Sum(before) + surplus && pool < surplus
    ensures share > 0 && fed <= |hungry| && (fed < |hungry| ==> share == 1 && pool == 0)
    ensures Fed(before, want, hungry, share, fed, out)
    ensures StillHungry(want, hungry, |hungry|, out, stillHungry)
  {
    hide Fed, StillHungry, Times, Sum;
    var n := |hungry|;
    var each := if surplus / n < 1 then 1 else surplus / n;
    share, fed := each, Least(surplus, n);
    RoundBudget(surplus, n);
    out, pool, stillHungry := before, surplus, [];
    RoundStarts(before, want, hungry, each);
    var k := 0;
    while k < n
      invariant k <= n && |out| == |before|
      invariant Fed(before, want, hungry, each, Least(k, fed), out)
      invariant StillHungry(want, hungry, k, out, stillHungry)
      invariant Sum(out) + pool == Sum(before) + surplus && pool <= surplus
      invariant k > 0 ==> pool < surplus
      invariant k < fed ==> pool >= Times(each, fed - k)
      invariant fed < n ==> pool == fed - Least(k, fed)
    {
      var i := hungry[k];
      ghost var was := out;
      if k < fed {
        TimesStep(each, fed - k);
      }
      if pool == 0 {
        Untouched(before, want, hungry, each, fed, k, out);
        StillHungryStep(want, hungry, k, was, stillHungry, out);
        stillHungry := stillHungry + [i];
      } else {
        FedStep(before, want, hungry, each, k, out);
        var need := want[i] - out[i];
        var give := Least(Least(each, need), pool);
        SumUpdate(out, i, out[i] + give);
        out := out[i := out[i] + give];
        pool := pool - give;
        StillHungryStep(want, hungry, k, was, stillHungry, out);
        if out[i] < want[i] {
          stillHungry := stillHungry + [i];
        }
      }
      k := k + 1;
    }
  }

  lemma RoundStarts(before: seq<nat>, want: seq<nat>, hungry: seq<nat>, share: nat)
    requires |before| <= |want|
    requires forall k :: 0 <= k < |hungry| ==> hungry[k] < |before| && before[hungry[k]] <= want[hungry[k]]
    ensures Fed(before, want, hungry, share, 0, before) && StillHungry(want, hungry, 0, before, [])
  {
  }

  ghost function Times(share: nat, cells: nat): nat {
    share * cells
  }

  lemma TimesStep(share: nat, cells: nat)
    requires cells > 0
    ensures Times(share, cells) == Times(share, cells - 1) + share
  {
  }

  lemma RoundBudget(surplus: nat, n: nat)
    requires surplus > 0 && n > 0
    ensures var share := if surplus / n < 1 then 1 else surplus / n;
            share > 0 && Times(share, Least(surplus, n)) <= surplus && (surplus < n ==> share == 1)
  {
  }

  lemma RoundIsFair(min: seq<nat>, want: seq<nat>, before: seq<nat>, hungry: seq<nat>, share: nat, fed: nat,
          out: seq<nat>, level: nat)
    requires Within(min, want, before) && Hungry(min, want, before, hungry) && AtLevel(min, want, before, level)
    requires share > 0 && fed <= |hungry| && (fed < |hungry| ==> share == 1)
    requires |out| == |before| && Fed(before, want, hungry, share, fed, out)
    ensures Within(min, want, out) && Fair(min, want, out)
    ensures fed == |hungry| ==> AtLevel(min, want, out, level + share)
  {
    forall i | 0 <= i < |min|
      ensures min[i] <= out[i] <= Cap(min[i], want[i])
      ensures Grant(min, out, i) <= level + share
      ensures out[i] < want[i] ==> Grant(min, out, i) == if i in hungry[..fed] then level + share else level
      ensures i !in hungry[..fed] ==> Grant(min, out, i) <= level
    {
      if i in hungry[..fed] {
        var k :| 0 <= k < fed && hungry[k] == i;
        assert before[i] < want[i];
      }
    }
    assert Within(min, want, out);
    forall i, j | 0 <= i < |min| && 0 <= j < |min| && out[i] < want[i]
      ensures Grant(min, out, j) <= Grant(min, out, i) + (if i < j then 0 else 1)
    {
      if i !in hungry[..fed] && j in hungry[..fed] {
        // `i` was hungry and not reached, so it stands after every fed cell.
        assert before[i] < want[i] && i in hungry;
        var k :| 0 <= k < |hungry| && hungry[k] == i;
        var l :| 0 <= l < fed && hungry[l] == j;
        assert k >= fed > l;
      }
    }
  }

  lemma RoundLeavesHungry(min: seq<nat>, want: seq<nat>, before: seq<nat>, hungry: seq<nat>, share: nat,
          fed: nat, out: seq<nat>, still: seq<nat>)
    requires |out| == |before| == |min| <= |want| && fed <= |hungry|
    requires Hungry(min, want, before, hungry)
    requires Fed(before, want, hungry, share, fed, out)
    requires StillHungry(want, hungry, |hungry|, out, still)
    ensures Hungry(min, want, out, still)
  {
    assert hungry[..|hungry|] == hungry;
    forall i | 0 <= i < |min| && out[i] < want[i]
      ensures i in still
    {
      if i !in hungry[..fed] {
        assert out[i] == before[i];
      }
      var m :| 0 <= m < |hungry| && hungry[m] == i;
    }
  }

  /** Everything that holds between rounds. */
  ghost predicate BetweenRounds(min: seq<nat>, want: seq<nat>, out: seq<nat>, hungry: seq<nat>, pool: nat) {
    && Within(min, want, out) && Fair(min, want, out) && Hungry(min, want, out, hungry)
    && (pool > 0 ==> exists level: nat :: AtLevel(min, want, out, level))
  }

  lemma RoundKeeps(min: seq<nat>, want: seq<nat>, before: seq<nat>, hungry: seq<nat>, share: nat, fed: nat,
          out: seq<nat>, still: seq<nat>, surplus: nat, pool: nat)
    requires BetweenRounds(min, want, before, hungry, surplus) && surplus > 0
    requires share > 0 && fed <= |hungry| && (fed < |hungry| ==> share == 1 && pool == 0)
    requires |out| == |before| && Fed(before, want, hungry, share, fed, out)
    requires StillHungry(want, hungry, |hungry|, out, still)
    ensures BetweenRounds(min, want, out, still, pool)
  {
    ghost var level: nat :| AtLevel(min, want, before, level);
    RoundLeavesHungry(min, want, before, hungry, share, fed, out, still);
    RoundIsFair(min, want, before, hungry, share, fed, out, level);
    hide Within, Fair, Hungry, Fed, StillHungry, AtLevel;
    if pool > 0 {
      assert AtLevel(min, want, out, level + share);
    }
  }

  lemma SharingStarts(min: seq<nat>, want: seq<nat>, hungry: seq<nat>, pool: nat)
    requires |min| <= |want| && Hungry(min, want, min, hungry)
    ensures BetweenRounds(min, want, min, hungry, pool)
  {
    assert AtLevel(min, want, min, 0);
  }

  lemma SharingEnds(min: seq<nat>, want: seq<nat>, out: seq<nat>, hungry: seq<nat>, pool: nat)
    requires BetweenRounds(min, want, out, hungry, pool) && (pool == 0 || hungry == [])
    ensures Sum(out) == Least(Sum(out) + pool, Sum(Caps(min, want)))
  {
    SumOrder(out, Caps(min, want));
    if pool > 0 {
      assert out == Caps(min, want);
    }
  }

  /** The allocator: what every hungry cell gets of the row. */
  method Share(fixed: nat, flexMin: seq<nat>, flexWant: seq<nat>, budget: nat) returns (out: seq<nat>)
    requires |flexMin| <= |flexWant|
    ensures budget < fixed + Sum(flexMin) ==> out == flexMin
    ensures budget >= fixed + Sum(flexMin) ==> Within(flexMin, flexWant, out) && Fair(flexMin, flexWant, out)
    ensures budget >= fixed + Sum(flexMin) ==> Sum(out) == Least(budget - fixed, Sum(Caps(flexMin, flexWant)))
  {
    var n := |flexMin|;
    if n == 0 {
      assert Caps(flexMin, flexWant) == [];
      return [];
    }
    var floor := Sum(flexMin);
    if budget < fixed + floor {
      return flexMin;
    }
    hide Within, Fair, Fed, StillHungry, Sum;
    var pool: nat := budget - (fixed + floor);
    out := flexMin;
    var hungry := Starving(flexMin, flexWant);
    SharingStarts(flexMin, flexWant, hungry, pool);
    while pool > 0 && hungry != []
      invariant BetweenRounds(flexMin, flexWant, out, hungry, pool)
      invariant Sum(out) + pool == budget - fixed
      decreases pool
    {
      ghost var before, surplus, was := out, pool, hungry;
      assert |before| == |flexMin| by { WithinLength(flexMin, flexWant, before); }
      var still;
      ghost var share, fed;
      out, pool, still, share, fed := Round(flexWant, out, hungry, pool);
      RoundKeeps(flexMin, flexWant, before, was, share, fed, out, still, surplus, pool);
      // The source also breaks here when a round of single cells changed
      // nothing; the pool is empty then, and its loop condition stops it too.
      hungry := still;
    }
    SharingEnds(flexMin, flexWant, out, hungry, pool);
  }

  lemma WithinLength(min: seq<nat>, want: seq<nat>, out: seq<nat>)
    requires Within(min, want, out)
    ensures |out| == |min|
  {
  }

  /** The cells that want more than their minimum, in display order. */
  method Starving(min: seq<nat>, want: seq<nat>) returns (hungry: seq<nat>)
    requires |min| <= |want|
    ensures Hungry(min, want, min, hungry)
  {
    hungry := [];
    var i := 0;
    while i < |min|
      invariant i <= |min|
      invariant forall k :: 0 <= k < |hungry| ==> hungry[k] < i && min[hungry[k]] < want[hungry[k]]
      invariant forall k, l :: 0 <= k < l < |hungry| ==> hungry[k] < hungry[l]
      invariant forall j :: 0 <= j < i && min[j] < want[j] ==> j in hungry
    {
      if want[i] > min[i] {
        hungry := hungry + [i];
      }
      i := i + 1;
    }
  }
}
