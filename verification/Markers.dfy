/** Deleting the colour markers `${c1}` from a logo line: `strip_color_markers`
    of crates/multitop/src/fetch_render.rs. Markers are ASCII, so the byte
    cursor of the source moves over characters here. */
module Markers {
  import opened Basics

  predicate AsciiDigit(c: char) {
    '0' <= c <= '9'
  }

  /** A marker begins: `${c` and a digit. */
  predicate Opens(s: string) {
    |s| > 3 && s[0] == '$' && s[1] == '{' && s[2] == 'c' && AsciiDigit(s[3])
  }

  function DigitRun(s: string): (n: nat)
    ensures n <= |s|
  {
    if s == [] || !AsciiDigit(s[0]) then 0 else 1 + DigitRun(s[1..])
  }

  /** How far a marker that begins here goes, its closing brace left out. */
  function OpenLength(s: string): (n: nat)
    requires Opens(s)
    ensures 3 < n <= |s|
  {
    3 + DigitRun(s[3..])
  }

  predicate Closes(s: string)
    requires Opens(s)
  {
    OpenLength(s) < |s| && s[OpenLength(s)] == '}'
  }

  // ----------------------------------------------------------------- the promise

  /** The text with exactly its closed markers deleted. */
  function Deleted(s: string): string {
    if s == [] then []
    else if !Opens(s) then [s[0]] + Deleted(s[1..])
    else if Closes(s) then Deleted(s[OpenLength(s) + 1..])
    else s[..OpenLength(s)] + Deleted(s[OpenLength(s)..])
  }

  // -------------------------------------------------------------------- the code

  /** What the loop still has to say: `pending` is the text since the last
      closed marker, `rest` the text ahead. */
  function Emitted(pending: string, rest: string): string
    decreases |rest|
  {
    if rest == [] then pending
    else if !Opens(rest) then Emitted(pending + [rest[0]], rest[1..])
    else if Closes(rest) then pending + Emitted([], rest[OpenLength(rest) + 1..])
    else pending + Emitted(pending + rest[..OpenLength(rest)], rest[OpenLength(rest)..])
  }

  /** The index after the digits from `from` on. */
  method SkipDigits(s: string, from: nat) returns (i: nat)
    requires from <= |s|
    ensures i == from + DigitRun(s[from..])
  {
    i := from;
    while i < |s| && AsciiDigit(s[i])
      invariant from <= i <= |s|
      invariant from + DigitRun(s[from..]) == i + DigitRun(s[i..])
    {
      i := i + 1;
    }
  }

  /** What has been said, what is pending and what is ahead make up the output. */
  ghost predicate OnTheWay(s: string, result: string, last: nat, i: nat) {
    last <= i <= |s| && result + Emitted(s[last..i], s[i..]) == Emitted([], s)
  }

  lemma Begins(s: string)
    ensures OnTheWay(s, [], 0, 0)
  {
    hide Emitted;
    assert s[0..0] == [] && s[0..] == s;
  }

  lemma PassesCharacter(s: string, result: string, last: nat, i: nat)
    requires OnTheWay(s, result, last, i) && i < |s| && !Opens(s[i..])
    ensures OnTheWay(s, result, last, i + 1)
  {
    hide Emitted;
    EmittedStep(s[last..i], s[i..]);
    assert s[i..][1..] == s[i + 1..] && s[last..i + 1] == s[last..i] + [s[i]];
  }

  lemma PassesClosed(s: string, result: string, last: nat, i: nat, to: nat)
    requires OnTheWay(s, result, last, i) && i < |s| && Opens(s[i..]) && to == i + OpenLength(s[i..])
    requires to < |s| && s[to] == '}'
    ensures OnTheWay(s, result + s[last..i], to + 1, to + 1)
  {
    hide Emitted, DigitRun;
    EmittedStep(s[last..i], s[i..]);
    assert s[to + 1..to + 1] == [] && s[i..][OpenLength(s[i..]) + 1..] == s[to + 1..];
    Associate(result, s[last..i], Emitted([], s[to + 1..]));
  }

  lemma PassesUnclosed(s: string, result: string, last: nat, i: nat, to: nat)
    requires OnTheWay(s, result, last, i) && i < |s| && Opens(s[i..]) && to == i + OpenLength(s[i..])
    requires !(to < |s| && s[to] == '}')
    ensures OnTheWay(s, result + s[last..i], last, to)
  {
    hide Emitted, DigitRun;
    EmittedStep(s[last..i], s[i..]);
    assert s[i..][OpenLength(s[i..])..] == s[to..] && s[i..][..OpenLength(s[i..])] == s[i..to];
    assert s[last..to] == s[last..i] + s[i..to];
    Associate(result, s[last..i], Emitted(s[last..to], s[to..]));
  }

  lemma Ends(s: string, result: string, last: nat)
    requires OnTheWay(s, result, last, |s|)
    ensures result + s[last..] == Emitted([], s)
  {
    hide Emitted;
    assert s[|s|..] == [] && s[last..|s|] == s[last..];
    EmittedEnd(s[last..]);
  }

  method StripColorMarkers(s: string) returns (result: string)
    ensures result == Emitted([], s)
  {
    hide OnTheWay, Emitted, DigitRun;
    result := [];
    var last: nat, i: nat := 0, 0;
    Begins(s);
    while i < |s|
      invariant last <= i <= |s|
      invariant OnTheWay(s, result, last, i)
      decreases |s| - i
    {
      if s[i] == '$' && i + 3 < |s| && s[i + 1] == '{' && s[i + 2] == 'c' && AsciiDigit(s[i + 3]) {
        ghost var to := i + OpenLength(s[i..]);
        if to < |s| && s[to] == '}' {
          PassesClosed(s, result, last, i, to);
        } else {
          PassesUnclosed(s, result, last, i, to);
        }
        result := result + s[last..i];
        assert s[i..][3..] == s[i + 3..];
        i := i + 3;
        i := SkipDigits(s, i);
        if i < |s| && s[i] == '}' {
          i := i + 1;
          last := i;
        }
      } else {
        PassesCharacter(s, result, last, i);
        i := i + 1;
      }
    }
    Ends(s, result, last);
    result := result + s[last..];
  }

  lemma EmittedEnd(pending: string)
    ensures Emitted(pending, []) == pending
  {
  }

  lemma EmittedStep(pending: string, rest: string)
    requires rest != []
    ensures Emitted(pending, rest) ==
            if !Opens(rest) then Emitted(pending + [rest[0]], rest[1..])
            else if Closes(rest) then pending + Emitted([], rest[OpenLength(rest) + 1..])
            else pending + Emitted(pending + rest[..OpenLength(rest)], rest[OpenLength(rest)..])
  {
    hide DigitRun;
  }

  // ---------------------------------------------- when the code keeps the promise

  /** The characters said twice: a marker that opens and does not close sends
      out the text since the last closed marker, and leaves it pending. */
  function Repeated(pending: nat, rest: string): nat
    decreases |rest|
  {
    if rest == [] then 0
    else if !Opens(rest) then Repeated(pending + 1, rest[1..])
    else if Closes(rest) then Repeated(0, rest[OpenLength(rest) + 1..])
    else pending + Repeated(pending + OpenLength(rest), rest[OpenLength(rest)..])
  }

  lemma DeletedEnd()
    ensures Deleted([]) == []
  {
  }

  lemma DeletedStep(s: string)
    requires s != []
    ensures Deleted(s) ==
            if !Opens(s) then [s[0]] + Deleted(s[1..])
            else if Closes(s) then Deleted(s[OpenLength(s) + 1..])
            else s[..OpenLength(s)] + Deleted(s[OpenLength(s)..])
  {
    hide DigitRun;
  }

  /** The output is longer than the promise by the repeated characters. */
  lemma {:induction false} EmittedLength(pending: string, rest: string)
    ensures |Emitted(pending, rest)| == |pending| + |Deleted(rest)| + Repeated(|pending|, rest)
    decreases |rest|
  {
    hide DigitRun, Opens, Emitted, Deleted;
    if rest == [] {
      EmittedEnd(pending);
      DeletedEnd();
    } else {
      EmittedStep(pending, rest);
      DeletedStep(rest);
      if !Opens(rest) {
        EmittedLength(pending + [rest[0]], rest[1..]);
      } else if Closes(rest) {
        EmittedLength([], rest[OpenLength(rest) + 1..]);
      } else {
        EmittedLength(pending + rest[..OpenLength(rest)], rest[OpenLength(rest)..]);
      }
    }
  }

  /** With nothing repeated, the output is the promise. */
  lemma {:induction false} EmittedExactly(pending: string, rest: string)
    requires Repeated(|pending|, rest) == 0
    ensures Emitted(pending, rest) == pending + Deleted(rest)
    decreases |rest|
  {
    hide DigitRun, Emitted, Deleted;
    if rest == [] {
      EmittedEnd(pending);
      DeletedEnd();
    } else {
      EmittedStep(pending, rest);
      DeletedStep(rest);
      if !Opens(rest) {
        EmittedExactly(pending + [rest[0]], rest[1..]);
        Associate(pending, [rest[0]], Deleted(rest[1..]));
      } else if Closes(rest) {
        EmittedExactly([], rest[OpenLength(rest) + 1..]);
      } else {
        assert pending + rest[..OpenLength(rest)] == rest[..OpenLength(rest)];
        EmittedExactly(pending + rest[..OpenLength(rest)], rest[OpenLength(rest)..]);
      }
    }
  }

  // Where markers stand in a line.

  predicate Dangles(s: string, i: nat) {
    i < |s| && Opens(s[i..]) && !Closes(s[i..])
  }

  predicate ClosedAt(s: string, j: nat, end: nat) {
    j < |s| && Opens(s[j..]) && Closes(s[j..]) && end == j + OpenLength(s[j..]) + 1
  }

  /** A closed marker ends just before `end`. */
  ghost predicate ClosedEndsAt(s: string, end: nat) {
    exists j: nat :: ClosedAt(s, j, end)
  }

  /** Every marker that opens without closing stands right after a closed one,
      or at the start of the line when nothing is pending there. */
  ghost predicate NoneDanglesAfterText(pending: nat, s: string) {
    forall i: nat :: Dangles(s, i) ==> (i == 0 && pending == 0) || ClosedEndsAt(s, i)
  }

  lemma InSuffix(s: string, n: nat, i: nat)
    requires n <= i && n <= |s|
    ensures Dangles(s, i) == Dangles(s[n..], i - n)
    ensures forall end: nat :: n <= end ==> ClosedAt(s, i, end) == ClosedAt(s[n..], i - n, end - n)
  {
    hide Opens, Closes, OpenLength;
    if i < |s| {
      assert s[n..][i - n..] == s[i..];
    }
  }

  /** Past a stretch in which only its start can open a marker, the rest of the
      line stands as it would alone, but that the stretch may be a closed marker. */
  lemma PassesStretch(s: string, n: nat, end: nat)
    requires 0 < n <= |s| && n <= end
    requires forall j :: 0 < j < n ==> !Opens(s[j..])
    ensures ClosedEndsAt(s, end) <==> ClosedEndsAt(s[n..], end - n) || ClosedAt(s, 0, end)
  {
    hide Opens, Closes, OpenLength;
    if ClosedEndsAt(s, end) {
      var j: nat :| ClosedAt(s, j, end);
      if j >= n {
        InSuffix(s, n, j);
        assert ClosedAt(s[n..], j - n, end - n);
      }
    }
    if ClosedEndsAt(s[n..], end - n) {
      var j: nat :| ClosedAt(s[n..], j, end - n);
      InSuffix(s, n, n + j);
      assert ClosedAt(s, n + j, end);
    }
  }

  /** What the rest of a line says about it, past its first stretch. */
  lemma DanglesAfterStretch(pending: nat, after: nat, s: string, n: nat)
    requires 0 < n <= |s|
    requires forall j :: 0 < j < n ==> !Opens(s[j..])
    requires after == 0 <==> ClosedAt(s, 0, n)
    requires forall end: nat :: ClosedAt(s, 0, end) ==> end == n
    ensures NoneDanglesAfterText(pending, s)
       <==> (Dangles(s, 0) ==> pending == 0) && NoneDanglesAfterText(after, s[n..])
  {
    hide Opens, Closes, OpenLength, ClosedEndsAt;
    forall i: nat | n <= i
      ensures Dangles(s, i) == Dangles(s[n..], i - n)
      ensures ClosedEndsAt(s, i) <==> ClosedEndsAt(s[n..], i - n) || ClosedAt(s, 0, i)
    {
      InSuffix(s, n, i);
      PassesStretch(s, n, i);
    }
    NothingEndsAtStart(s);
    NothingEndsAtStart(s[n..]);
    if NoneDanglesAfterText(pending, s) {
      forall i: nat | Dangles(s[n..], i)
        ensures (i == 0 && after == 0) || ClosedEndsAt(s[n..], i)
      {
        assert Dangles(s, n + i) == Dangles(s[n..], n + i - n);
      }
    }
  }

  lemma NothingEndsAtStart(s: string)
    ensures !ClosedEndsAt(s, 0)
  {
  }

  /** A marker holds no other. */
  lemma NoMarkerInside(s: string)
    requires Opens(s)
    ensures forall j :: 0 < j < OpenLength(s) ==> !Opens(s[j..])
    ensures Closes(s) ==> !Opens(s[OpenLength(s)..])
  {
    DigitRunIsDigits(s[3..]);
    forall j | 0 < j < OpenLength(s)
      ensures !Opens(s[j..])
    {
      assert s[j..][0] == s[j];
      if j >= 3 {
        assert s[3..][j - 3] == s[j];
      }
    }
  }

  lemma {:induction false} DigitRunIsDigits(s: string)
    ensures forall i :: 0 <= i < DigitRun(s) ==> AsciiDigit(s[i])
  {
    if s != [] && AsciiDigit(s[0]) {
      DigitRunIsDigits(s[1..]);
    }
  }

  lemma {:induction false} RepeatedByPosition(pending: nat, s: string)
    ensures Repeated(pending, s) == 0 <==> NoneDanglesAfterText(pending, s)
    decreases |s|
  {
    hide Opens, DigitRun, ClosedEndsAt;
    if s == [] {
    } else {
      assert s[0..] == s;
      var n := if !Opens(s) then 1 else if Closes(s) then OpenLength(s) + 1 else OpenLength(s);
      var after := if !Opens(s) then pending + 1 else if Closes(s) then 0 else pending + n;
      if Opens(s) {
        NoMarkerInside(s);
      }
      RepeatedByPosition(after, s[n..]);
      hide OpenLength;
      DanglesAfterStretch(pending, after, s, n);
    }
  }

  /** A line comes back with exactly its closed markers deleted if and only if
      every marker that opens without closing stands at the start of the line
      or right after a closed one. */
  lemma StripsExactly(s: string)
    ensures Emitted([], s) == Deleted(s) <==> forall i: nat :: Dangles(s, i) ==> i == 0 || ClosedEndsAt(s, i)
  {
    hide Emitted, Deleted, Repeated, Dangles, ClosedEndsAt;
    EmittedLength([], s);
    RepeatedByPosition(0, s);
    if Repeated(0, s) == 0 {
      EmittedExactly([], s);
    }
  }

  /** Every marker that opens closes. */
  predicate AllClosed(s: string) {
    forall i :: 0 <= i < |s| && Opens(s[i..]) ==> Closes(s[i..])
  }

  lemma ClosedRepeatsNothing(pending: nat, s: string)
    requires AllClosed(s)
    ensures Repeated(pending, s) == 0
  {
    hide Opens, Closes, Repeated;
    RepeatedByPosition(pending, s);
  }

  /** A line without markers comes back as it is. */
  lemma {:induction false} NothingToDelete(s: string)
    requires forall i :: 0 <= i < |s| ==> !Opens(s[i..])
    ensures Deleted(s) == s
  {
    if s == [] {
    } else {
      assert s[0..] == s;
      assert forall i :: 0 <= i < |s| - 1 ==> s[1..][i..] == s[1 + i..];
      NothingToDelete(s[1..]);
    }
  }

  /** `ab${c1x` comes out as `abab${c1x`: the unclosed marker repeats what stands before it. */
  lemma UnclosedMarkerRepeats()
    ensures Emitted([], "ab${c1x") == "abab${c1x" && Deleted("ab${c1x") == "ab${c1x"
  {
    hide Emitted, Deleted, Opens;
    UnclosedMarker();
    OneMore("a", 'b', "${c1x");
    OneMore("", 'a', "b${c1x");
    assert ['a'] + "b${c1x" == "ab${c1x" && ['b'] + "${c1x" == "b${c1x";
    assert "" + ['a'] == "a" && "a" + ['b'] == "ab";
  }

  /** A character that opens no marker is pending, and survives. */
  lemma OneMore(pending: string, c: char, rest: string)
    requires c != '$'
    ensures Emitted(pending, [c] + rest) == Emitted(pending + [c], rest) && Deleted([c] + rest) == [c] + Deleted(rest)
  {
    assert ([c] + rest)[1..] == rest;
  }

  lemma UnclosedMarker()
    ensures Emitted("ab", "${c1x") == "abab${c1x" && Deleted("${c1x") == "${c1x"
  {
    hide Emitted, Deleted, Opens, DigitRun;
    MarkerOfOne();
    EmittedStep("ab", "${c1x");
    DeletedStep("${c1x");
    OneMore("ab${c1", 'x', "");
    EmittedEnd("ab${c1x");
    DeletedEnd();
    assert "ab" + "${c1" == "ab${c1" && "ab${c1" + ['x'] == "ab${c1x" && ['x'] + "" == "x";
    assert "ab" + "ab${c1x" == "abab${c1x" && "${c1" + "x" == "${c1x";
  }

  lemma MarkerOfOne()
    ensures Opens("${c1x") && OpenLength("${c1x") == 4 && !Closes("${c1x")
    ensures "${c1x"[4..] == "x" && "${c1x"[..4] == "${c1"
  {
    assert "${c1x"[3..] == "1x" && "1x"[1..] == "x";
    assert DigitRun("x") == 0;
  }

  /** A marker that closes is deleted, whatever its number, and the text before
      it and the rest go on as they are. */
  lemma {:induction false} ClosedMarkerVanishes(pending: string, text: string, digits: string, rest: string)
    requires forall i :: 0 <= i < |text| ==> !Opens(text[i..])
    requires digits != [] && forall i :: 0 <= i < |digits| ==> '0' <= digits[i] <= '9'
    ensures Emitted(pending, text + ("${c" + digits + "}" + rest)) == pending + text + Emitted([], rest)
    ensures Deleted(text + ("${c" + digits + "}" + rest)) == text + Deleted(rest)
    decreases |text|
  {
    hide Emitted, Deleted, DigitRun, OpenLength;
    var marked := "${c" + digits + "}" + rest;
    var s := text + marked;
    if text == [] {
      assert s == marked;
      MarkerCloses(digits, rest);
      EmittedStep(pending, s);
      DeletedStep(s);
      assert marked[|digits| + 4..] == rest && pending + [] == pending;
    } else {
      NoneStraddles(text, marked);
      EmittedStep(pending, s);
      DeletedStep(s);
      assert s[1..] == text[1..] + marked;
      forall i | 0 <= i < |text| - 1
        ensures text[1..][i..] == text[i + 1..]
      {
      }
      ClosedMarkerVanishes(pending + [text[0]], text[1..], digits, rest);
      Regrouped(pending, text, Emitted([], rest), Deleted(rest));
    }
  }

  lemma Regrouped(pending: string, text: string, a: string, b: string)
    requires text != []
    ensures pending + [text[0]] + text[1..] + a == pending + text + a
    ensures [text[0]] + (text[1..] + b) == text + b
  {
  }

  /** No marker begins in one text and ends in a marker after it. */
  lemma NoneStraddles(text: string, marked: string)
    requires text != [] && !Opens(text[0..]) && |marked| > 3 && marked[..3] == "${c"
    ensures !Opens(text + marked)
  {
    assert text[0..] == text;
    assert marked[0] == marked[..3][0];
  }

  lemma MarkerCloses(digits: string, rest: string)
    requires digits != [] && forall i :: 0 <= i < |digits| ==> AsciiDigit(digits[i])
    ensures var s := "${c" + digits + "}" + rest;
            Opens(s) && OpenLength(s) == 3 + |digits| && Closes(s)
  {
    var s := "${c" + digits + "}" + rest;
    assert s[3..] == digits + ("}" + rest);
    DigitRunOf(digits, "}" + rest);
  }

  lemma {:induction false} DigitRunOf(digits: string, rest: string)
    requires forall i :: 0 <= i < |digits| ==> AsciiDigit(digits[i])
    requires rest == [] || !AsciiDigit(rest[0])
    ensures DigitRun(digits + rest) == |digits|
  {
    if digits == [] {
      assert digits + rest == rest;
    } else {
      assert (digits + rest)[1..] == digits[1..] + rest;
      DigitRunOf(digits[1..], rest);
    }
  }
}
