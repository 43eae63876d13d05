/** Breaking prose onto lines no wider than a width: `wrap_words` of
    crates/multitop/src/layout.rs. */
module WrapWords {
  import opened Text

  /** The words of one line with single spaces between them. */
  function Join(words: seq<string>): string {
    if words == [] then []
    else if |words| == 1 then words[0]
    else Join(words[..|words| - 1]) + [' '] + words[|words| - 1]
  }

  /** Words are never empty: that is how `split_whitespace` makes them. */
  predicate NoEmptyWord(words: seq<string>) {
    forall i :: 0 <= i < |words| ==> words[i] != []
  }

  ghost predicate Rising(cuts: seq<nat>) {
    forall i, j :: 0 <= i < j < |cuts| ==> cuts[i] < cuts[j]
  }

  /** Where the lines begin and end: an order-preserving split of `n` words
      into non-empty lines. */
  ghost predicate Cuts(cuts: seq<nat>, n: nat) {
    |cuts| > 0 && cuts[0] == 0 && cuts[|cuts| - 1] == n && Rising(cuts)
  }

  /** The line of the words from `i` up to `j`. */
  ghost function LineOf(words: seq<string>, i: nat, j: nat): string {
    if i <= j <= |words| then Join(words[i..j]) else []
  }

  /** A line fits, or it is one word. */
  ghost predicate FitsOrLone(words: seq<string>, i: nat, j: nat, width: nat) {
    j == i + 1 || |LineOf(words, i, j)| <= width
  }

  ghost predicate ByTheRule(words: seq<string>, cuts: seq<nat>, width: nat) {
    forall k :: 0 < k < |cuts| ==> FitsOrLone(words, cuts[k - 1], cuts[k], width)
  }

  ghost predicate Wrapping(words: seq<string>, cuts: seq<nat>, width: nat) {
    Cuts(cuts, |words|) && ByTheRule(words, cuts, width)
  }

  /** The word after the line from `i` to `j`, if there is one, would not have fitted on it. */
  ghost predicate Full(words: seq<string>, i: nat, j: nat, width: nat) {
    j < |words| ==> |LineOf(words, i, j + 1)| > width
  }

  /** The first word of each line would not have fitted on the line before. */
  ghost predicate Greedy(words: seq<string>, cuts: seq<nat>, width: nat) {
    forall k :: 0 < k < |cuts| ==> Full(words, cuts[k - 1], cuts[k], width)
  }

  // ----------------------------------------------------------------- no fewer lines

  lemma JoinSnoc(words: seq<string>, w: string)
    ensures Join(words + [w]) == if words == [] then w else Join(words) + [' '] + w
  {
    assert (words + [w])[..|words|] == words;
  }

  lemma LineGrows(words: seq<string>, start: nat, i: nat)
    requires start <= i < |words|
    ensures LineOf(words, start, i + 1) == if start == i then words[i] else LineOf(words, start, i) + [' '] + words[i]
    ensures NoEmptyWord(words) ==> LineOf(words, start, i + 1) != []
  {
    assert words[start..i + 1] == words[start..i] + [words[i]];
    JoinSnoc(words[start..i], words[i]);
  }

  lemma EmptyLine(words: seq<string>, i: nat)
    ensures LineOf(words, i, i) == []
  {
  }

  /** Dropping words from the front never makes a line longer. */
  lemma {:induction false} ShorterFromFront(words: seq<string>, i: nat, j: nat, k: nat)
    requires i <= j <= k <= |words|
    ensures |LineOf(words, j, k)| <= |LineOf(words, i, k)|
  {
    hide LineOf;
    if k == j {
      EmptyLine(words, j);
    } else {
      ShorterFromFront(words, i, j, k - 1);
      LineGrows(words, i, k - 1);
      LineGrows(words, j, k - 1);
    }
  }

  /** Nor does dropping them from the back. */
  lemma {:induction false} ShorterFromBack(words: seq<string>, i: nat, j: nat, k: nat)
    requires i <= j <= k <= |words|
    ensures |LineOf(words, i, j)| <= |LineOf(words, i, k)|
  {
    hide LineOf;
    if k == j {
    } else {
      ShorterFromBack(words, i, j, k - 1);
      LineGrows(words, i, k - 1);
      if i == k - 1 {
        EmptyLine(words, i);
      }
    }
  }

  /** After any number of lines the greedy split has placed at least as many words as any other. */
  lemma {:induction false} GreedyStaysAhead(words: seq<string>, greedy: seq<nat>, other: seq<nat>, width: nat, k: nat)
    requires Cuts(greedy, |words|) && Greedy(words, greedy, width) && Wrapping(words, other, width)
    requires k < |greedy| && k < |other|
    ensures greedy[k] >= other[k]
  {
    hide Join;
    if k == 0 {
    } else {
      GreedyStaysAhead(words, greedy, other, width, k - 1);
      var a, b := greedy[k - 1], greedy[k];
      var c, d := other[k - 1], other[k];
      assert FitsOrLone(words, c, d, width) && Full(words, a, b, width);
      if b < d && k < |greedy| - 1 {
        // The other line holds at least the words from a to b, both included.
        ShorterFromFront(words, c, a, d);
        ShorterFromBack(words, a, b + 1, d);
        assert false;
      }
    }
  }

  /** No order-preserving split whose lines fit or are single words has fewer lines. */
  lemma GreedyIsShortest(words: seq<string>, greedy: seq<nat>, other: seq<nat>, width: nat)
    requires Wrapping(words, greedy, width) && Greedy(words, greedy, width) && Wrapping(words, other, width)
    ensures |greedy| <= |other|
  {
    if |other| < |greedy| {
      assert greedy[|other| - 1] < greedy[|greedy| - 1];
      GreedyStaysAhead(words, greedy, other, width, |other| - 1);
    }
  }

  // ---------------------------------------------------------------------- the wrapper

  /** The lines a split stands for. */
  ghost predicate Lines(words: seq<string>, cuts: seq<nat>, out: seq<string>) {
    |cuts| == |out| + 1 && forall k :: 0 <= k < |out| ==> out[k] == LineOf(words, cuts[k], cuts[k + 1])
  }

  /** The lines already closed, the open line, and how they stand to the words so far. */
  ghost predicate Wrapped(words: seq<string>, i: nat, out: seq<string>, line: string, cuts: seq<nat>, width: nat) {
    && i <= |words| && Lines(words, cuts, out) && cuts[0] == 0 && cuts[|out|] <= i
    && Rising(cuts) && ByTheRule(words, cuts, width) && Greedy(words, cuts, width)
    && line == LineOf(words, cuts[|out|], i)
    && (line == [] <==> i == 0)
    && (i > 0 ==> cuts[|out|] < i && FitsOrLone(words, cuts[|out|], i, width))
  }

  /** Closing the open line. */
  lemma CloseLine(words: seq<string>, i: nat, out: seq<string>, line: string, cuts: seq<nat>, width: nat)
    requires Wrapped(words, i, out, line, cuts, width) && line != []
    requires Full(words, cuts[|out|], i, width)
    ensures Lines(words, cuts + [i], out + [line]) && Rising(cuts + [i])
    ensures ByTheRule(words, cuts + [i], width) && Greedy(words, cuts + [i], width)
  {
    hide LineOf, FitsOrLone, Full;
    RisingSnoc(cuts, i);
  }

  lemma RisingSnoc(cuts: seq<nat>, i: nat)
    requires |cuts| > 0 && Rising(cuts) && cuts[|cuts| - 1] < i
    ensures Rising(cuts + [i])
  {
  }

  /** Every word of `text`, in order, on as few lines as the rule allows. */
  method Wrap(text: string, width: nat) returns (out: seq<string>, ghost cuts: seq<nat>)
    ensures width == 0 ==> out == []
    ensures width > 0 ==>
      var words := Words(text, Space);
      && Wrapping(words, cuts, width) && Lines(words, cuts, out)
      && forall other :: Wrapping(words, other, width) ==> |out| <= |other| - 1
  {
    hide Join, Words, Wrapped, Wrapping, Greedy;
    out, cuts := [], [0];
    if width == 0 {
      return;
    }
    var words := Words(text, Space);
    WordsAreWords(text, Space);
    assert NoEmptyWord(words);
    var line: string := [];
    var i := 0;
    WrapStarts(words, width);
    while i < |words|
      invariant i <= |words| && Wrapped(words, i, out, line, cuts, width)
    {
      var word := words[i];
      assert [] + word == word;
      var extra := if line == [] then |word| else |word| + 1;
      if line == [] || |line| + extra <= width {
        WordFits(words, i, out, line, cuts, width);
      } else {
        WordStartsLine(words, i, out, line, cuts, width);
      }
      if line != [] && |line| + extra > width {
        out := out + [line];
        cuts := cuts + [i];
        line := [];
      }
      if line != [] {
        line := line + [' '];
      }
      line := line + word;
      i := i + 1;
    }
    if line == [] {
      EndsEmpty(words, out, cuts, width);
    } else {
      EndsClosed(words, out, line, cuts, width);
      out := out + [line];
      cuts := cuts + [i];
    }
    forall other | Wrapping(words, other, width)
      ensures |out| <= |other| - 1
    {
      GreedyIsShortest(words, cuts, other, width);
    }
  }

  lemma WrapStarts(words: seq<string>, width: nat)
    ensures Wrapped(words, 0, [], [], [0], width)
  {
    assert words[0..0] == [];
  }

  /** Putting the next word on the open line. */
  lemma WordFits(words: seq<string>, i: nat, out: seq<string>, line: string, cuts: seq<nat>, width: nat)
    requires Wrapped(words, i, out, line, cuts, width) && NoEmptyWord(words) && i < |words|
    requires line == [] || |line| + |words[i]| + 1 <= width
    ensures Wrapped(words, i + 1, out, if line == [] then words[i] else line + [' '] + words[i], cuts, width)
  {
    hide LineOf, Join;
    LineGrows(words, cuts[|out|], i);
  }

  /** Closing the open line, and putting the next word on a new one. */
  lemma WordStartsLine(words: seq<string>, i: nat, out: seq<string>, line: string, cuts: seq<nat>, width: nat)
    requires Wrapped(words, i, out, line, cuts, width) && NoEmptyWord(words) && i < |words|
    requires line != [] && |line| + |words[i]| + 1 > width
    ensures Wrapped(words, i + 1, out + [line], words[i], cuts + [i], width)
  {
    hide LineOf;
    LineGrows(words, cuts[|out|], i);
    LineGrows(words, i, i);
    CloseLine(words, i, out, line, cuts, width);
    hide Rising, Lines, ByTheRule, Greedy;
  }

  /** With no word there is nothing to close. */
  lemma EndsEmpty(words: seq<string>, out: seq<string>, cuts: seq<nat>, width: nat)
    requires Wrapped(words, |words|, out, [], cuts, width)
    ensures Wrapping(words, cuts, width) && Lines(words, cuts, out) && Greedy(words, cuts, width)
  {
    hide LineOf, ByTheRule, Greedy;
  }

  /** Closing the last line: a split, and a greedy one. */
  lemma EndsClosed(words: seq<string>, out: seq<string>, line: string, cuts: seq<nat>, width: nat)
    requires Wrapped(words, |words|, out, line, cuts, width) && line != []
    ensures var ends := cuts + [|words|];
            Wrapping(words, ends, width) && Lines(words, ends, out + [line]) && Greedy(words, ends, width)
  {
    hide LineOf;
    CloseLine(words, |words|, out, line, cuts, width);
    hide Rising, Lines, ByTheRule, Greedy;
  }
}
