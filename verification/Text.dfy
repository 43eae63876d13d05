/** The parts of the standard library's text handling the models share:
    digits, `str::parse` on unsigned integers, trimming and word splitting. */
module Text {
  import opened Wrappers

  // ------------------------------------------------------------------- numbers

  /** The value of a digit in any radix up to 36; 36 for anything else. */
  function DigitOf(c: char): nat {
    if '0' <= c <= '9' then c as int - '0' as int
    else if 'a' <= c <= 'z' then c as int - 'a' as int + 10
    else if 'A' <= c <= 'Z' then c as int - 'A' as int + 10
    else 36
  }

  predicate AllDigits(s: string, radix: nat) {
    forall i :: 0 <= i < |s| ==> DigitOf(s[i]) < radix
  }

  function Value(s: string, radix: nat): nat {
    if s == [] then 0 else Value(s[..|s| - 1], radix) * radix + DigitOf(s[|s| - 1])
  }

  /** `from_str_radix` on an unsigned type whose largest value is `max`: an
      optional plus sign, at least one digit, and no overflow. */
  function ParseRadix(s: string, radix: nat, max: nat): Option<nat> {
    var digits := if |s| > 1 && s[0] == '+' then s[1..] else s;
    if digits != [] && AllDigits(digits, radix) && Value(digits, radix) <= max then Some(Value(digits, radix)) else None
  }

  function Parse(s: string, max: nat): Option<nat> {
    ParseRadix(s, 10, max)
  }

  const U16_MAX := 0xFFFF
  const U32_MAX := 0xFFFF_FFFF
  const U64_MAX := 0xFFFF_FFFF_FFFF_FFFF

  function Digit(d: nat): (c: char)
    requires d < 10
    ensures DigitOf(c) == d && '0' <= c <= '9'
  {
    (d + '0' as int) as char
  }

  /** `n` as `format!("{n}")` prints it. */
  function Decimal(n: nat): (s: string)
    ensures s != [] && forall i :: 0 <= i < |s| ==> '0' <= s[i] <= '9'
  {
    if n < 10 then [Digit(n)] else Decimal(n / 10) + [Digit(n % 10)]
  }

  lemma {:induction false} ValueOfDecimal(n: nat)
    ensures AllDigits(Decimal(n), 10) && Value(Decimal(n), 10) == n
  {
    if n < 10 {
      assert Decimal(n)[..0] == [];
    } else {
      ValueOfDecimal(n / 10);
      assert Decimal(n)[..|Decimal(n)| - 1] == Decimal(n / 10);
    }
  }

  lemma ParseInvertsDecimal(n: nat, max: nat)
    ensures Parse(Decimal(n), max) == if n <= max then Some(n) else None
  {
    ValueOfDecimal(n);
    assert Decimal(n)[0] != '+';
  }

  lemma {:induction false} DecimalLength(n: nat, digits: nat)
    requires digits > 0 && n < Power10(digits)
    ensures |Decimal(n)| <= digits
  {
    if n < 10 {
    } else {
      assert digits > 1;
      DecimalLength(n / 10, digits - 1);
    }
  }

  function Power10(k: nat): (r: nat)
    ensures r > 0
  {
    if k == 0 then 1 else 10 * Power10(k - 1)
  }

  // --------------------------------------------------------------------- words

  /** What `split_ascii_whitespace` splits on. */
  predicate AsciiSpace(c: char) {
    c in {' ', '\t', '\n', '\r', '\U{C}'}
  }

  /** The Unicode `White_Space` characters, which `trim` and `split_whitespace` use. */
  predicate Space(c: char) {
    || '\t' <= c <= '\r' || c == ' ' || c == '\U{85}' || c == '\U{A0}' || c == '\U{1680}'
    || '\U{2000}' <= c <= '\U{200A}' || c == '\U{2028}' || c == '\U{2029}' || c == '\U{202F}'
    || c == '\U{205F}' || c == '\U{3000}'
  }

  function WordLength(s: string, space: char -> bool): (n: nat)
    ensures n <= |s|
    ensures forall i :: 0 <= i < n ==> !space(s[i])
    ensures n < |s| ==> space(s[n])
  {
    if s == [] || space(s[0]) then 0 else 1 + WordLength(s[1..], space)
  }

  function Words(s: string, space: char -> bool): seq<string> {
    if s == [] then []
    else if space(s[0]) then Words(s[1..], space)
    else
      var n := WordLength(s, space);
      [s[..n]] + Words(s[n..], space)
  }

  predicate IsWord(w: string, space: char -> bool) {
    w != [] && forall i :: 0 <= i < |w| ==> !space(w[i])
  }

  lemma {:induction false} WordLengthOf(w: string, rest: string, space: char -> bool)
    requires forall i :: 0 <= i < |w| ==> !space(w[i])
    requires rest == [] || space(rest[0])
    ensures WordLength(w + rest, space) == |w|
  {
    if w == [] {
      assert w + rest == rest;
    } else {
      assert (w + rest)[1..] == w[1..] + rest;
      WordLengthOf(w[1..], rest, space);
    }
  }

  lemma FirstWord(w: string, rest: string, space: char -> bool)
    requires IsWord(w, space)
    requires rest == [] || space(rest[0])
    ensures Words(w + rest, space) == [w] + Words(rest, space)
  {
    WordLengthOf(w, rest, space);
    assert (w + rest)[..|w|] == w && (w + rest)[|w|..] == rest;
  }

  lemma WordThenSpace(w: string, sep: char, rest: string, space: char -> bool)
    requires IsWord(w, space) && space(sep)
    ensures Words(w + [sep] + rest, space) == [w] + Words(rest, space)
  {
    assert w + [sep] + rest == w + ([sep] + rest);
    FirstWord(w, [sep] + rest, space);
    assert ([sep] + rest)[1..] == rest;
  }

  lemma ThreeWords(a: string, b: string, c: string, tail: string, space: char -> bool)
    requires IsWord(a, space) && IsWord(b, space) && IsWord(c, space) && space(' ')
    requires (tail == [] || space(tail[0])) && Words(tail, space) == []
    ensures Words(a + [' '] + b + [' '] + c + tail, space) == [a, b, c]
  {
    hide Words, IsWord;
    FirstWord(c, tail, space);
    WordThenSpace(b, ' ', c + tail, space);
    WordThenSpace(a, ' ', b + [' '] + (c + tail), space);
    assert a + [' '] + b + [' '] + c + tail == a + [' '] + (b + [' '] + (c + tail));
  }

  lemma {:induction false} WordsAreWords(s: string, space: char -> bool)
    ensures forall i :: 0 <= i < |Words(s, space)| ==> IsWord(Words(s, space)[i], space)
  {
    if s == [] {
    } else if space(s[0]) {
      WordsAreWords(s[1..], space);
    } else {
      WordsAreWords(s[WordLength(s, space)..], space);
    }
  }

  function TrimStart(s: string): string {
    if s != [] && Space(s[0]) then TrimStart(s[1..]) else s
  }

  function TrimEnd(s: string): string {
    if s != [] && Space(s[|s| - 1]) then TrimEnd(s[..|s| - 1]) else s
  }

  function Trim(s: string): string {
    TrimEnd(TrimStart(s))
  }

  predicate AllSpaces(s: string) {
    forall i :: 0 <= i < |s| ==> Space(s[i])
  }

  lemma {:induction false} TrimStartPads(pad: string, s: string)
    requires AllSpaces(pad) && (s == [] || !Space(s[0]))
    ensures TrimStart(pad + s) == s
  {
    if pad == [] {
      assert pad + s == s;
    } else {
      assert (pad + s)[1..] == pad[1..] + s;
      TrimStartPads(pad[1..], s);
    }
  }

  lemma {:induction false} TrimEndPads(s: string, pad: string)
    requires AllSpaces(pad) && (s == [] || !Space(s[|s| - 1]))
    ensures TrimEnd(s + pad) == s
  {
    if pad == [] {
      assert s + pad == s;
    } else {
      assert (s + pad)[..|s + pad| - 1] == s + pad[..|pad| - 1];
      TrimEndPads(s, pad[..|pad| - 1]);
    }
  }

  /** Padding a non-empty text that neither begins nor ends with white space is undone by `Trim`. */
  lemma TrimUndoesPadding(before: string, s: string, after: string)
    requires AllSpaces(before) && AllSpaces(after)
    requires s != [] && !Space(s[0]) && !Space(s[|s| - 1])
    ensures Trim(before + s + after) == s
  {
    assert before + s + after == before + (s + after);
    TrimStartPads(before, s + after);
    TrimEndPads(s, after);
  }

  /** A number may have a plus sign, and must have a digit, and nothing else. */
  lemma ParseTakesNumbers(s: string, max: nat)
    ensures Parse([], max) == None && Parse("+", max) == None
    ensures Parse("+" + Decimal(max), max) == Some(max)
    ensures |s| != 1 && (exists i :: 1 <= i < |s| && !('0' <= s[i] <= '9')) ==> Parse(s, max) == None
    ensures s != [] && !('0' <= s[0] <= '9') && s[0] != '+' ==> Parse(s, max) == None
  {
    ValueOfDecimal(max);
    assert ("+" + Decimal(max))[1..] == Decimal(max);
    hide Decimal, Value;
    if i :| 1 <= i < |s| && !('0' <= s[i] <= '9') {
      assert DigitOf(s[i]) >= 10;
      assert s[1..][i - 1] == s[i];
    }
  }
}
