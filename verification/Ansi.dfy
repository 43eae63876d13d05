/** The 24-bit colour escape: the printer (crates/agent/src/palette_view.rs)
    and the hand-written parser (crates/agent/src/surface.rs). */
module Ansi {
  import opened Wrappers
  import opened Utf8
  import opened Text
  import opened Surface

  const SEMICOLON: Byte := 59
  const LETTER_M: Byte := 109
  const MARKER: seq<Byte> := [51, 56, 59, 50, 59] // 38;2;
  const INTRODUCER: seq<Byte> := [27, 91, 51, 56, 59, 50, 59] // ESC [ 38;2;
  const MAX_COMPONENT_DIGITS := 3

  predicate IsDigitByte(x: Byte) {
    48 <= x <= 57
  }

  predicate AllDigitBytes(s: seq<Byte>) {
    forall i :: 0 <= i < |s| ==> IsDigitByte(s[i])
  }

  ghost function DecimalOf(s: seq<Byte>): nat
    requires AllDigitBytes(s)
  {
    if s == [] then 0 else DecimalOf(s[..|s| - 1]) * 10 + (s[|s| - 1] as int - 48)
  }

  lemma {:induction false} LongerIsLarger(s: seq<Byte>, t: seq<Byte>)
    requires AllDigitBytes(s + t) && AllDigitBytes(s)
    ensures DecimalOf(s) <= DecimalOf(s + t)
  {
    if t == [] {
      assert s + t == s;
    } else {
      var front := t[..|t| - 1];
      assert (s + t)[..|s + t| - 1] == s + front;
      LongerIsLarger(s, front);
    }
  }

  // -------------------------------------------------------------- what is accepted

  /** One to three digits of a value that fits a byte, closed by `;` or `m`. */
  ghost predicate IsComponent(b: seq<Byte>, at: nat, next: nat, value: nat) {
    && at < next <= |b|
    && (b[next - 1] == SEMICOLON || b[next - 1] == LETTER_M)
    && 1 <= next - 1 - at <= MAX_COMPONENT_DIGITS
    && AllDigitBytes(b[at..next - 1])
    && DecimalOf(b[at..next - 1]) == value <= 255
  }

  predicate MarkerAt(b: seq<Byte>, start: nat) {
    start + |MARKER| <= |b| && b[start..start + |MARKER|] == MARKER
  }

  predicate Unmarked(b: seq<Byte>) {
    forall j :: 0 <= j < |b| ==> !MarkerAt(b, j)
  }

  ghost predicate FirstMarker(b: seq<Byte>, start: nat) {
    MarkerAt(b, start) && forall j :: 0 <= j < start ==> !MarkerAt(b, j)
  }

  /** The three components from `at` on, with nothing but an `m` after them. */
  ghost predicate Components(b: seq<Byte>, at: nat, g: nat, bl: nat, end: nat, c: Rgb) {
    && IsComponent(b, at, g, c.r)
    && IsComponent(b, g, bl, c.g)
    && IsComponent(b, bl, end, c.b)
    && (end >= |b| || b[end] == LETTER_M)
  }

  ghost predicate ColourAt(b: seq<Byte>, at: nat, c: Rgb) {
    exists g: nat, bl: nat, end: nat :: Components(b, at, g, bl, end, c)
  }

  /** The first marker of `b` introduces the colour `c`. */
  ghost predicate Accepted(b: seq<Byte>, c: Rgb) {
    exists start: nat :: FirstMarker(b, start) && ColourAt(b, start + |MARKER|, c)
  }

  ghost predicate IsColour(b: seq<Byte>) {
    exists c :: Accepted(b, c)
  }

  lemma ComponentDigits(b: seq<Byte>, at: nat, next: nat, value: nat)
    requires IsComponent(b, at, next, value)
    ensures forall i :: at <= i < next - 1 ==> IsDigitByte(b[i])
  {
    forall i | at <= i < next - 1
      ensures IsDigitByte(b[i])
    {
      assert b[at..next - 1][i - at] == b[i];
    }
  }

  lemma ComponentIsUnique(b: seq<Byte>, at: nat, next: nat, value: nat, next': nat, value': nat)
    requires IsComponent(b, at, next, value) && IsComponent(b, at, next', value')
    ensures next == next' && value == value'
  {
    ComponentDigits(b, at, next, value);
    ComponentDigits(b, at, next', value');
  }

  lemma AcceptedIsUnique(b: seq<Byte>, c: Rgb, d: Rgb)
    requires Accepted(b, c) && Accepted(b, d)
    ensures c == d
  {
    hide ColourAt, MarkerAt;
    var s: nat :| FirstMarker(b, s) && ColourAt(b, s + |MARKER|, c);
    var s': nat :| FirstMarker(b, s') && ColourAt(b, s' + |MARKER|, d);
    assert s == s';
    ColourIsUnique(b, s + |MARKER|, c, d);
  }

  lemma ColourIsUnique(b: seq<Byte>, at: nat, c: Rgb, d: Rgb)
    requires ColourAt(b, at, c) && ColourAt(b, at, d)
    ensures c == d
  {
    hide IsComponent;
    var g: nat, bl: nat, e: nat :| Components(b, at, g, bl, e, c);
    var g': nat, bl': nat, e': nat :| Components(b, at, g', bl', e', d);
    ComponentIsUnique(b, at, g, c.r, g', d.r);
    ComponentIsUnique(b, g, bl, c.g, bl', d.g);
    ComponentIsUnique(b, bl, e, c.b, e', d.b);
  }

  // ------------------------------------------------------------------- the parser

  ghost function Slice(b: seq<Byte>, from: nat, to: nat): seq<Byte> {
    if from <= to <= |b| then b[from..to] else []
  }

  predicate Terminates(x: Byte) {
    x == SEMICOLON || x == LETTER_M
  }

  ghost predicate NoComponent(b: seq<Byte>, at: nat) {
    forall next: nat, v: nat :: !IsComponent(b, at, next, v)
  }

  /** The digits from `at` to `index` make `value`, and no component ends among them. */
  ghost predicate Reading(b: seq<Byte>, at: nat, index: nat, value: nat) {
    && at <= index <= at + MAX_COMPONENT_DIGITS
    && (index == at || index <= |b|)
    && AllDigitBytes(Slice(b, at, index))
    && DecimalOf(Slice(b, at, index)) == value <= 255
    && forall next: nat, v: nat :: IsComponent(b, at, next, v) ==> index < next
  }

  lemma ReadingStarts(b: seq<Byte>, at: nat)
    ensures Reading(b, at, at, 0)
  {
    assert Slice(b, at, at) == [];
  }

  lemma ReadingEnds(b: seq<Byte>, at: nat, index: nat, value: nat)
    requires Reading(b, at, index, value) && index >= |b|
    ensures NoComponent(b, at)
  {
    hide AllDigitBytes, DecimalOf;
  }

  /** A terminator closes the component there is, or shows there is none. */
  lemma ReadingCloses(b: seq<Byte>, at: nat, index: nat, value: nat)
    requires Reading(b, at, index, value) && index < |b| && Terminates(b[index])
    ensures if index == at then NoComponent(b, at) else IsComponent(b, at, index + 1, value)
  {
    if index == at {
      forall next: nat, v: nat
        ensures !IsComponent(b, at, next, v)
      {
        if IsComponent(b, at, next, v) {
          ComponentDigits(b, at, next, v);
          assert false;
        }
      }
    }
  }

  /** A component that goes on after `index` has a digit there, room for it, and its value so far. */
  lemma ComponentGoesOn(b: seq<Byte>, at: nat, index: nat, value: nat, next: nat, v: nat)
    requires Reading(b, at, index, value) && index < |b| && !Terminates(b[index]) && IsComponent(b, at, next, v)
    ensures IsDigitByte(b[index]) && index + 1 < next && index < at + MAX_COMPONENT_DIGITS
    ensures value * 10 + (b[index] as int - 48) <= v
  {
    ComponentDigits(b, at, next, v);
    DigitTaken(b, at, index);
    var digits, after := b[at..index + 1], b[index + 1..next - 1];
    assert b[at..next - 1] == digits + after;
    LongerIsLarger(digits, after);
  }

  lemma DigitTaken(b: seq<Byte>, at: nat, index: nat)
    requires at <= index < |b| && AllDigitBytes(b[at..index]) && IsDigitByte(b[index])
    ensures AllDigitBytes(b[at..index + 1])
    ensures DecimalOf(b[at..index + 1]) == DecimalOf(b[at..index]) * 10 + (b[index] as int - 48)
  {
    assert b[at..index + 1] == b[at..index] + [b[index]];
    assert b[at..index + 1][..index - at] == b[at..index];
  }

  lemma ReadingTakes(b: seq<Byte>, at: nat, index: nat, value: nat)
    requires Reading(b, at, index, value) && index < |b| && IsDigitByte(b[index])
    requires index < at + MAX_COMPONENT_DIGITS && value * 10 + (b[index] as int - 48) <= 255
    ensures Reading(b, at, index + 1, value * 10 + (b[index] as int - 48))
  {
    DigitTaken(b, at, index);
    hide IsComponent, AllDigitBytes, DecimalOf;
    forall next: nat, v: nat | IsComponent(b, at, next, v)
      ensures index + 1 < next
    {
      ComponentGoesOn(b, at, index, value, next, v);
    }
  }

  lemma ReadingStops(b: seq<Byte>, at: nat, index: nat, value: nat)
    requires Reading(b, at, index, value) && index < |b| && !Terminates(b[index])
    requires !IsDigitByte(b[index]) || index == at + MAX_COMPONENT_DIGITS || value * 10 + (b[index] as int - 48) > 255
    ensures NoComponent(b, at)
  {
    hide AllDigitBytes, DecimalOf, Reading;
    forall next: nat, v: nat
      ensures !IsComponent(b, at, next, v)
    {
      if IsComponent(b, at, next, v) {
        ComponentGoesOn(b, at, index, value, next, v);
        assert false;
      }
    }
  }

  /** Read one component at `at`: the index past its terminator, and its value. */
  method Component(b: seq<Byte>, at: nat) returns (r: Option<(nat, Byte)>)
    ensures r.Some? ==> IsComponent(b, at, r.value.0, r.value.1)
    ensures r == None ==> NoComponent(b, at)
  {
    hide IsComponent, NoComponent, AllDigitBytes, DecimalOf;
    var value: nat, digits: nat, index := 0, 0, at;
    ReadingStarts(b, at);
    while index < |b|
      invariant Reading(b, at, index, value) && digits == index - at
    {
      var byte := b[index];
      if byte == SEMICOLON || byte == LETTER_M {
        ReadingCloses(b, at, index, value);
        return if digits == 0 then None else Some((index + 1, value));
      }
      if !IsDigitByte(byte) || digits == MAX_COMPONENT_DIGITS {
        ReadingStops(b, at, index, value);
        return None;
      }
      var shifted := value * 10;
      if shifted > 255 {
        ReadingStops(b, at, index, value);
        return None;
      }
      var sum := shifted + (byte as int - 48);
      if sum > 255 {
        ReadingStops(b, at, index, value);
        return None;
      }
      ReadingTakes(b, at, index, value);
      value, digits, index := sum, digits + 1, index + 1;
    }
    ReadingEnds(b, at, index, value);
    r := None;
  }

  /** The colour after the first `38;2;`, if that is what stands there. */
  method FromAnsi(b: seq<Byte>) returns (r: Option<Rgb>)
    ensures forall c :: r == Some(c) <==> Accepted(b, c)
    ensures r.Some? <==> IsColour(b)
  {
    hide ColourAt;
    var start := 0;
    while start + |MARKER| <= |b|
      invariant forall j :: 0 <= j < start ==> !MarkerAt(b, j)
    {
      if b[start] == MARKER[0] && b[start + 1] == MARKER[1] && b[start + 2] == MARKER[2]
         && b[start + 3] == MARKER[3] && b[start + 4] == MARKER[4] {
        assert b[start..start + 5] == MARKER;
        assert FirstMarker(b, start);
        r := ThreeComponents(b, start + |MARKER|);
        forall c
          ensures ColourAt(b, start + |MARKER|, c) <==> Accepted(b, c)
        {
        }
        return;
      }
      start := start + 1;
    }
    r := None;
  }

  method ThreeComponents(b: seq<Byte>, at: nat) returns (r: Option<Rgb>)
    ensures forall c :: r == Some(c) <==> ColourAt(b, at, c)
  {
    hide IsComponent;
    var red := Component(b, at);
    if red == None { return None; }
    var green := Component(b, red.value.0);
    if green == None {
      forall g: nat, c: nat | IsComponent(b, at, g, c)
        ensures g == red.value.0
      {
        ComponentIsUnique(b, at, g, c, red.value.0, red.value.1);
      }
      return None;
    }
    var blue := Component(b, green.value.0);
    forall c, g: nat, bl: nat, end: nat | Components(b, at, g, bl, end, c)
      ensures blue.Some? && g == red.value.0 && bl == green.value.0 && end == blue.value.0
    {
      ComponentIsUnique(b, at, g, c.r, red.value.0, red.value.1);
      ComponentIsUnique(b, g, bl, c.g, green.value.0, green.value.1);
      ComponentIsUnique(b, bl, end, c.b, blue.value.0, blue.value.1);
    }
    if blue == None { return None; }
    var end := blue.value.0;
    if end >= |b| || b[end] == LETTER_M {
      var c := Rgb(red.value.1, green.value.1, blue.value.1);
      assert Components(b, at, red.value.0, green.value.0, end, c);
      forall d | ColourAt(b, at, d)
        ensures c == d
      {
        ColourIsUnique(b, at, c, d);
      }
      return Some(c);
    }
    r := None;
  }

  // ------------------------------------------------------------------ the printer

  const ESCAPE_PREFIX := "\U{1B}[38;2;"
  const ESCAPE_SUFFIX := 'm'

  /** The escape that paints text in a colour. */
  function EscapeText(c: Rgb): string {
    ESCAPE_PREFIX + Decimal(c.r) + ";" + Decimal(c.g) + ";" + Decimal(c.b) + [ESCAPE_SUFFIX]
  }

  /** The escape for a colour: after whatever text without a marker it is
      printed, it reads back as that colour and as no other. */
  method EscapeFor(c: Rgb) returns (escape: string)
    ensures escape == EscapeText(c)
    ensures forall before :: Unmarked(before) ==> forall d :: Accepted(before + Encode(escape), d) <==> d == c
  {
    hide Encode, Accepted, Unmarked, Decimal;
    escape := ESCAPE_PREFIX;
    escape := escape + Decimal(c.r);
    escape := escape + ";";
    escape := escape + Decimal(c.g);
    escape := escape + ";";
    escape := escape + Decimal(c.b);
    escape := escape + [ESCAPE_SUFFIX];
    assert escape == EscapeText(c);
    EscapeReadsBack(c);
  }

  lemma EscapeReadsBack(c: Rgb)
    ensures forall before :: Unmarked(before) ==> forall d :: Accepted(before + Encode(EscapeText(c)), d) <==> d == c
  {
    hide Encode, EscapeText, Accepted, Unmarked;
    forall before | Unmarked(before)
      ensures forall d :: Accepted(before + Encode(EscapeText(c)), d) <==> d == c
    {
      FromAnsiInvertsEscapeFor(before, c);
    }
  }

  // ------------------------------------------------------------------- round trip

  function DigitBytes(n: nat): seq<Byte> {
    Encode(Decimal(n))
  }

  lemma {:induction false} DecimalOfValue(s: string, b: seq<Byte>)
    requires |s| == |b| && forall i :: 0 <= i < |s| ==> '0' <= s[i] <= '9' && b[i] == s[i] as int
    ensures AllDigitBytes(b) && DecimalOf(b) == Value(s, 10)
  {
    if s == [] {
    } else {
      DecimalOfValue(s[..|s| - 1], b[..|b| - 1]);
    }
  }

  lemma DigitBytesOf(n: Byte)
    ensures DigitsOf(DigitBytes(n), n)
  {
    hide Encode;
    assert Power10(3) == 1000;
    DecimalLength(n, 3);
    EncodeAscii(Decimal(n));
    ValueOfDecimal(n);
    DecimalOfValue(Decimal(n), DigitBytes(n));
  }

  /** The bytes of the escape, piece by piece. */
  lemma EscapeBytes(c: Rgb)
    ensures Encode(EscapeText(c))
         == INTRODUCER + DigitBytes(c.r) + [SEMICOLON] + DigitBytes(c.g) + [SEMICOLON] + DigitBytes(c.b) + [LETTER_M]
  {
    hide Encode, Decimal;
    var r, g, b := Decimal(c.r), Decimal(c.g), Decimal(c.b);
    EncodeConcat(ESCAPE_PREFIX + r + ";" + g + ";" + b, [ESCAPE_SUFFIX]);
    EncodeConcat(ESCAPE_PREFIX + r + ";" + g + ";", b);
    EncodeConcat(ESCAPE_PREFIX + r + ";" + g, ";");
    EncodeConcat(ESCAPE_PREFIX + r + ";", g);
    EncodeConcat(ESCAPE_PREFIX + r, ";");
    EncodeConcat(ESCAPE_PREFIX, r);
    EncodeAscii(ESCAPE_PREFIX);
    EncodeAscii(";");
    EncodeAscii([ESCAPE_SUFFIX]);
    assert Encode(ESCAPE_PREFIX) == INTRODUCER;
    assert Encode(";") == [SEMICOLON];
    assert Encode([ESCAPE_SUFFIX]) == [LETTER_M];
  }

  /** A closed run of digits stands at `at`. */
  ghost predicate RunAt(all: seq<Byte>, at: nat, digits: seq<Byte>, close: Byte) {
    at + |digits| < |all| && all[at..at + |digits|] == digits && all[at + |digits|] == close
  }

  ghost predicate DigitsOf(digits: seq<Byte>, value: Byte) {
    1 <= |digits| <= 3 && AllDigitBytes(digits) && DecimalOf(digits) == value
  }

  lemma RunIsComponent(all: seq<Byte>, at: nat, digits: seq<Byte>, close: Byte, next: nat, value: Byte)
    requires RunAt(all, at, digits, close) && (close == SEMICOLON || close == LETTER_M)
    requires DigitsOf(digits, value) && next == at + |digits| + 1
    ensures IsComponent(all, at, next, value)
  {
  }

  lemma SliceOfStart(a: seq<Byte>, b: seq<Byte>, c: seq<Byte>, i: nat, j: nat)
    requires i <= j <= |a|
    ensures (a + b + c)[i..j] == a[i..j]
  {
  }

  lemma FirstMarkerAfter(before: seq<Byte>, after: seq<Byte>)
    requires Unmarked(before)
    ensures FirstMarker(before + INTRODUCER + after, |before| + 2)
  {
    var b := before + INTRODUCER + after;
    var at := |before| + 2;
    assert b[at..at + 5] == MARKER;
    forall j | 0 <= j < at
      ensures !MarkerAt(b, j)
    {
      if j + 5 <= |b| {
        if j + 5 <= |before| {
          SliceOfStart(before, INTRODUCER, after, j, j + 5);
          assert !MarkerAt(before, j);
        } else if j <= |before| {
          assert b[j..j + 5][|before| - j] == 27;
        } else {
          assert b[j..j + 5][0] == 91;
        }
      }
    }
  }

  /** Three closed digit runs, to the end of the text, are a colour. */
  lemma ThreeRuns(all: seq<Byte>, at: nat, x: nat, y: nat, r: seq<Byte>, g: seq<Byte>, b: seq<Byte>, c: Rgb)
    requires x == at + |r| + 1 && y == x + |g| + 1 && |all| == y + |b| + 1
    requires RunAt(all, at, r, SEMICOLON) && RunAt(all, x, g, SEMICOLON) && RunAt(all, y, b, LETTER_M)
    requires DigitsOf(r, c.r) && DigitsOf(g, c.g) && DigitsOf(b, c.b)
    ensures ColourAt(all, at, c)
  {
    hide IsComponent, RunAt, DigitsOf;
    RunIsComponent(all, at, r, SEMICOLON, x, c.r);
    RunIsComponent(all, x, g, SEMICOLON, y, c.g);
    RunIsComponent(all, y, b, LETTER_M, |all|, c.b);
    assert Components(all, at, x, y, |all|, c);
  }

  lemma PiecesOf(p: seq<Byte>, r: seq<Byte>, s: Byte, g: seq<Byte>, t: Byte, b: seq<Byte>, u: Byte)
    ensures var all := p + r + [s] + g + [t] + b + [u];
            RunAt(all, |p|, r, s) && RunAt(all, |p| + |r| + 1, g, t) && RunAt(all, |p| + |r| + |g| + 2, b, u)
  {
  }

  lemma Regrouped(p: seq<Byte>, q: seq<Byte>, r: seq<Byte>, s: Byte, g: seq<Byte>, t: Byte, b: seq<Byte>, u: Byte)
    ensures p + (q + r + [s] + g + [t] + b + [u]) == p + q + r + [s] + g + [t] + b + [u]
    ensures p + q + r + [s] + g + [t] + b + [u] == p + q + (r + [s] + g + [t] + b + [u])
  {
  }

  lemma EscapeIsAccepted(before: seq<Byte>, c: Rgb)
    requires Unmarked(before)
    ensures Accepted(before + Encode(EscapeText(c)), c)
  {
    EscapeBytes(c);
    DigitBytesOf(c.r);
    DigitBytesOf(c.g);
    DigitBytesOf(c.b);
    hide Encode, DigitBytes, ColourAt, EscapeText, MarkerAt, AllDigitBytes, DecimalOf, RunAt;
    var r, g, b := DigitBytes(c.r), DigitBytes(c.g), DigitBytes(c.b);
    var p0 := before + INTRODUCER;
    var all := before + Encode(EscapeText(c));
    var rest := r + [SEMICOLON] + g + [SEMICOLON] + b + [LETTER_M];
    Regrouped(before, INTRODUCER, r, SEMICOLON, g, SEMICOLON, b, LETTER_M);
    PiecesOf(p0, r, SEMICOLON, g, SEMICOLON, b, LETTER_M);
    ThreeRuns(all, |p0|, |p0| + |r| + 1, |p0| + |r| + |g| + 2, r, g, b, c);
    FirstMarkerAfter(before, rest);
  }

  /** Whatever stands before it, the escape for a colour reads back as that
      colour, as long as no marker stands before it. */
  lemma FromAnsiInvertsEscapeFor(before: seq<Byte>, c: Rgb)
    requires Unmarked(before)
    ensures forall d :: Accepted(before + Encode(EscapeText(c)), d) <==> d == c
  {
    hide Encode, EscapeText, Accepted;
    EscapeIsAccepted(before, c);
    forall d | Accepted(before + Encode(EscapeText(c)), d)
      ensures d == c
    {
      AcceptedIsUnique(before + Encode(EscapeText(c)), c, d);
    }
  }
}
