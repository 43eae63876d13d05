/** UTF-8 as section 3 of RFC 3629 defines it.

    A Rust `str` is a Dafny `string`: both are sequences of Unicode scalar
    values. Bytes are the integers 0 to 255. `Decode` is `str::from_utf8`,
    `Lossy` is `String::from_utf8_lossy`, `Encode` is `str::as_bytes`.
 */
module Utf8 {
  import opened Wrappers

  type Byte = b: int | 0 <= b < 256

  const REPLACEMENT := '\U{FFFD}'

  /** The bytes of one character. */
  function EncodeChar(c: char): (r: seq<Byte>)
    ensures 1 <= |r| <= 4
  {
    var n := c as int;
    if n < 0x80 then [n]
    else if n < 0x800 then [0xC0 + n / 64, 0x80 + n % 64]
    else if n < 0x1_0000 then [0xE0 + n / 4096, 0x80 + n / 64 % 64, 0x80 + n % 64]
    else [0xF0 + n / 0x4_0000, 0x80 + n / 4096 % 64, 0x80 + n / 64 % 64, 0x80 + n % 64]
  }

  function Encode(s: string): (r: seq<Byte>)
    ensures |s| <= |r|
  {
    if s == [] then [] else EncodeChar(s[0]) + Encode(s[1..])
  }

  /** What stands at the front of a byte string: a character and its length, or
      a maximal ill-formed prefix of the given length. */
  datatype Scan = Good(c: char, len: nat) | Bad(len: nat)

  predicate Continuation(b: Byte) {
    0x80 <= b < 0xC0
  }

  predicate ContinuationAt(b: seq<Byte>, i: nat) {
    i < |b| && Continuation(b[i])
  }

  /** The second byte of a three-byte form excludes overlong forms and surrogates. */
  predicate SecondOfThree(b: seq<Byte>) {
    1 < |b| && (if b[0] == 0xE0 then 0xA0 else 0x80) <= b[1] <= (if b[0] == 0xED then 0x9F else 0xBF)
  }

  /** The second byte of a four-byte form excludes overlong forms and values past U+10FFFF. */
  predicate SecondOfFour(b: seq<Byte>) {
    1 < |b| && (if b[0] == 0xF0 then 0x90 else 0x80) <= b[1] <= (if b[0] == 0xF4 then 0x8F else 0xBF)
  }

  function Front(b: seq<Byte>): (r: Scan)
    requires |b| > 0
    ensures 1 <= r.len <= |b|
  {
    var x: int := b[0];
    if x < 0x80 then Good(x as char, 1)
    else if 0xC2 <= x < 0xE0 then
      if ContinuationAt(b, 1) then Good(((x - 0xC0) * 64 + Six(b[1])) as char, 2) else Bad(1)
    else if 0xE0 <= x < 0xF0 then
      if !SecondOfThree(b) then Bad(1)
      else if !ContinuationAt(b, 2) then Bad(2)
      else Good(((x - 0xE0) * 4096 + Six(b[1]) * 64 + Six(b[2])) as char, 3)
    else if 0xF0 <= x < 0xF5 then
      if !SecondOfFour(b) then Bad(1)
      else if !ContinuationAt(b, 2) then Bad(2)
      else if !ContinuationAt(b, 3) then Bad(3)
      else Good(((x - 0xF0) * 0x4_0000 + Six(b[1]) * 4096 + Six(b[2]) * 64 + Six(b[3])) as char, 4)
    else Bad(1)
  }

  /** The six payload bits of a continuation byte. */
  function Six(b: Byte): int {
    b - 0x80
  }

  /** The characters of `b`, when the whole of it is UTF-8. */
  function Decode(b: seq<Byte>): (r: Option<string>)
  {
    if b == [] then Some([])
    else match Front(b)
      case Good(c, n) => (match Decode(b[n..]) case Some(s) => Some([c] + s) case None => None)
      case Bad(_) => None
  }

  /** The characters of `b`, one replacement character for each ill-formed prefix. */
  function Lossy(b: seq<Byte>): string
  {
    if b == [] then []
    else match Front(b)
      case Good(c, n) => [c] + Lossy(b[n..])
      case Bad(n) => [REPLACEMENT] + Lossy(b[n..])
  }

  // ---------------------------------------------------------------- round trips

  lemma FrontOfEncoded(c: char, rest: seq<Byte>)
    ensures Front(EncodeChar(c) + rest) == Good(c, |EncodeChar(c)|)
  {
    var n := c as int;
    var e := EncodeChar(c);
    var b := e + rest;
    assert forall i :: 0 <= i < |e| ==> b[i] == e[i];
    SixBitGroups(n);
  }

  lemma SixBitGroups(n: nat)
    requires n < 0x11_0000
    ensures n / 64 * 64 + n % 64 == n
    ensures n / 4096 * 4096 + n / 64 % 64 * 64 + n % 64 == n
    ensures n / 0x4_0000 * 0x4_0000 + n / 4096 % 64 * 4096 + n / 64 % 64 * 64 + n % 64 == n
  {
    assert n / 64 / 64 == n / 4096;
    assert n / 4096 / 64 == n / 0x4_0000;
  }

  lemma GroupsAreUnique(w: nat, x: nat, y: nat, z: nat)
    requires x < 64 && y < 64 && z < 64
    ensures var n := w * 0x4_0000 + x * 4096 + y * 64 + z;
            n / 0x4_0000 == w && n / 4096 % 64 == x && n / 64 % 64 == y && n % 64 == z
  {
    var n := w * 0x4_0000 + x * 4096 + y * 64 + z;
    assert n / 64 == w * 4096 + x * 64 + y;
    assert n / 4096 == w * 64 + x;
  }

  lemma FrontIsEncoded(b: seq<Byte>)
    requires |b| > 0 && Front(b).Good?
    ensures b[..Front(b).len] == EncodeChar(Front(b).c)
  {
    var x: int := b[0];
    if x < 0x80 {
    } else if x < 0xE0 {
      GroupsAreUnique(0, 0, x - 0xC0, Six(b[1]));
    } else if x < 0xF0 {
      GroupsAreUnique(0, x - 0xE0, Six(b[1]), Six(b[2]));
    } else {
      GroupsAreUnique(x - 0xF0, Six(b[1]), Six(b[2]), Six(b[3]));
    }
  }

  lemma {:induction false} DecodeInvertsEncode(s: string)
    ensures Decode(Encode(s)) == Some(s)
  {
    if s == [] {
    } else {
      hide Front, EncodeChar;
      var head, rest := EncodeChar(s[0]), Encode(s[1..]);
      FrontOfEncoded(s[0], rest);
      DecodeInvertsEncode(s[1..]);
      assert (head + rest)[|head|..] == rest;
      assert Decode(head + rest) == Some([s[0]] + s[1..]);
      assert s == [s[0]] + s[1..];
    }
  }

  lemma EncodeCons(c: char, s: string)
    ensures Encode([c] + s) == EncodeChar(c) + Encode(s)
  {
    hide EncodeChar;
    assert ([c] + s)[1..] == s;
  }

  lemma DecodeGood(b: seq<Byte>)
    requires b != [] && Decode(b).Some?
    ensures Front(b).Good? && Decode(b[Front(b).len..]).Some?
    ensures Decode(b).value == [Front(b).c] + Decode(b[Front(b).len..]).value
  {
    hide Front;
  }

  lemma {:induction false} EncodeInvertsDecode(b: seq<Byte>)
    requires Decode(b).Some?
    ensures Encode(Decode(b).value) == b
  {
    hide Front, EncodeChar;
    if b == [] {
      assert Decode(b).value == [];
    } else {
      DecodeGood(b);
      hide Decode, Encode;
      var f := Front(b);
      FrontIsEncoded(b);
      EncodeInvertsDecode(b[f.len..]);
      EncodeCons(f.c, Decode(b[f.len..]).value);
      assert b == b[..f.len] + b[f.len..];
    }
  }

  lemma {:induction false} LossyAgreesOnText(b: seq<Byte>)
    requires Decode(b).Some?
    ensures Lossy(b) == Decode(b).value
  {
    if b == [] {
    } else {
      hide Front;
      LossyAgreesOnText(b[Front(b).len..]);
    }
  }

  lemma {:induction false} EncodeConcat(s: string, t: string)
    ensures Encode(s + t) == Encode(s) + Encode(t)
  {
    if s == [] {
      assert s + t == t;
    } else {
      hide EncodeChar;
      assert (s + t)[1..] == s[1..] + t;
      EncodeConcat(s[1..], t);
    }
  }

  predicate Ascii(s: string) {
    forall i :: 0 <= i < |s| ==> s[i] < '\U{80}'
  }

  lemma {:induction false} EncodeAscii(s: string)
    requires Ascii(s)
    ensures |Encode(s)| == |s|
    ensures forall i :: 0 <= i < |s| ==> Encode(s)[i] == s[i] as int
  {
    if s == [] {
    } else {
      EncodeAscii(s[1..]);
    }
  }

  /** The byte forms of section 3 of RFC 3629: how many bytes a character has,
      how they begin, and what number they make. */
  lemma ByteForms(c: char)
    ensures var n, r := c as int, EncodeChar(c);
            if n <= 0x7F then |r| == 1 && r[0] == n
            else if n <= 0x7FF then
              |r| == 2 && 0xC2 <= r[0] <= 0xDF && (r[0] as int - 0xC0) * 64 + (r[1] as int - 0x80) == n
            else if n <= 0xFFFF then
              && |r| == 3 && 0xE0 <= r[0] <= 0xEF
              && (r[0] as int - 0xE0) * 4096 + (r[1] as int - 0x80) * 64 + (r[2] as int - 0x80) == n
            else
              && |r| == 4 && 0xF0 <= r[0] <= 0xF4
              && (r[0] as int - 0xF0) * 262144 + (r[1] as int - 0x80) * 4096
                 + (r[2] as int - 0x80) * 64 + (r[3] as int - 0x80) == n
    ensures forall i :: 0 < i < |EncodeChar(c)| ==> 0x80 <= EncodeChar(c)[i] <= 0xBF
  {
    SixBitGroups(c as int);
  }

  /** One replacement character for each maximal ill-formed prefix. */
  lemma LossyReplaces(before: string, rest: seq<Byte>)
    ensures Lossy(Encode(before) + [0xFF] + rest) == before + [REPLACEMENT] + Lossy(rest)
  {
    LossyAfterText(before, [0xFF] + rest);
    assert Encode(before) + [0xFF] + rest == Encode(before) + ([0xFF] + rest);
    assert ([0xFF] + rest)[1..] == rest;
    assert before + ([REPLACEMENT] + Lossy(rest)) == before + [REPLACEMENT] + Lossy(rest);
  }

  lemma LossyGood(c: char, rest: seq<Byte>)
    ensures Lossy(EncodeChar(c) + rest) == [c] + Lossy(rest)
  {
    hide Front, EncodeChar;
    FrontOfEncoded(c, rest);
    assert (EncodeChar(c) + rest)[|EncodeChar(c)|..] == rest;
  }

  lemma {:induction false} LossyAfterText(text: string, rest: seq<Byte>)
    ensures Lossy(Encode(text) + rest) == text + Lossy(rest)
  {
    hide EncodeChar, Lossy;
    if text == [] {
      assert Encode(text) + rest == rest;
    } else {
      var head, tail := EncodeChar(text[0]), Encode(text[1..]);
      LossyAfterText(text[1..], rest);
      LossyGood(text[0], tail + rest);
      assert head + tail + rest == head + (tail + rest);
      assert text + Lossy(rest) == [text[0]] + (text[1..] + Lossy(rest));
    }
  }
}
