/** `Transfer-Encoding: chunked` bodies, section 7.1 of RFC 9112, as
    crates/agent/src/docker_transport.rs decodes them. */
module Chunked {
  import opened Basics
  import opened Wrappers
  import opened Utf8
  import opened Text

  const CR: Byte := 13
  const LF: Byte := 10
  const CRLF: seq<Byte> := [13, 10]

  predicate CrlfAt(b: seq<Byte>, i: nat) {
    i + 1 < |b| && b[i] == CR && b[i + 1] == LF
  }

  /** The first CRLF of `b`. */
  function FindCrlf(b: seq<Byte>): (r: Option<nat>)
    ensures r.Some? ==> CrlfAt(b, r.value) && forall i :: 0 <= i < r.value ==> !CrlfAt(b, i)
    ensures r == None ==> forall i: nat :: !CrlfAt(b, i)
  {
    if |b| < 2 then None
    else if CrlfAt(b, 0) then Some(0)
    else
      var rest := FindCrlf(b[1..]);
      assert forall i: nat {:trigger CrlfAt(b, i)} :: i > 0 ==> (CrlfAt(b, i) <==> CrlfAt(b[1..], i - 1));
      match rest
      case Some(i) => Some(i + 1)
      case None => None
  }

  /** `split(';').next()`. */
  function BeforeSemicolon(s: string): string {
    if s == [] || s[0] == ';' then [] else [s[0]] + BeforeSemicolon(s[1..])
  }

  /** The size a chunk header states: hexadecimal, before any extension. */
  function ChunkSize(header: seq<Byte>): Option<nat> {
    var text := match Decode(header) case Some(s) => s case None => [];
    ParseRadix(Trim(BeforeSemicolon(text)), 16, U64_MAX)
  }

  /** What follows the first header line of a body, when it announces data. */
  function AfterHeader(body: seq<Byte>): (r: Option<(nat, seq<Byte>)>)
    ensures r.Some? ==> r.value.0 > 0 && |r.value.1| < |body|
  {
    match FindCrlf(body)
    case None => None
    case Some(eol) =>
      match ChunkSize(body[..eol])
      case Some(size) => if size == 0 then None else Some((size, body[eol + 2..]))
      case None => None
  }

  /** The decoded body: chunk data until a bad header, a size of zero, or the end. */
  function DecodeBody(body: seq<Byte>): seq<Byte>
    decreases |body|
  {
    match AfterHeader(body)
    case None => []
    case Some((size, rest)) =>
      rest[..Least(size, |rest|)] + DecodeBody(rest[Least(size + 2, |rest|)..])
  }

  lemma CrlfBound(b: seq<Byte>)
    requires FindCrlf(b).Some?
    ensures FindCrlf(b).value + 2 <= |b|
  {
  }

  /** The first header of `left` and the data after it, told by positions. */
  lemma OneChunk(left: seq<Byte>, eol: nat, size: nat, end: nat, next: nat)
    requires FindCrlf(left) == Some(eol) && ChunkSize(left[..eol]) == Some(size) && size > 0
    requires eol + 2 <= |left| && end == Least(eol + 2 + size, |left|) && next == Least(end + 2, |left|)
    ensures DecodeBody(left) == left[eol + 2..end] + DecodeBody(left[next..])
  {
    hide AfterHeader, ChunkSize, FindCrlf, DecodeBody;
    HeaderOf(left, eol, size);
    DecodeStep(left, size, left[eol + 2..]);
    SlicesOfRest(left, eol + 2, size);
  }

  lemma HeaderOf(left: seq<Byte>, eol: nat, size: nat)
    requires FindCrlf(left) == Some(eol) && ChunkSize(left[..eol]) == Some(size) && size > 0
    ensures eol + 2 <= |left| && AfterHeader(left) == Some((size, left[eol + 2..]))
  {
    hide ChunkSize, FindCrlf;
    CrlfBound(left);
  }

  lemma DecodeStep(left: seq<Byte>, size: nat, rest: seq<Byte>)
    requires AfterHeader(left) == Some((size, rest))
    ensures DecodeBody(left) == rest[..Least(size, |rest|)] + DecodeBody(rest[Least(size + 2, |rest|)..])
  {
    hide AfterHeader;
  }

  lemma SlicesOfRest(left: seq<Byte>, from: nat, size: nat)
    requires from <= |left|
    ensures var rest, end := left[from..], Least(from + size, |left|);
            && left[from..end] == rest[..Least(size, |rest|)]
            && left[Least(end + 2, |left|)..] == rest[Least(size + 2, |rest|)..]
  {
  }

  lemma NoChunk(left: seq<Byte>)
    requires FindCrlf(left) == None || ChunkSize(left[..FindCrlf(left).value]) in {None, Some(0)}
    ensures DecodeBody(left) == []
  {
    hide ChunkSize, FindCrlf;
  }

  /** What is out and what the rest decodes to make up the decoding. */
  ghost predicate Decoding(body: seq<Byte>, out: seq<Byte>, pos: nat) {
    out + DecodeBody(body[Least(pos, |body|)..]) == DecodeBody(body)
  }

  lemma DecodingBegins(body: seq<Byte>)
    ensures Decoding(body, [], 0)
  {
    hide DecodeBody;
    assert body[0..] == body;
    assert [] + DecodeBody(body) == DecodeBody(body);
  }

  lemma SliceOfRest(b: seq<Byte>, pos: nat, i: nat, j: nat)
    requires pos + j <= |b| && i <= j
    ensures b[pos..][i..j] == b[pos + i..pos + j]
    ensures j == |b[pos..]| ==> b[pos..][i..] == b[pos + i..]
    ensures i == 0 ==> b[pos..][..j] == b[pos..pos + j]
  {
  }

  lemma DecodesChunk(body: seq<Byte>, out: seq<Byte>, pos: nat, eol: nat, size: nat, end: nat)
    requires pos < |body| && Decoding(body, out, pos)
    requires FindCrlf(body[pos..]) == Some(eol) && pos + eol + 2 <= |body|
    requires ChunkSize(body[pos..pos + eol]) == Some(size) && size > 0
    requires end == Least(pos + eol + 2 + size, |body|)
    ensures Decoding(body, out + body[pos + eol + 2..end], end + 2)
  {
    hide FindCrlf, ChunkSize, DecodeBody;
    var left := body[pos..];
    var next := Least(end + 2, |body|);
    SliceOfRest(body, pos, 0, eol);
    SliceOfRest(body, pos, eol + 2, end - pos);
    SliceOfRest(body, pos, next - pos, |left|);
    OneChunk(left, eol, size, end - pos, next - pos);
    Associate(out, body[pos + eol + 2..end], DecodeBody(body[next..]));
  }

  lemma DecodingEnds(body: seq<Byte>, out: seq<Byte>, pos: nat)
    requires Decoding(body, out, pos)
    requires pos < |body| ==>
               (FindCrlf(body[pos..]) == None
                || ChunkSize(body[pos..][..FindCrlf(body[pos..]).value]) in {None, Some(0)})
    ensures out == DecodeBody(body)
  {
    hide FindCrlf, ChunkSize, DecodeBody;
    if pos < |body| {
      NoChunk(body[pos..]);
    } else {
      NothingInNothing();
    }
    assert out + [] == out;
  }

  method DecodeChunked(body: seq<Byte>) returns (out: seq<Byte>)
    ensures out == DecodeBody(body)
  {
    hide ChunkSize, FindCrlf, DecodeBody, Decoding;
    out := [];
    var pos := 0;
    DecodingBegins(body);
    while pos < |body|
      invariant Decoding(body, out, pos)
      decreases |body| - pos
    {
      var eol := FindCrlf(body[pos..]);
      if eol == None {
        DecodingEnds(body, out, pos);
        return;
      }
      CrlfBound(body[pos..]);
      var header := body[pos..pos + eol.value];
      assert header == body[pos..][..eol.value];
      var size := ChunkSize(header);
      if size == None {
        DecodingEnds(body, out, pos);
        return;
      }
      if size.value == 0 {
        DecodingEnds(body, out, pos);
        return;
      }
      ghost var from := pos;
      pos := pos + eol.value + 2;
      var end := Least(pos + size.value, |body|);
      DecodesChunk(body, out, from, eol.value, size.value, end);
      out := out + body[pos..end];
      pos := end + 2;
    }
    DecodingEnds(body, out, pos);
  }

  // ------------------------------------------------------------------- on any body

  lemma {:induction false} DecodedIsNoLonger(body: seq<Byte>)
    ensures |DecodeBody(body)| <= |body|
    decreases |body|
  {
    hide AfterHeader;
    match AfterHeader(body)
    case None =>
    case Some((size, rest)) =>
      DecodedIsNoLonger(rest[Least(size + 2, |rest|)..]);
  }

  lemma FirstCrlfStays(part: seq<Byte>, more: seq<Byte>)
    requires FindCrlf(part).Some?
    ensures FindCrlf(part + more) == FindCrlf(part)
  {
    hide FindCrlf;
    var eol := FindCrlf(part).value;
    assert CrlfAt(part + more, eol);
    assert forall i: nat :: i < eol ==> (CrlfAt(part + more, i) <==> CrlfAt(part, i));
  }

  /** A header line that is whole in the first part of a body is the header of the whole. */
  lemma HeaderOfTruncated(part: seq<Byte>, more: seq<Byte>)
    requires AfterHeader(part).Some?
    ensures AfterHeader(part + more) == Some((AfterHeader(part).value.0, AfterHeader(part).value.1 + more))
  {
    hide ChunkSize, FindCrlf;
    FirstCrlfStays(part, more);
    CrlfBound(part);
    var eol := FindCrlf(part).value;
    assert (part + more)[..eol] == part[..eol];
    assert (part + more)[eol + 2..] == part[eol + 2..] + more;
  }

  /** What arrived of a body decodes to a prefix of what the whole decodes to. */
  lemma {:induction false} TruncationDecodesToPrefix(part: seq<Byte>, more: seq<Byte>)
    ensures DecodeBody(part) <= DecodeBody(part + more)
    decreases |part|
  {
    hide AfterHeader;
    if AfterHeader(part).Some? {
      HeaderOfTruncated(part, more);
      var (size, rest) := AfterHeader(part).value;
      var whole := rest + more;
      if size + 2 <= |rest| {
        TruncationDecodesToPrefix(rest[size + 2..], more);
        assert whole[size + 2..] == rest[size + 2..] + more;
        assert whole[..size] == rest[..size];
      } else {
        assert rest[Least(size + 2, |rest|)..] == [];
        NothingInNothing();
        assert DecodeBody(part) == rest[..Least(size, |rest|)];
        assert rest[..Least(size, |rest|)] <= whole[..Least(size, |whole|)];
      }
    }
  }

  lemma NothingInNothing()
    ensures DecodeBody([]) == []
  {
  }

  // -------------------------------------------------------------- undoing the encoder

  /** One chunk as a sender writes it: any spelling of its size, any extension, its data. */
  datatype Chunk = Chunk(digits: string, extension: string, data: seq<Byte>)

  predicate NoCrlf(b: seq<Byte>) {
    forall i :: 0 <= i < |b| ==> !CrlfAt(b, i)
  }

  /** Optional white space, then nothing more or a semicolon and anything. */
  ghost predicate IsExtension(extension: string) {
    exists k :: 0 <= k <= |extension| && AllSpaces(extension[..k]) && ';' !in extension[..k]
                && (k < |extension| ==> extension[k] == ';')
  }

  ghost predicate IsHeader(digits: string, extension: string, size: nat) {
    && digits != [] && AllDigits(digits, 16) && Value(digits, 16) == size <= U64_MAX
    && IsExtension(extension) && NoCrlf(Encode(digits + extension))
  }

  ghost predicate WellFormed(c: Chunk) {
    c.data != [] && IsHeader(c.digits, c.extension, |c.data|)
  }

  function EncodeChunk(c: Chunk): seq<Byte> {
    Encode(c.digits + c.extension) + CRLF + c.data + CRLF
  }

  function EncodeChunks(chunks: seq<Chunk>): seq<Byte> {
    if chunks == [] then [] else EncodeChunk(chunks[0]) + EncodeChunks(chunks[1..])
  }

  function AllData(chunks: seq<Chunk>): seq<Byte> {
    if chunks == [] then [] else chunks[0].data + AllData(chunks[1..])
  }

  lemma {:induction false} BeforeSemicolonOf(s: string, rest: string)
    requires ';' !in s && (rest == [] || rest[0] == ';')
    ensures BeforeSemicolon(s + rest) == s
  {
    if s == [] {
      assert s + rest == rest;
    } else {
      assert (s + rest)[1..] == s[1..] + rest;
      BeforeSemicolonOf(s[1..], rest);
    }
  }

  lemma HexIsNotSpace(digits: string)
    requires digits != [] && AllDigits(digits, 16)
    ensures !Space(digits[0]) && !Space(digits[|digits| - 1]) && ';' !in digits && digits[0] != '+'
  {
  }

  lemma PaddedSize(digits: string, pad: string, rest: string)
    requires digits != [] && !Space(digits[0]) && !Space(digits[|digits| - 1]) && ';' !in digits
    requires AllSpaces(pad) && ';' !in pad && (rest == [] || rest[0] == ';')
    ensures Trim(BeforeSemicolon(digits + pad + rest)) == digits
  {
    hide Space, AllSpaces, BeforeSemicolon, Trim;
    BeforeSemicolonOf(digits + pad, rest);
    NoSpaces();
    TrimUndoesPadding([], digits, pad);
    assert [] + digits + pad == digits + pad;
  }

  lemma NoSpaces()
    ensures AllSpaces([])
  {
  }

  lemma SizeText(digits: string, extension: string)
    requires digits != [] && AllDigits(digits, 16) && IsExtension(extension)
    ensures Trim(BeforeSemicolon(digits + extension)) == digits
  {
    hide AllDigits, BeforeSemicolon, Trim, Space, AllSpaces;
    HexIsNotSpace(digits);
    var k :| 0 <= k <= |extension| && AllSpaces(extension[..k]) && ';' !in extension[..k]
             && (k < |extension| ==> extension[k] == ';');
    PaddedSize(digits, extension[..k], extension[k..]);
    Halves(digits, extension, k);
  }

  lemma Halves(a: string, b: string, k: nat)
    requires k <= |b|
    ensures a + b[..k] + b[k..] == a + b
  {
  }

  lemma HeaderSize(digits: string, extension: string, size: nat)
    requires IsHeader(digits, extension, size)
    ensures ChunkSize(Encode(digits + extension)) == Some(size)
  {
    hide Encode, Decode, Trim, Value, BeforeSemicolon, AllDigits, IsExtension, NoCrlf;
    DecodeInvertsEncode(digits + extension);
    SizeText(digits, extension);
    HexIsNotSpace(digits);
  }

  /** A line without a CRLF ends at the first one after it. */
  lemma FirstCrlf(line: seq<Byte>, rest: seq<Byte>)
    requires NoCrlf(line)
    ensures FindCrlf(line + CRLF + rest) == Some(|line|)
  {
    hide FindCrlf;
    var body := line + CRLF + rest;
    assert CrlfAt(body, |line|);
    forall i: nat | i < |line|
      ensures !CrlfAt(body, i)
    {
      assert !CrlfAt(line, i);
      assert body[i] == line[i];
      assert i + 1 < |line| ==> body[i + 1] == line[i + 1];
    }
  }

  /** Reading back a header line. */
  lemma HeaderReadsBack(digits: string, extension: string, size: nat, rest: seq<Byte>)
    requires IsHeader(digits, extension, size)
    ensures AfterHeader(Encode(digits + extension) + CRLF + rest) == if size == 0 then None else Some((size, rest))
  {
    hide Encode, ChunkSize, FindCrlf, NoCrlf, IsExtension, AllDigits, Value;
    HeaderSize(digits, extension, size);
    var header := Encode(digits + extension);
    var body := header + CRLF + rest;
    FirstCrlf(header, rest);
    assert body[..|header|] == header && body[|header| + 2..] == rest;
  }

  lemma ChunkRegrouped(header: seq<Byte>, data: seq<Byte>, rest: seq<Byte>)
    ensures header + CRLF + data + CRLF + rest == header + CRLF + (data + CRLF + rest)
  {
  }

  lemma ChunkReadsBack(c: Chunk, rest: seq<Byte>)
    requires WellFormed(c)
    ensures DecodeBody(EncodeChunk(c) + rest) == c.data + DecodeBody(rest)
  {
    hide Encode, IsHeader, AfterHeader, DecodeBody;
    var after := c.data + CRLF + rest;
    HeaderReadsBack(c.digits, c.extension, |c.data|, after);
    ChunkRegrouped(Encode(c.digits + c.extension), c.data, rest);
    DecodeStep(EncodeChunk(c) + rest, |c.data|, after);
    assert after[..|c.data|] == c.data && after[|c.data| + 2..] == rest;
  }

  /** Decoding undoes the encoding of any chunks, whatever their data holds,
      their extensions say, and the trailer after the last chunk is. */
  lemma {:induction false} DecodeInvertsChunks(chunks: seq<Chunk>, zeros: string, extension: string, trailer: seq<Byte>)
    requires forall i :: 0 <= i < |chunks| ==> WellFormed(chunks[i])
    requires IsHeader(zeros, extension, 0)
    ensures DecodeBody(EncodeChunks(chunks) + (Encode(zeros + extension) + CRLF + trailer)) == AllData(chunks)
  {
    hide WellFormed, IsHeader, Encode, AfterHeader, EncodeChunk;
    var last := Encode(zeros + extension) + CRLF + trailer;
    if chunks == [] {
      HeaderReadsBack(zeros, extension, 0, trailer);
      assert EncodeChunks(chunks) + last == last;
    } else {
      DecodeInvertsChunks(chunks[1..], zeros, extension, trailer);
      ChunkReadsBack(chunks[0], EncodeChunks(chunks[1..]) + last);
      assert EncodeChunks(chunks) + last == EncodeChunk(chunks[0]) + (EncodeChunks(chunks[1..]) + last);
    }
  }

  /** A body cut short inside a chunk, its data or the CRLF after it, decodes to
      all the data that arrived. */
  lemma {:induction false} CutBodyYieldsArrived(chunks: seq<Chunk>, cut: Chunk, arrived: seq<Byte>)
    requires forall i :: 0 <= i < |chunks| ==> WellFormed(chunks[i])
    requires WellFormed(cut) && arrived <= cut.data + CRLF
    ensures DecodeBody(EncodeChunks(chunks) + (Encode(cut.digits + cut.extension) + CRLF + arrived))
         == AllData(chunks) + (if |arrived| <= |cut.data| then arrived else cut.data)
  {
    hide IsHeader, Encode, AfterHeader, EncodeChunk, DecodeBody;
    var last := Encode(cut.digits + cut.extension) + CRLF + arrived;
    if chunks == [] {
      HeaderReadsBack(cut.digits, cut.extension, |cut.data|, arrived);
      DecodeStep(last, |cut.data|, arrived);
      NothingInNothing();
      assert EncodeChunks(chunks) + last == last;
      ArrivedData(cut.data, arrived);
    } else {
      hide WellFormed;
      CutBodyYieldsArrived(chunks[1..], cut, arrived);
      ChunkReadsBack(chunks[0], EncodeChunks(chunks[1..]) + last);
      Associate(EncodeChunk(chunks[0]), EncodeChunks(chunks[1..]), last);
      Associate(chunks[0].data, AllData(chunks[1..]), if |arrived| <= |cut.data| then arrived else cut.data);
    }
  }

  lemma ArrivedData(data: seq<Byte>, arrived: seq<Byte>)
    requires arrived <= data + CRLF
    ensures var n := |data|;
            && arrived[..Least(n, |arrived|)] == (if |arrived| <= n then arrived else data)
            && arrived[Least(n + 2, |arrived|)..] == []
  {
  }
}
