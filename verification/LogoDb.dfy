/** The length-prefixed logo database: the writer `pack_db`
    (scripts/repack_logos.py) and the reader `parse_db`
    (crates/multitop/src/fetch_render.rs). */
module LogoDb {
  import opened Wrappers
  import opened Utf8
  import Markers

  /** One logo, in the writer's hands and in the reader's. */
  datatype Logo = Logo(patterns: seq<string>, colors: seq<Byte>, lines: seq<string>)

  const MAGIC: seq<Byte> := [77, 84, 76, 71] // MTLG
  const HEADER_LEN := 8
  const MAX_BYTE := 255
  const MAX_U16 := 65535

  function U16Bytes(n: nat): seq<Byte>
    requires n <= MAX_U16
  {
    [n % 256, n / 256]
  }

  function U16Of(lo: Byte, hi: Byte): nat {
    lo as int + 256 * hi as int
  }

  // -------------------------------------------------------------------- the writer

  /** At most 255 bytes of a text. */
  function Clipped(b: seq<Byte>): (r: seq<Byte>)
    ensures |r| == (if |b| < 255 then |b| else 255) && r <= b
  {
    if |b| > MAX_BYTE then b[..MAX_BYTE] else b
  }

  function FieldBytes(texts: seq<string>): seq<Byte> {
    if texts == [] then []
    else FieldBytes(texts[..|texts| - 1]) + FieldOf(texts[|texts| - 1])
  }

  function FieldOf(text: string): seq<Byte> {
    [|Clipped(Encode(text))|] + Clipped(Encode(text))
  }

  /** Within the one- and two-byte counts of the format; past them the writer raises. */
  predicate Countable(e: Logo) {
    && |e.patterns| <= MAX_BYTE && |e.colors| <= MAX_BYTE && |e.lines| <= MAX_U16
    && forall i :: 0 <= i < |e.patterns| ==> Ascii(e.patterns[i])
  }

  function Payload(e: Logo): seq<Byte>
    requires Countable(e)
  {
    var patterns: Byte := |e.patterns|;
    var colors: Byte := |e.colors|;
    [patterns] + FieldBytes(e.patterns) + [colors] + e.colors + U16Bytes(|e.lines|) + FieldBytes(e.lines)
  }

  predicate Packable(e: Logo) {
    Countable(e) && |Payload(e)| <= MAX_U16
  }

  function EntryBytes(e: Logo): seq<Byte>
    requires Packable(e)
  {
    U16Bytes(|Payload(e)|) + Payload(e)
  }

  function EntriesBytes(entries: seq<Logo>): seq<Byte>
    requires forall i :: 0 <= i < |entries| ==> Packable(entries[i])
  {
    if entries == [] then [] else EntriesBytes(entries[..|entries| - 1]) + EntryBytes(entries[|entries| - 1])
  }

  predicate PackableDb(entries: seq<Logo>) {
    |entries| <= MAX_U16 && forall i :: 0 <= i < |entries| ==> Packable(entries[i])
  }

  function DbBytes(entries: seq<Logo>): seq<Byte>
    requires PackableDb(entries)
  {
    MAGIC + U16Bytes(1) + U16Bytes(|entries|) + EntriesBytes(entries)
  }

  lemma NoFields()
    ensures forall texts: seq<string> :: FieldBytes(texts[..0]) == []
  {
  }

  lemma FieldBytesStep(texts: seq<string>, i: nat)
    requires i < |texts|
    ensures FieldBytes(texts[..i + 1]) == FieldBytes(texts[..i]) + FieldOf(texts[i])
  {
    hide FieldOf;
    assert texts[..i + 1][..i] == texts[..i];
  }

  method PackFields(texts: seq<string>) returns (buf: seq<Byte>)
    ensures buf == FieldBytes(texts)
  {
    hide Encode, FieldBytes;
    buf := [];
    NoFields();
    var i := 0;
    while i < |texts|
      invariant i <= |texts| && buf == FieldBytes(texts[..i])
    {
      var b := Encode(texts[i]);
      if |b| > MAX_BYTE {
        b := b[..MAX_BYTE];
      }
      FieldBytesStep(texts, i);
      assert buf + [|b|] + b == buf + ([|b|] + b);
      buf := buf + [|b|];
      buf := buf + b;
      i := i + 1;
    }
    assert texts[..|texts|] == texts;
  }

  /** `None` is the exception the writer raises when a count or a size does not fit. */
  method PackDb(entries: seq<Logo>) returns (r: Option<seq<Byte>>)
    ensures r.Some? <==> PackableDb(entries)
    ensures r.Some? ==> r.value == DbBytes(entries)
  {
    hide FieldBytes, Payload, U16Bytes;
    if |entries| > MAX_U16 {
      return None;
    }
    var buf := MAGIC;
    buf := buf + U16Bytes(1);
    buf := buf + U16Bytes(|entries|);
    ghost var head := buf;
    var i := 0;
    while i < |entries|
      invariant i <= |entries|
      invariant forall k :: 0 <= k < i ==> Packable(entries[k])
      invariant buf == head + EntriesBytes(entries[..i])
    {
      var e := entries[i];
      if !Countable(e) {
        return None;
      }
      var payload := PackEntry(e);
      if |payload| > MAX_U16 {
        return None;
      }
      assert entries[..i + 1][..i] == entries[..i];
      buf := buf + U16Bytes(|payload|);
      buf := buf + payload;
      i := i + 1;
    }
    assert entries[..|entries|] == entries;
    r := Some(buf);
  }

  method PackEntry(e: Logo) returns (payload: seq<Byte>)
    requires Countable(e)
    ensures payload == Payload(e)
  {
    hide FieldBytes;
    var patternBytes := PackFields(e.patterns);
    var lineBytes := PackFields(e.lines);
    payload := [|e.patterns|];
    payload := payload + patternBytes;
    payload := payload + [|e.colors|];
    payload := payload + e.colors;
    payload := payload + U16Bytes(|e.lines|);
    payload := payload + lineBytes;
  }

  // -------------------------------------------------------------------- the reader

  /** A length-prefixed field at `pos`, and the position after it; `None` is
      the panic of an index past the end. */
  function FieldAt(b: seq<Byte>, pos: nat): Option<(seq<Byte>, nat)> {
    if pos >= |b| || pos + 1 + b[pos] as int > |b| then None
    else Some((b[pos + 1..pos + 1 + b[pos] as int], pos + 1 + b[pos] as int))
  }

  function FieldsAt(b: seq<Byte>, pos: nat, n: nat): (r: Option<(seq<seq<Byte>>, nat)>)
    ensures r.Some? ==> |r.value.0| == n && (n > 0 ==> r.value.1 <= |b|)
  {
    if n == 0 then Some(([], pos))
    else match FieldsAt(b, pos, n - 1)
      case None => None
      case Some((fields, next)) =>
        match FieldAt(b, next)
        case None => None
        case Some((field, after)) => Some((fields + [field], after))
  }

  function U16At(b: seq<Byte>, pos: nat): Option<nat> {
    if pos + 1 >= |b| then None else Some(U16Of(b[pos], b[pos + 1]))
  }

  function Patterns(fields: seq<seq<Byte>>): (r: seq<string>)
    ensures |r| == |fields|
  {
    seq(|fields|, i requires 0 <= i < |fields| => Lossy(fields[i]))
  }

  /** A logo line: the text with its colour markers stripped. */
  function LineText(field: seq<Byte>): string {
    Markers.Emitted([], Lossy(field))
  }

  function LineTexts(fields: seq<seq<Byte>>): (r: seq<string>)
    ensures |r| == |fields|
  {
    seq(|fields|, i requires 0 <= i < |fields| => LineText(fields[i]))
  }

  /** An entry at `pos`: the logo, where its last field ends, and where its size says it ends. */
  function EntryAt(b: seq<Byte>, pos: nat): Option<(Logo, nat, nat)> {
    if U16At(b, pos) == None || pos + 2 >= |b| then None
    else
      match FieldsAt(b, pos + 3, b[pos + 2] as int)
      case None => None
      case Some((patterns, p)) =>
        if p >= |b| || p + 1 + b[p] as int > |b| then None
        else
          var q := p + 1 + b[p] as int;
          if U16At(b, q) == None then None
          else
            match FieldsAt(b, q + 2, U16At(b, q).value)
            case None => None
            case Some((lines, end)) =>
              Some((Logo(Patterns(patterns), b[p + 1..q], LineTexts(lines)), end, pos + 2 + U16At(b, pos).value))
  }

  /** `n` entries from `pos` on, the cursor jumping to each stated end. */
  function EntriesAt(b: seq<Byte>, pos: nat, n: nat): Option<(seq<Logo>, nat)> {
    if n == 0 then Some(([], pos))
    else match EntriesAt(b, pos, n - 1)
      case None => None
      case Some((logos, next)) =>
        match EntryAt(b, next)
        case None => None
        case Some((logo, _, end)) => Some((logos + [logo], end))
  }

  function Logos(b: seq<Byte>): Option<seq<Logo>> {
    if |b| < HEADER_LEN || b[..4] != MAGIC then None
    else match EntriesAt(b, HEADER_LEN, U16Of(b[6], b[7]))
      case Some((logos, _)) => Some(logos)
      case None => None
  }

  method ReadFields(b: seq<Byte>, from: nat, n: nat) returns (r: Option<(seq<seq<Byte>>, nat)>)
    ensures r == FieldsAt(b, from, n)
  {
    var fields, pos := [], from;
    var i := 0;
    while i < n
      invariant i <= n && FieldsAt(b, from, i) == Some((fields, pos))
    {
      if FieldAt(b, pos) == None {
        FieldsStop(b, from, i, n);
        return None;
      }
      var len := b[pos] as int;
      pos := pos + 1;
      fields := fields + [b[pos..pos + len]];
      pos := pos + len;
      i := i + 1;
    }
    r := Some((fields, pos));
  }

  lemma {:induction false} FieldsStop(b: seq<Byte>, from: nat, i: nat, n: nat)
    requires i < n && FieldsAt(b, from, i).Some? && FieldAt(b, FieldsAt(b, from, i).value.1) == None
    ensures FieldsAt(b, from, n) == None
  {
    if i < n - 1 {
      FieldsStop(b, from, i, n - 1);
    }
  }

  method ReadEntry(b: seq<Byte>, from: nat) returns (r: Option<(Logo, nat, nat)>)
    ensures r == EntryAt(b, from)
  {
    hide FieldsAt, LineText, Lossy;
    var pos := from;
    if U16At(b, pos) == None {
      return None;
    }
    var entryEnd := pos + 2 + U16At(b, pos).value;
    pos := pos + 2;
    if pos >= |b| {
      return None;
    }
    var numPatterns := b[pos] as int;
    pos := pos + 1;
    var patterns := ReadFields(b, pos, numPatterns);
    if patterns == None {
      return None;
    }
    pos := patterns.value.1;
    if pos >= |b| {
      return None;
    }
    var numColors := b[pos] as int;
    pos := pos + 1;
    if pos + numColors > |b| {
      return None;
    }
    var colors := b[pos..pos + numColors];
    pos := pos + numColors;
    if U16At(b, pos) == None {
      return None;
    }
    var numLines := U16At(b, pos).value;
    pos := pos + 2;
    var lines := ReadFields(b, pos, numLines);
    if lines == None {
      return None;
    }
    r := Some((Logo(Patterns(patterns.value.0), colors, LineTexts(lines.value.0)), lines.value.1, entryEnd));
  }

  /** `None` is the panic on bytes no writer of this format produced. */
  method ParseDb(b: seq<Byte>) returns (r: Option<seq<Logo>>)
    ensures r == Logos(b)
  {
    hide EntryAt;
    if |b| < HEADER_LEN {
      return None;
    }
    if b[..4] != MAGIC {
      return None;
    }
    var count := U16Of(b[6], b[7]);
    var pos := HEADER_LEN;
    var logos := [];
    var i := 0;
    while i < count
      invariant i <= count && EntriesAt(b, HEADER_LEN, i) == Some((logos, pos))
    {
      var entry := ReadEntry(b, pos);
      if entry == None {
        EntriesStop(b, HEADER_LEN, i, count);
        return None;
      }
      logos := logos + [entry.value.0];
      pos := entry.value.2;
      i := i + 1;
    }
    r := Some(logos);
  }

  lemma {:induction false} EntriesStop(b: seq<Byte>, from: nat, i: nat, n: nat)
    requires i < n && EntriesAt(b, from, i).Some? && EntryAt(b, EntriesAt(b, from, i).value.1) == None
    ensures EntriesAt(b, from, n) == None
  {
    hide EntryAt;
    if i < n - 1 {
      EntriesStop(b, from, i, n - 1);
    }
  }

  // ------------------------------------------------------------------- round trip

  /** `part` stands at `pos` of `b`. */
  ghost predicate Stands(b: seq<Byte>, pos: nat, part: seq<Byte>) {
    pos + |part| <= |b| && b[pos..pos + |part|] == part
  }

  lemma StandsSplit(b: seq<Byte>, pos: nat, x: seq<Byte>, y: seq<Byte>)
    requires Stands(b, pos, x + y)
    ensures Stands(b, pos, x) && Stands(b, pos + |x|, y)
  {
    assert b[pos..pos + |x + y|][..|x|] == x && b[pos..pos + |x + y|][|x|..] == y;
  }

  function ClippedAll(texts: seq<string>): (r: seq<seq<Byte>>)
    ensures |r| == |texts|
  {
    seq(|texts|, i requires 0 <= i < |texts| => Clipped(Encode(texts[i])))
  }

  lemma FieldReadsBack(b: seq<Byte>, pos: nat, text: string)
    requires Stands(b, pos, FieldOf(text))
    ensures FieldAt(b, pos) == Some((Clipped(Encode(text)), pos + |FieldOf(text)|))
  {
    hide Encode, Clipped;
    StandsSplit(b, pos, [|Clipped(Encode(text))|], Clipped(Encode(text)));
    assert b[pos] == b[pos..pos + 1][0];
  }

  lemma {:induction false} FieldsReadBack(b: seq<Byte>, pos: nat, texts: seq<string>)
    requires Stands(b, pos, FieldBytes(texts))
    ensures FieldsAt(b, pos, |texts|) == Some((ClippedAll(texts), pos + |FieldBytes(texts)|))
  {
    hide Encode, Clipped, FieldOf, FieldAt, Stands;
    if texts == [] {
    } else {
      var front, last := texts[..|texts| - 1], texts[|texts| - 1];
      StandsSplit(b, pos, FieldBytes(front), FieldOf(last));
      FieldsReadBack(b, pos, front);
      FieldReadsBack(b, pos + |FieldBytes(front)|, last);
      assert ClippedAll(texts) == ClippedAll(front) + [Clipped(Encode(last))];
    }
  }

  lemma U16ReadsBack(b: seq<Byte>, pos: nat, n: nat)
    requires n <= MAX_U16 && Stands(b, pos, U16Bytes(n))
    ensures U16At(b, pos) == Some(n)
  {
    assert b[pos] == b[pos..pos + 2][0] && b[pos + 1] == b[pos..pos + 2][1];
  }

  lemma ByteReadsBack(b: seq<Byte>, pos: nat, x: Byte)
    requires Stands(b, pos, [x])
    ensures pos < |b| && b[pos] == x
  {
    assert b[pos] == b[pos..pos + 1][0];
  }

  /** What the reader makes of an entry: every text cut to 255 bytes, and the
      lines without their markers. */
  function Reread(e: Logo): Logo {
    Logo(Patterns(ClippedAll(e.patterns)), e.colors, LineTexts(ClippedAll(e.lines)))
  }

  /** Where the parts of a payload stand. */
  lemma PayloadParts(b: seq<Byte>, pos: nat, e: Logo)
    requires Countable(e) && Stands(b, pos, Payload(e))
    ensures Stands(b, pos, [|e.patterns|])
    ensures Stands(b, pos + 1, FieldBytes(e.patterns))
    ensures var p := pos + 1 + |FieldBytes(e.patterns)|;
            && Stands(b, p, [|e.colors|]) && Stands(b, p + 1, e.colors)
            && Stands(b, p + 1 + |e.colors|, U16Bytes(|e.lines|))
            && Stands(b, p + 3 + |e.colors|, FieldBytes(e.lines))
  {
    hide Stands, FieldBytes, U16Bytes;
    var u := U16Bytes(|e.lines|);
    assert |u| == 2 by { U16Length(|e.lines|); }
    StandsSplit(b, pos, [|e.patterns|] + FieldBytes(e.patterns) + [|e.colors|] + e.colors + u, FieldBytes(e.lines));
    StandsSplit(b, pos, [|e.patterns|] + FieldBytes(e.patterns) + [|e.colors|] + e.colors, u);
    StandsSplit(b, pos, [|e.patterns|] + FieldBytes(e.patterns) + [|e.colors|], e.colors);
    StandsSplit(b, pos, [|e.patterns|] + FieldBytes(e.patterns), [|e.colors|]);
    StandsSplit(b, pos, [|e.patterns|], FieldBytes(e.patterns));
  }

  lemma U16Length(n: nat)
    requires n <= MAX_U16
    ensures |U16Bytes(n)| == 2
  {
  }

  /** One entry reads back, and the cursor has come exactly to where its size says it ends. */
  lemma EntryReadsBack(b: seq<Byte>, pos: nat, e: Logo)
    requires Packable(e) && Stands(b, pos, EntryBytes(e))
    ensures EntryAt(b, pos) == Some((Reread(e), pos + |EntryBytes(e)|, pos + |EntryBytes(e)|))
  {
    hide Stands, FieldBytes, FieldsAt, U16Bytes, U16At, Payload, LineText, Clipped, EntryBytes, EntryAt, Patterns,
      LineTexts;
    EntryParts(b, pos, e);
    var p := pos + 3 + |FieldBytes(e.patterns)|;
    var q := p + 1 + |e.colors|;
    FieldsReadBack(b, pos + 3, e.patterns);
    FieldsReadBack(b, q + 2, e.lines);
    U16ReadsBack(b, q, |e.lines|);
    ByteReadsBack(b, pos + 2, |e.patterns|);
    ByteReadsBack(b, p, |e.colors|);
    ColorsReadBack(b, p + 1, e.colors);
    EntryAtPieces(b, pos, p, q, ClippedAll(e.patterns), ClippedAll(e.lines), q + 2 + |FieldBytes(e.lines)|);
  }

  /** An entry, from the pieces the reader meets on its way. */
  lemma EntryAtPieces(b: seq<Byte>, pos: nat, p: nat, q: nat, patterns: seq<seq<Byte>>, lines: seq<seq<Byte>>, end: nat)
    requires U16At(b, pos).Some? && pos + 2 < |b|
    requires FieldsAt(b, pos + 3, b[pos + 2] as int) == Some((patterns, p))
    requires p < |b| && q == p + 1 + b[p] as int <= |b|
    requires U16At(b, q).Some? && FieldsAt(b, q + 2, U16At(b, q).value) == Some((lines, end))
    ensures EntryAt(b, pos)
         == Some((Logo(Patterns(patterns), b[p + 1..q], LineTexts(lines)), end, pos + 2 + U16At(b, pos).value))
  {
    hide FieldsAt, U16At, LineText, Patterns, LineTexts;
  }

  lemma ColorsReadBack(b: seq<Byte>, pos: nat, colors: seq<Byte>)
    requires Stands(b, pos, colors)
    ensures pos + |colors| <= |b| && b[pos..pos + |colors|] == colors
  {
  }

  lemma EntryParts(b: seq<Byte>, pos: nat, e: Logo)
    requires Packable(e) && Stands(b, pos, EntryBytes(e))
    ensures U16At(b, pos) == Some(|Payload(e)|)
    ensures |EntryBytes(e)| == 2 + |Payload(e)|
    ensures var p := pos + 3 + |FieldBytes(e.patterns)|;
            && Stands(b, pos + 2, [|e.patterns|]) && Stands(b, pos + 3, FieldBytes(e.patterns))
            && Stands(b, p, [|e.colors|]) && Stands(b, p + 1, e.colors)
            && Stands(b, p + 1 + |e.colors|, U16Bytes(|e.lines|))
            && Stands(b, p + 3 + |e.colors|, FieldBytes(e.lines))
            && pos + |EntryBytes(e)| == p + 3 + |e.colors| + |FieldBytes(e.lines)|
  {
    hide Stands, FieldBytes;
    U16Length(|Payload(e)|);
    U16Length(|e.lines|);
    StandsSplit(b, pos, U16Bytes(|Payload(e)|), Payload(e));
    U16ReadsBack(b, pos, |Payload(e)|);
    PayloadParts(b, pos + 2, e);
  }

  function RereadAll(entries: seq<Logo>): (r: seq<Logo>)
    ensures |r| == |entries|
  {
    seq(|entries|, i requires 0 <= i < |entries| => Reread(entries[i]))
  }

  lemma {:induction false} EntriesReadBack(b: seq<Byte>, pos: nat, entries: seq<Logo>)
    requires forall i :: 0 <= i < |entries| ==> Packable(entries[i])
    requires Stands(b, pos, EntriesBytes(entries))
    ensures EntriesAt(b, pos, |entries|) == Some((RereadAll(entries), pos + |EntriesBytes(entries)|))
  {
    hide Packable, EntryBytes, EntryAt, Stands, Reread;
    if entries == [] {
    } else {
      var front, last := entries[..|entries| - 1], entries[|entries| - 1];
      StandsSplit(b, pos, EntriesBytes(front), EntryBytes(last));
      EntriesReadBack(b, pos, front);
      EntryReadsBack(b, pos + |EntriesBytes(front)|, last);
      assert RereadAll(entries) == RereadAll(front) + [Reread(last)];
    }
  }

  /** Reading what was written: every entry again, in order, its texts cut to
      what their length byte can say and its lines without markers. */
  lemma ParseInvertsPack(entries: seq<Logo>)
    requires PackableDb(entries)
    ensures Logos(DbBytes(entries)) == Some(RereadAll(entries))
  {
    hide EntriesBytes, EntriesAt, Packable, RereadAll;
    var b := DbBytes(entries);
    var head := MAGIC + U16Bytes(1) + U16Bytes(|entries|);
    assert b == head + EntriesBytes(entries);
    assert |head| == HEADER_LEN;
    assert b[..4] == MAGIC;
    assert b[6] == head[6] && b[7] == head[7];
    assert U16Of(b[6], b[7]) == |entries|;
    assert Stands(b, HEADER_LEN, EntriesBytes(entries));
    EntriesReadBack(b, HEADER_LEN, entries);
  }

  /** Texts short enough for their length byte. */
  predicate Short(e: Logo) {
    && (forall i :: 0 <= i < |e.patterns| ==> |Encode(e.patterns[i])| <= MAX_BYTE)
    && (forall i :: 0 <= i < |e.lines| ==> |Encode(e.lines[i])| <= MAX_BYTE)
  }

  /** Every marker that does not close has nothing before it that is not a closed one. */
  ghost predicate Clean(e: Logo) {
    forall i :: 0 <= i < |e.lines| ==> Markers.NoneDanglesAfterText(0, e.lines[i])
  }

  function DeletedAll(lines: seq<string>): (r: seq<string>)
    ensures |r| == |lines|
  {
    seq(|lines|, i requires 0 <= i < |lines| => Markers.Deleted(lines[i]))
  }

  /** An entry with exactly the closed markers of its lines deleted. */
  function Stripped(e: Logo): Logo {
    Logo(e.patterns, e.colors, DeletedAll(e.lines))
  }

  lemma TextReadsBack(text: string)
    requires |Encode(text)| <= MAX_BYTE
    ensures Lossy(Clipped(Encode(text))) == text
  {
    hide Encode, Lossy;
    DecodeInvertsEncode(text);
    LossyAgreesOnText(Encode(text));
  }

  lemma LineReadsBack(line: string)
    requires |Encode(line)| <= MAX_BYTE
    ensures LineText(Clipped(Encode(line))) == Markers.Deleted(line) <==> Markers.NoneDanglesAfterText(0, line)
  {
    hide Encode, Lossy, Clipped, Markers.Emitted, Markers.Deleted, Markers.Dangles, Markers.ClosedEndsAt;
    TextReadsBack(line);
    Markers.StripsExactly(line);
  }

  lemma PatternsReadBack(patterns: seq<string>)
    requires forall i :: 0 <= i < |patterns| ==> |Encode(patterns[i])| <= MAX_BYTE
    ensures Patterns(ClippedAll(patterns)) == patterns
  {
    hide Encode, Lossy, Clipped;
    forall i | 0 <= i < |patterns|
      ensures Lossy(ClippedAll(patterns)[i]) == patterns[i]
    {
      TextReadsBack(patterns[i]);
    }
  }

  lemma ShortReadsBack(e: Logo)
    requires Short(e)
    ensures Reread(e) == Stripped(e) <==> Clean(e)
  {
    hide Encode, Clipped, LineText, Markers.Deleted, Markers.NoneDanglesAfterText, Patterns;
    PatternsReadBack(e.patterns);
    var got, wanted := LineTexts(ClippedAll(e.lines)), DeletedAll(e.lines);
    forall i | 0 <= i < |e.lines|
      ensures got[i] == wanted[i] <==> Markers.NoneDanglesAfterText(0, e.lines[i])
    {
      LineReadsBack(e.lines[i]);
    }
    assert got == wanted <==> forall i :: 0 <= i < |e.lines| ==> got[i] == wanted[i];
  }

  function StrippedAll(entries: seq<Logo>): (r: seq<Logo>)
    ensures |r| == |entries|
  {
    seq(|entries|, i requires 0 <= i < |entries| => Stripped(entries[i]))
  }

  /** With no text cut, the database comes back with exactly its closed markers
      deleted if and only if no line has an unclosed one in the wrong place. */
  lemma StrippedDatabase(entries: seq<Logo>)
    requires PackableDb(entries) && forall i :: 0 <= i < |entries| ==> Short(entries[i])
    ensures Logos(DbBytes(entries)) == Some(StrippedAll(entries))
       <==> forall i :: 0 <= i < |entries| ==> Clean(entries[i])
  {
    hide Logos, DbBytes, Short, Reread, Stripped, Clean, Packable;
    ParseInvertsPack(entries);
    var got, wanted := RereadAll(entries), StrippedAll(entries);
    forall i | 0 <= i < |entries|
      ensures got[i] == wanted[i] <==> Clean(entries[i])
    {
      ShortReadsBack(entries[i]);
    }
    assert got == wanted <==> forall i :: 0 <= i < |entries| ==> got[i] == wanted[i];
  }

  predicate Unmarked(line: string) {
    forall k :: 0 <= k < |line| ==> !Markers.Opens(line[k..])
  }

  predicate AllUnmarked(lines: seq<string>) {
    forall i :: 0 <= i < |lines| ==> Unmarked(lines[i])
  }

  lemma UnmarkedIsClean(e: Logo)
    requires AllUnmarked(e.lines)
    ensures Clean(e) && Stripped(e) == e
  {
    hide Markers.Deleted, Markers.Opens;
    forall i | 0 <= i < |e.lines|
      ensures DeletedAll(e.lines)[i] == e.lines[i]
    {
      Markers.NothingToDelete(e.lines[i]);
    }
    assert DeletedAll(e.lines) == e.lines;
  }

  /** The database comes back entry for entry when nothing in it is cut or marked. */
  lemma LosslessDatabase(entries: seq<Logo>)
    requires PackableDb(entries)
    requires forall i :: 0 <= i < |entries| ==> Short(entries[i]) && AllUnmarked(entries[i].lines)
    ensures Logos(DbBytes(entries)) == Some(entries)
  {
    hide Logos, DbBytes, Short, AllUnmarked, Stripped, Clean, Packable;
    forall i | 0 <= i < |entries|
      ensures Clean(entries[i]) && StrippedAll(entries)[i] == entries[i]
    {
      UnmarkedIsClean(entries[i]);
    }
    StrippedDatabase(entries);
    assert StrippedAll(entries) == entries;
  }

  /** The format, on a database of one entry: the magic letters, a version and a
      count, and then the entry's size and parts, low bytes first. */
  lemma FormatOfOneEntry()
    ensures var e := Logo(["ab"], [6], ["x"]);
            PackableDb([e]) && DbBytes([e]) == [77, 84, 76, 71, 1, 0, 1, 0, 10, 0, 1, 2, 97, 98, 1, 6, 1, 0, 1, 120]
  {
    hide Payload, EntryBytes, EntriesBytes, Packable;
    var e := Logo(["ab"], [6], ["x"]);
    SampleEntry();
    EntriesOfOne(e);
    assert DbBytes([e]) == MAGIC + U16Bytes(1) + U16Bytes(1) + EntryBytes(e);
  }

  lemma EntriesOfOne(e: Logo)
    requires Packable(e)
    ensures EntriesBytes([e]) == EntryBytes(e)
  {
    hide EntryBytes, Packable;
    assert [e][..0] == [] && EntriesBytes([]) == [];
  }

  lemma SampleEntry()
    ensures var e := Logo(["ab"], [6], ["x"]);
            Packable(e) && EntryBytes(e) == [10, 0, 1, 2, 97, 98, 1, 6, 1, 0, 1, 120]
  {
    hide Payload, Countable;
    SamplePayload();
  }

  lemma SampleFields()
    ensures FieldBytes(["ab"]) == [2, 97, 98] && FieldBytes(["x"]) == [1, 120]
  {
    EncodeAscii("ab");
    EncodeAscii("x");
    hide Encode;
    assert Encode("ab") == [97, 98] && Encode("x") == [120];
    assert ["ab"][..0] == [] && ["x"][..0] == [];
  }

  lemma SamplePayload()
    ensures var e := Logo(["ab"], [6], ["x"]);
            Countable(e) && Payload(e) == [1, 2, 97, 98, 1, 6, 1, 0, 1, 120]
  {
    hide FieldBytes, Encode;
    SampleFields();
  }
}
