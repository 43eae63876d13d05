/** The panel size, told over standard input (crates/agent/src/stdin_watch.rs):
    `size <cols> <lines>` lines, read through the line splitter. */
module StdinWatch {
  import opened Basics
  import opened Wrappers
  import opened Utf8
  import opened Text
  import opened ProcRead

  const STDIN_WATCH_BUF := 64

  type U16 = n: int | 0 <= n <= U16_MAX
  type U32 = n: int | 0 <= n <= U32_MAX

  /** Two `u16`s in one `u32`: `cols << 16 | lines`, with the shift and the mask
      written as multiplication and division by 2^16. */
  function Pack(cols: U16, lines: U16): U32 {
    cols * 0x1_0000 + lines
  }

  function Unpack(v: U32): Option<(nat, nat)> {
    if v == 0 then None else Some((v / 0x1_0000, v % 0x1_0000))
  }

  /** Only the all-zero size is lost, which is how "not said yet" is spelled. */
  lemma UnpackInvertsPack(cols: U16, lines: U16)
    ensures Unpack(Pack(cols, lines)) == if cols == 0 && lines == 0 then None else Some((cols, lines))
  {
    assert Pack(cols, lines) / 0x1_0000 == cols;
  }

  /** The size the client last said, shared with the watcher thread. */
  class PanelSize {
    var packed: U32

    constructor ()
      ensures Said() == None
    {
      packed := 0;
    }

    function Said(): Option<(nat, nat)>
      reads this
    {
      Unpack(packed)
    }

    method Get() returns (r: Option<(nat, nat)>)
      ensures r == Said()
    {
      r := if packed != 0 then Some((packed / 0x1_0000, packed % 0x1_0000)) else None;
    }

    method Set(cols: U16, lines: U16)
      modifies this
      ensures Said() == if cols == 0 && lines == 0 then None else Some((cols, lines))
    {
      UnpackInvertsPack(cols, lines);
      packed := Pack(cols, lines);
    }
  }

  function SizeText(cols: U16, lines: U16): string {
    "size" + [' '] + Decimal(cols) + [' '] + Decimal(lines)
  }

  function SizeLine(cols: U16, lines: U16): string {
    SizeText(cols, lines) + "\n"
  }

  /** The size a line states; a zero, a number past `u16`, or any other wording states nothing. */
  function ParseSizeText(line: string): Option<(U16, U16)> {
    var words := Words(line, AsciiSpace);
    if |words| != 3 || words[0] != "size" then None
    else match (Parse(words[1], U16_MAX), Parse(words[2], U16_MAX))
      case (Some(cols), Some(lines)) => if cols > 0 && lines > 0 then Some((cols, lines)) else None
      case _ => None
  }

  function ParseSizeLine(line: seq<Byte>): Option<(U16, U16)> {
    match Decode(line)
    case Some(s) => ParseSizeText(s)
    case None => None
  }

  // ----------------------------------------------------------------- round trip

  lemma SizeTextWords(cols: U16, lines: U16, tail: string)
    requires tail == [] || tail == "\n"
    ensures Words(SizeText(cols, lines) + tail, AsciiSpace) == ["size", Decimal(cols), Decimal(lines)]
  {
    var c, l := Decimal(cols), Decimal(lines);
    hide Decimal;
    assert Words(tail, AsciiSpace) == [] by {
      if tail != [] {
        assert tail[1..] == [];
      }
    }
    ThreeWords("size", c, l, tail, AsciiSpace);
  }

  /** The agent reads back the size the client wrote, with or without the newline. */
  lemma ParseInvertsSizeText(cols: U16, lines: U16, tail: string)
    requires tail == [] || tail == "\n"
    ensures ParseSizeLine(Encode(SizeText(cols, lines) + tail))
         == if cols > 0 && lines > 0 then Some((cols, lines)) else None
  {
    hide Decode, Encode;
    DecodeInvertsEncode(SizeText(cols, lines) + tail);
    SizeTextWords(cols, lines, tail);
    ParseInvertsDecimal(cols, U16_MAX);
    ParseInvertsDecimal(lines, U16_MAX);
  }

  // ------------------------------------------------------------- the whole watch

  /** What the panel holds after these lines, given what it held before them. */
  function LastSize(lines: seq<string>, before: Option<(nat, nat)>): Option<(nat, nat)> {
    if lines == [] then before
    else match ParseSizeText(lines[|lines| - 1])
      case Some(size) => Some((size.0, size.1))
      case None => LastSize(lines[..|lines| - 1], before)
  }

  /** The same, said of the raw newline-split parts: the last one that is shorter
      than the buffer and states a size. */
  function LastStated(parts: seq<seq<Byte>>): Option<(nat, nat)> {
    if parts == [] then None
    else
      var part := parts[|parts| - 1];
      if |part| < STDIN_WATCH_BUF && ParseSizeLine(part).Some?
      then Some((ParseSizeLine(part).value.0, ParseSizeLine(part).value.1))
      else LastStated(parts[..|parts| - 1])
  }

  lemma LastSizeSnoc(lines: seq<string>, part: seq<Byte>)
    ensures LastSize(lines + Line(part, STDIN_WATCH_BUF), None)
         == if |part| < STDIN_WATCH_BUF && ParseSizeLine(part).Some?
            then Some((ParseSizeLine(part).value.0, ParseSizeLine(part).value.1))
            else LastSize(lines, None)
  {
    hide ParseSizeText, Decode;
    var line := Line(part, STDIN_WATCH_BUF);
    if line == [] {
      assert lines + line == lines;
    } else {
      assert (lines + line)[..|lines|] == lines;
    }
  }

  lemma {:induction false} LastSizeIsLastStated(parts: seq<seq<Byte>>)
    ensures LastSize(Lines(parts, STDIN_WATCH_BUF), None) == LastStated(parts)
  {
    hide ParseSizeLine, Line;
    if parts == [] {
    } else {
      LastSizeIsLastStated(parts[..|parts| - 1]);
      LinesSnoc(parts, STDIN_WATCH_BUF);
      LastSizeSnoc(Lines(parts[..|parts| - 1], STDIN_WATCH_BUF), parts[|parts| - 1]);
      hide Lines, LastSize;
    }
  }

  /** Follow a client until it hangs up: the panel takes on each size in turn. */
  method ReadCommands(input: Reader, size: PanelSize)
    requires input.Valid() && input.pos == 0 && !input.failed
    modifies input, size
    ensures input.Valid()
    ensures size.Said() == LastSize(
      if input.failed then Complete(input.data[..input.pos], STDIN_WATCH_BUF) else Fed(input.data, STDIN_WATCH_BUF),
      old(size.Said()))
    ensures !input.failed && old(size.Said()) == None ==> size.Said() == LastStated(Parts(input.data))
    ensures old(NeverFails(input.plan)) ==> !input.failed
  {
    hide ParseSizeText, Parts, Lines, Complete, Unpack;
    var buf := new Byte[STDIN_WATCH_BUF];
    var _, fed := ForEachLineIn(input, buf);
    var i := 0;
    while i < |fed|
      modifies size
      invariant i <= |fed|
      invariant size.Said() == LastSize(fed[..i], old(size.Said()))
    {
      assert fed[..i + 1][..i] == fed[..i];
      var stated := ParseSizeText(fed[i]);
      if stated.Some? {
        SizesArePositive(fed[i]);
        size.Set(stated.value.0, stated.value.1);
      }
      i := i + 1;
    }
    assert fed[..|fed|] == fed;
    LastSizeIsLastStated(Parts(input.data));
  }

  lemma SizesArePositive(line: string)
    requires ParseSizeText(line).Some?
    ensures ParseSizeText(line).value.0 > 0 && ParseSizeText(line).value.1 > 0
  {
  }

  // --------------------------------------------------- the client and the agent

  datatype Size = Size(cols: U16, lines: U16)

  /** Everything the client writes: one line a size. */
  function ClientText(sizes: seq<Size>): string {
    if sizes == [] then [] else SizeLine(sizes[0].cols, sizes[0].lines) + ClientText(sizes[1..])
  }

  function Texts(sizes: seq<Size>): (r: seq<seq<Byte>>)
    ensures |r| == |sizes|
    ensures forall i :: 0 <= i < |sizes| ==> r[i] == Encode(SizeText(sizes[i].cols, sizes[i].lines))
  {
    seq(|sizes|, i requires 0 <= i < |sizes| => Encode(SizeText(sizes[i].cols, sizes[i].lines)))
  }

  lemma SizeTextBytes(cols: U16, lines: U16)
    ensures NoNewline(Encode(SizeText(cols, lines)))
    ensures 0 < |Encode(SizeText(cols, lines))| < STDIN_WATCH_BUF
    ensures Encode(SizeLine(cols, lines)) == Encode(SizeText(cols, lines)) + [NL]
  {
    var text := SizeText(cols, lines);
    assert Power10(5) == 100000;
    DecimalLength(cols, 5);
    DecimalLength(lines, 5);
    hide Encode, Decimal;
    EncodeAscii(text);
    EncodeConcat(text, "\n");
    EncodeAscii("\n");
  }

  lemma TextsCons(sizes: seq<Size>)
    requires sizes != []
    ensures Texts(sizes) == [Encode(SizeText(sizes[0].cols, sizes[0].lines))] + Texts(sizes[1..])
  {
    hide Encode, SizeText;
  }

  lemma {:induction false} ClientTextSplits(sizes: seq<Size>)
    ensures Split(Encode(ClientText(sizes))) == Texts(sizes) + [[]]
  {
    hide SizeText, SizeLine, Texts;
    if sizes == [] {
    } else {
      hide Encode, Split;
      var cols, lines := sizes[0].cols, sizes[0].lines;
      var first, rest := Encode(SizeText(cols, lines)), Encode(ClientText(sizes[1..]));
      ClientTextSplits(sizes[1..]);
      SizeTextBytes(cols, lines);
      EncodeConcat(SizeLine(cols, lines), ClientText(sizes[1..]));
      SplitFirstLine(first, rest);
      TextsCons(sizes);
      Associate([first], Texts(sizes[1..]), [[]]);
    }
  }

  lemma PartsOfClientText(sizes: seq<Size>)
    ensures Parts(Encode(ClientText(sizes))) == Texts(sizes)
  {
    hide Encode, Split, ClientText, Texts;
    ClientTextSplits(sizes);
    assert (Texts(sizes) + [[]])[..|Texts(sizes)|] == Texts(sizes);
  }

  lemma LastPartStates(parts: seq<seq<Byte>>, size: (U16, U16))
    requires parts != [] && |parts[|parts| - 1]| < STDIN_WATCH_BUF && ParseSizeLine(parts[|parts| - 1]) == Some(size)
    ensures LastStated(parts) == Some((size.0, size.1))
  {
    hide ParseSizeLine;
  }

  /** Whatever sizes a client writes, what the agent's panel is left holding is
      the last one: `ReadCommands` ends in `LastStated` of the parts. */
  lemma ClientSizesReachThePanel(sizes: seq<Size>)
    requires forall i :: 0 <= i < |sizes| ==> sizes[i].cols > 0 && sizes[i].lines > 0
    ensures LastStated(Parts(Encode(ClientText(sizes))))
         == if sizes == [] then None else Some((sizes[|sizes| - 1].cols, sizes[|sizes| - 1].lines))
  {
    hide Encode, Parts, SizeText, ParseSizeLine, ClientText, Texts;
    PartsOfClientText(sizes);
    if sizes != [] {
      var last := sizes[|sizes| - 1];
      SizeTextBytes(last.cols, last.lines);
      ParseInvertsSizeText(last.cols, last.lines, []);
      assert SizeText(last.cols, last.lines) + [] == SizeText(last.cols, last.lines);
      LastPartStates(Texts(sizes), (last.cols, last.lines));
    }
  }

  /** A client that writes these sizes, read by the agent however the pipe cuts
      what it writes: once the agent has read to the end, the panel holds the
      last size, or still none. */
  method WatchClient(sizes: seq<Size>, plan: seq<ReadStep>) returns (panel: PanelSize, unread: bool)
    requires forall i :: 0 <= i < |sizes| ==> sizes[i].cols > 0 && sizes[i].lines > 0
    ensures !unread ==>
      panel.Said() == if sizes == [] then None else Some((sizes[|sizes| - 1].cols, sizes[|sizes| - 1].lines))
    ensures NeverFails(plan) ==> !unread
  {
    hide Encode, ClientText, LastStated, Parts, NeverFails, LastSize, Complete, Fed;
    panel := new PanelSize();
    var input := new Reader(Encode(ClientText(sizes)), plan);
    ReadCommands(input, panel);
    unread := input.failed;
    ClientSizesReachThePanel(sizes);
  }

  /** A line states a size only in these three words, of numbers from 1 to 65535. */
  lemma OtherWordingStatesNothing(line: string)
    requires ParseSizeText(line).Some?
    ensures exists cols, lines ::
      && Words(line, AsciiSpace) == ["size", cols, lines]
      && Parse(cols, 65535) == Some(ParseSizeText(line).value.0) && ParseSizeText(line).value.0 > 0
      && Parse(lines, 65535) == Some(ParseSizeText(line).value.1) && ParseSizeText(line).value.1 > 0
  {
    hide Words, Parse;
    var words := Words(line, AsciiSpace);
    assert words == ["size", words[1], words[2]];
  }
}
