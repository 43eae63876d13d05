/** What the line splitter (crates/agent/src/proc_read.rs) feeds of an input
    that was written line by line: the texts that were written. */
module FedLines {
  import opened Basics
  import opened Utf8
  import opened ProcRead

  /** What stands between two newlines: a text, or bytes that are none or too many. */
  datatype Piece = Written(text: string) | Noise(bytes: seq<Byte>) {
    function Bytes(): seq<Byte> {
      match this
      case Written(text) => Encode(text)
      case Noise(bytes) => bytes
    }

    function Texts(): seq<string> {
      match this
      case Written(text) => [text]
      case Noise(_) => []
    }

    /** One line for a buffer of `capacity` bytes: a text that leaves a byte
        free, or bytes that do not, or that no text has. */
    ghost predicate OneLine(capacity: nat) {
      match this
      case Written(text) => '\n' !in text && |Encode(text)| < capacity
      case Noise(bytes) => 10 !in bytes && (|bytes| >= capacity || forall text :: Encode(text) != bytes)
    }
  }

  ghost predicate AllOneLine(pieces: seq<Piece>, capacity: nat) {
    forall i :: 0 <= i < |pieces| ==> pieces[i].OneLine(capacity)
  }

  /** The pieces, each with its newline. */
  function Lined(pieces: seq<Piece>): seq<Byte> {
    if pieces == [] then [] else pieces[0].Bytes() + [10] + Lined(pieces[1..])
  }

  function AllTexts(pieces: seq<Piece>): seq<string> {
    if pieces == [] then [] else pieces[0].Texts() + AllTexts(pieces[1..])
  }

  /** A newline byte stands for a newline character, and for nothing else. */
  lemma {:induction false} TextWithoutNewline(text: string)
    requires '\n' !in text
    ensures NoNewline(Encode(text))
  {
    if text == [] {
    } else {
      TextWithoutNewline(text[1..]);
    }
  }

  lemma PieceFeeds(piece: Piece, capacity: nat)
    requires piece.OneLine(capacity)
    ensures NoNewline(piece.Bytes()) && Line(piece.Bytes(), capacity) == piece.Texts()
  {
    hide Decode, Encode;
    match piece
    case Written(text) =>
      TextWithoutNewline(text);
      DecodeInvertsEncode(text);
    case Noise(bytes) =>
      if |bytes| < capacity && Decode(bytes).Some? {
        EncodeInvertsDecode(bytes);
        assert false;
      }
  }

  function PartsOf(pieces: seq<Piece>): (r: seq<seq<Byte>>)
    ensures |r| == |pieces|
    ensures forall i :: 0 <= i < |pieces| ==> r[i] == pieces[i].Bytes()
  {
    seq(|pieces|, i requires 0 <= i < |pieces| => pieces[i].Bytes())
  }

  lemma {:induction false} LinedSplits(pieces: seq<Piece>, last: seq<Byte>, capacity: nat)
    requires AllOneLine(pieces, capacity) && NoNewline(last)
    ensures Split(Lined(pieces) + last) == PartsOf(pieces) + [last]
  {
    hide Split, Piece.OneLine, Piece.Bytes, NoNewline;
    if pieces == [] {
      assert [] + last == last;
      UnbrokenSplits(last);
    } else {
      var first, rest := pieces[0].Bytes(), Lined(pieces[1..]) + last;
      PieceFeeds(pieces[0], capacity);
      LinedSplits(pieces[1..], last, capacity);
      Associate(first + [10], Lined(pieces[1..]), last);
      SplitFirstLine(first, rest);
      assert PartsOf(pieces) == [first] + PartsOf(pieces[1..]);
      Associate([first], PartsOf(pieces[1..]), [last]);
    }
  }

  lemma {:induction false} UnbrokenSplits(line: seq<Byte>)
    requires NoNewline(line)
    ensures Split(line) == [line]
  {
    if line == [] {
    } else {
      UnbrokenSplits(line[1..]);
      assert [line[0]] + line[1..] == line;
    }
  }

  lemma {:induction false} PartsFeedTexts(pieces: seq<Piece>, capacity: nat)
    requires AllOneLine(pieces, capacity)
    ensures Lines(PartsOf(pieces), capacity) == AllTexts(pieces)
  {
    hide Line, Piece.OneLine, Piece.Bytes, Piece.Texts;
    if pieces == [] {
    } else {
      PieceFeeds(pieces[0], capacity);
      PartsFeedTexts(pieces[1..], capacity);
      assert PartsOf(pieces)[1..] == PartsOf(pieces[1..]);
    }
  }

  /** Pieces written one a line are fed as exactly the texts among them. */
  lemma LinedIsFed(pieces: seq<Piece>, capacity: nat)
    requires AllOneLine(pieces, capacity)
    ensures Fed(Lined(pieces), capacity) == AllTexts(pieces)
  {
    hide Split, Line, Lines, Lined, PartsOf, AllTexts, Piece.OneLine;
    LinedSplits(pieces, [], capacity);
    assert Lined(pieces) + [] == Lined(pieces);
    assert (PartsOf(pieces) + [[]])[..|pieces|] == PartsOf(pieces);
    PartsFeedTexts(pieces, capacity);
  }

  /** The last newline may be left off, unless nothing follows the one before. */
  lemma UnendedIsFed(pieces: seq<Piece>, last: Piece, capacity: nat)
    requires AllOneLine(pieces + [last], capacity) && last.Bytes() != []
    ensures Fed(Lined(pieces) + last.Bytes(), capacity) == AllTexts(pieces + [last])
  {
    hide Split, Line, Lines, Lined, PartsOf, AllTexts, Piece.OneLine, Piece.Bytes;
    assert (pieces + [last])[|pieces|] == last;
    forall i | 0 <= i < |pieces|
      ensures pieces[i].OneLine(capacity)
    {
      assert (pieces + [last])[i] == pieces[i];
    }
    PieceFeeds(last, capacity);
    LinedSplits(pieces, last.Bytes(), capacity);
    PartsFeedTexts(pieces + [last], capacity);
    assert PartsOf(pieces + [last]) == PartsOf(pieces) + [last.Bytes()];
  }

  /** Whatever was written, and however it is cut into reads: the splitter feeds
      the texts, in order, and nothing else. */
  method FeedWritten(pieces: seq<Piece>, ended: bool, buf: array<Byte>, plan: seq<ReadStep>)
    returns (fed: seq<string>, failed: bool)
    requires buf.Length >= 1 && AllOneLine(pieces, buf.Length)
    requires !ended ==> pieces != [] && pieces[|pieces| - 1].Bytes() != []
    modifies buf
    ensures !failed ==> fed == AllTexts(pieces)
    ensures failed ==> fed <= AllTexts(pieces)
    ensures NeverFails(plan) ==> !failed
  {
    hide Fed, Lined, AllTexts, Piece.OneLine, Complete, NeverFails;
    var bytes := Lined(pieces);
    if ended {
      LinedIsFed(pieces, buf.Length);
    } else {
      var front, last := pieces[..|pieces| - 1], pieces[|pieces| - 1];
      assert front + [last] == pieces;
      UnendedIsFed(front, last, buf.Length);
      bytes := Lined(front) + last.Bytes();
    }
    var input := new Reader(bytes, plan);
    var any;
    any, fed := ForEachLineIn(input, buf);
    failed := input.failed;
  }
}
