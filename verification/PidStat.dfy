/** `/proc/<pid>/stat` (crates/agent/src/proc_sys.rs) and the inline process
    name it fills (crates/agent/src/proc_name.rs). */
module PidStat {
  import opened Wrappers
  import opened Utf8
  import opened Text

  // ----------------------------------------------------------------- the name

  const PROC_NAME_CAP := 32

  /** A name held inline: `len` bytes of a fixed array, zeros after them. */
  datatype ProcName = ProcName(len: nat, bytes: seq<Byte>) {
    ghost predicate Holds(s: string) {
      && |bytes| == PROC_NAME_CAP && len <= PROC_NAME_CAP
      && bytes[..len] == Encode(s)
      && forall i :: len <= i < PROC_NAME_CAP ==> bytes[i] == 0
    }
  }

  /** As many characters of a name as its array has room for. */
  function Cut(s: string): (r: string)
    ensures r <= s && |Encode(r)| <= PROC_NAME_CAP
    ensures |r| < |s| ==> |Encode(s[..|r| + 1])| > PROC_NAME_CAP
    decreases |s|
  {
    if |Encode(s)| <= PROC_NAME_CAP then s
    else
      var front := s[..|s| - 1];
      var r := Cut(front);
      assert |r| < |front| ==> s[..|r| + 1] == front[..|r| + 1];
      assert |r| == |front| ==> s[..|r| + 1] == s;
      r
  }

  /** `is_char_boundary` on the bytes of a text. */
  predicate IsBoundary(b: seq<Byte>, i: nat) {
    i == 0 || i == |b| || (i < |b| && !Continuation(b[i]))
  }

  lemma EncodeCharShape(c: char)
    ensures !Continuation(EncodeChar(c)[0])
    ensures forall i :: 0 < i < |EncodeChar(c)| ==> Continuation(EncodeChar(c)[i])
  {
  }

  /** A position in the bytes of a text is a boundary exactly when a whole number of characters ends there. */
  lemma {:induction false} BoundaryEndsPrefix(s: string, i: nat)
    requires i <= |Encode(s)|
    ensures IsBoundary(Encode(s), i) <==> exists k :: 0 <= k <= |s| && i == |Encode(s[..k])|
  {
    hide EncodeChar;
    if s == [] {
      assert s[..0] == [];
    } else {
      var c, rest := EncodeChar(s[0]), s[1..];
      EncodeCharShape(s[0]);
      assert Encode(s) == c + Encode(rest);
      forall k | 0 < k <= |s|
        ensures |Encode(s[..k])| == |c| + |Encode(rest[..k - 1])|
      {
        assert s[..k][1..] == rest[..k - 1];
      }
      assert s[..0] == [];
      if i >= |c| {
        BoundaryEndsPrefix(rest, i - |c|);
        FirstIsBoundary(rest, i - |c|);
        if IsBoundary(Encode(s), i) {
          var k :| 0 <= k <= |rest| && i - |c| == |Encode(rest[..k])|;
          assert i == |Encode(s[..k + 1])|;
        }
        if k :| 0 <= k <= |s| && i == |Encode(s[..k])| {
          assert i - |c| == |Encode(rest[..k - 1])|;
        }
      } else if i == 0 {
        assert i == |Encode(s[..0])|;
      }
    }
  }

  /** The bytes of any text begin with a lead byte. */
  lemma FirstIsBoundary(s: string, i: nat)
    ensures i == 0 && s != [] ==> Encode(s) != [] && !Continuation(Encode(s)[0])
  {
    hide EncodeChar;
    if s != [] {
      EncodeCharShape(s[0]);
    }
  }

  lemma {:induction false} PrefixIsShorter(s: string, j: nat, k: nat)
    requires j <= k <= |s|
    ensures |Encode(s[..j])| <= |Encode(s[..k])|
  {
    EncodeConcat(s[..j], s[j..k]);
    assert s[..k] == s[..j] + s[j..k];
  }

  /** Store a name: step back from the end of the array to a character boundary, and copy. */
  method NewProcName(s: string) returns (name: ProcName)
    ensures name.Holds(Cut(s))
  {
    hide Encode, Cut;
    var b := Encode(s);
    var end: nat := if |b| < PROC_NAME_CAP then |b| else PROC_NAME_CAP;
    while !IsBoundary(b, end)
      invariant end <= |b| && end <= PROC_NAME_CAP
      invariant forall i :: end < i <= |b| && i <= PROC_NAME_CAP ==> !IsBoundary(b, i)
      decreases end
    {
      end := end - 1;
    }
    LastBoundaryIsCut(s, end);
    var bytes := new Byte[PROC_NAME_CAP](_ => 0);
    var i := 0;
    while i < end
      invariant i <= end
      invariant bytes[..i] == b[..i]
      invariant forall j :: i <= j < PROC_NAME_CAP ==> bytes[j] == 0
    {
      bytes[i] := b[i];
      i := i + 1;
    }
    assert bytes[..][..end] == bytes[..end];
    name := ProcName(end, bytes[..]);
  }

  lemma PrefixBytes(s: string, r: string)
    requires r <= s
    ensures |Encode(r)| <= |Encode(s)| && Encode(s)[..|Encode(r)|] == Encode(r)
  {
    hide Encode;
    EncodeConcat(r, s[|r|..]);
    assert s == r + s[|r|..];
  }

  lemma LastBoundaryIsCut(s: string, end: nat)
    requires end <= |Encode(s)| && end <= PROC_NAME_CAP && IsBoundary(Encode(s), end)
    requires forall i :: end < i <= |Encode(s)| && i <= PROC_NAME_CAP ==> !IsBoundary(Encode(s), i)
    ensures Encode(s)[..end] == Encode(Cut(s))
  {
    hide Encode, Cut, IsBoundary;
    var r := Cut(s);
    PrefixBytes(s, r);
    CutIsBoundary(s);
    BoundaryIsWithinCut(s, end);
  }

  lemma CutIsBoundary(s: string)
    ensures |Encode(Cut(s))| <= |Encode(s)| && IsBoundary(Encode(s), |Encode(Cut(s))|)
  {
    hide Encode, Cut, IsBoundary;
    var r := Cut(s);
    PrefixBytes(s, r);
    BoundaryEndsPrefix(s, |Encode(r)|);
    assert s[..|r|] == r;
  }

  lemma BoundaryIsWithinCut(s: string, end: nat)
    requires end <= |Encode(s)| && end <= PROC_NAME_CAP && IsBoundary(Encode(s), end)
    ensures end <= |Encode(Cut(s))|
  {
    hide Encode, Cut, IsBoundary;
    var r := Cut(s);
    assert s[..|r|] == r;
    BoundaryEndsPrefix(s, end);
    var k :| 0 <= k <= |s| && end == |Encode(s[..k])|;
    if k > |r| {
      PrefixIsShorter(s, |r| + 1, k);
    } else {
      PrefixIsShorter(s, k, |r|);
    }
  }

  // ---------------------------------------------------------------- the stat line

  const UTIME_FIELD := 11
  const STARTTIME_FIELD := 6

  datatype RawProcStat = RawProcStat(pid: nat, comm: string, ticks: nat, starttime: nat, rssPages: nat)

  /** `find`. */
  function Find(s: string, c: char): (r: Option<nat>)
    ensures r.Some? ==> r.value < |s| && s[r.value] == c && c !in s[..r.value]
    ensures r == None ==> c !in s
  {
    if s == [] then None
    else if s[0] == c then Some(0)
    else
      var rest := Find(s[1..], c);
      assert s == [s[0]] + s[1..];
      assert rest.Some? ==> s[..rest.value + 1] == [s[0]] + s[1..][..rest.value];
      match rest case Some(i) => Some(i + 1) case None => None
  }

  /** `rfind`. */
  function RFind(s: string, c: char): (r: Option<nat>)
    ensures r.Some? ==> r.value < |s| && s[r.value] == c && c !in s[r.value + 1..]
    ensures r == None ==> c !in s
  {
    if s == [] then None
    else if s[|s| - 1] == c then Some(|s| - 1)
    else
      var front := s[..|s| - 1];
      var rest := RFind(front, c);
      assert s == front + [s[|s| - 1]];
      assert rest.Some? ==> s[rest.value + 1..] == front[rest.value + 1..] + [s[|s| - 1]];
      rest
  }

  function Saturated(n: nat): nat {
    if n > U64_MAX then U64_MAX else n
  }

  /** The fields after the name: every `next` and `nth` the source asks of its iterator. */
  function FromFields(pid: nat, comm: string, fields: seq<string>): Option<RawProcStat> {
    var stime := UTIME_FIELD + 1;
    var starttime := stime + 1 + STARTTIME_FIELD;
    var rss := starttime + 2;
    if |fields| <= stime || Parse(fields[UTIME_FIELD], U64_MAX) == None || Parse(fields[stime], U64_MAX) == None
    then None
    else if |fields| <= starttime || Parse(fields[starttime], U64_MAX) == None || |fields| <= rss then None
    else Some(RawProcStat(
                pid,
                comm,
                Saturated(Parse(fields[UTIME_FIELD], U64_MAX).value + Parse(fields[stime], U64_MAX).value),
                Parse(fields[starttime], U64_MAX).value,
                match Parse(fields[rss], U64_MAX) case Some(n) => n case None => 0))
  }

  function ParsePidStat(data: string): Option<RawProcStat> {
    var open, close := Find(data, '('), RFind(data, ')');
    if open == None || close == None || close.value < open.value then None
    else
      var pid := Parse(Trim(data[..open.value]), U32_MAX);
      if pid == None then None
      else FromFields(pid.value, Cut(data[open.value + 1..close.value]), Words(data[close.value + 1..], AsciiSpace))
  }

  // -------------------------------------------------------------------- round trip

  /** Fields with one space before each. */
  function Spaced(fields: seq<string>): string {
    if fields == [] then [] else [' '] + fields[0] + Spaced(fields[1..])
  }

  /** The line the kernel prints: pid, the name in parentheses, the fields, a newline. */
  function StatLine(pid: nat, name: string, fields: seq<string>): string {
    Decimal(pid) + " (" + name + ")" + (Spaced(fields) + "\n")
  }

  predicate IsField(w: string) {
    IsWord(w, AsciiSpace) && ')' !in w
  }

  lemma {:induction false} WordsOfSpaced(fields: seq<string>)
    requires forall i :: 0 <= i < |fields| ==> IsField(fields[i])
    ensures Words(Spaced(fields) + "\n", AsciiSpace) == fields
    ensures ')' !in Spaced(fields) + "\n" && AsciiSpace((Spaced(fields) + "\n")[0])
  {
    hide Words;
    if fields == [] {
      OnlyNewline();
      assert Spaced(fields) + "\n" == "\n";
    } else {
      var w, rest := fields[0], Spaced(fields[1..]) + "\n";
      WordsOfSpaced(fields[1..]);
      assert Spaced(fields) + "\n" == [' '] + (w + rest);
      FirstWord(w, rest, AsciiSpace);
      SkipsSpace(w + rest);
    }
  }

  lemma OnlyNewline()
    ensures Words("\n", AsciiSpace) == []
  {
    assert "\n"[1..] == [];
  }

  lemma SkipsSpace(s: string)
    ensures Words([' '] + s, AsciiSpace) == Words(s, AsciiSpace)
  {
    assert ([' '] + s)[1..] == s;
  }

  lemma FindIn(before: string, c: char, after: string)
    requires c !in before
    ensures Find(before + [c] + after, c) == Some(|before|)
  {
    var s := before + [c] + after;
    assert s[|before|] == c && s[..|before|] == before;
    assert forall i :: |before| < i <= |s| ==> s[..i][|before|] == c;
  }

  lemma RFindIn(before: string, c: char, after: string)
    requires c !in after
    ensures RFind(before + [c] + after, c) == Some(|before|)
  {
    var s := before + [c] + after;
    assert s[|before|] == c && s[|before| + 1..] == after;
    assert forall i :: 0 <= i <= |before| ==> s[i..][|before| - i] == c;
  }

  lemma DecimalIsClean(n: nat)
    ensures '(' !in Decimal(n) + [' '] && Trim(Decimal(n) + [' ']) == Decimal(n)
  {
    TrimUndoesPadding([], Decimal(n), [' ']);
    assert [] + Decimal(n) + [' '] == Decimal(n) + [' '];
  }

  /** The outer parentheses of a line are found, and the three parts around them. */
  lemma StatPositions(head: string, name: string, tail: string)
    requires '(' !in head && ')' !in tail
    ensures var line, close := head + ['('] + name + [')'] + tail, |head| + 1 + |name|;
            && Find(line, '(') == Some(|head|) && RFind(line, ')') == Some(close)
            && line[..|head|] == head && line[|head| + 1..close] == name && line[close + 1..] == tail
  {
    hide Find, RFind;
    OpensAt(head, name, tail);
    RFindIn(head + ['('] + name, ')', tail);
    StatSlices(head, name, tail);
  }

  lemma OpensAt(head: string, name: string, tail: string)
    requires '(' !in head
    ensures Find(head + ['('] + name + [')'] + tail, '(') == Some(|head|)
  {
    hide Find;
    FindIn(head, '(', name + [')'] + tail);
    SameLine(head + ['('], name, [')'], tail);
  }

  lemma SameLine(a: string, b: string, c: string, d: string)
    ensures a + (b + c + d) == a + b + c + d
  {
  }

  lemma StatSlices(head: string, name: string, tail: string)
    ensures var line, close := head + ['('] + name + [')'] + tail, |head| + 1 + |name|;
            line[..|head|] == head && line[|head| + 1..close] == name && line[close + 1..] == tail
  {
  }

  lemma StatLinePieces(pid: nat, name: string, fields: seq<string>)
    ensures StatLine(pid, name, fields) == (Decimal(pid) + [' ']) + ['('] + name + [')'] + (Spaced(fields) + "\n")
  {
    hide Decimal, Spaced;
  }

  lemma ParseAround(head: string, name: string, tail: string, pid: nat)
    requires '(' !in head && ')' !in tail && Parse(Trim(head), U32_MAX) == Some(pid)
    ensures ParsePidStat(head + ['('] + name + [')'] + tail) == FromFields(pid, Cut(name), Words(tail, AsciiSpace))
  {
    hide Find, RFind, Parse, Trim, Cut, Words, FromFields;
    StatPositions(head, name, tail);
  }

  /** Whatever the name holds, parentheses and spaces included, the line reads
      back as its pid, its name cut to fit, and its fields. */
  lemma ParseInvertsStatLine(pid: nat, name: string, fields: seq<string>)
    requires pid <= U32_MAX && forall i :: 0 <= i < |fields| ==> IsField(fields[i])
    ensures ParsePidStat(StatLine(pid, name, fields)) == FromFields(pid, Cut(name), fields)
  {
    hide Decimal, Trim, Words, Parse, Cut, FromFields, Spaced, StatLine, ParsePidStat, IsField;
    DecimalIsClean(pid);
    ParseInvertsDecimal(pid, U32_MAX);
    WordsOfSpaced(fields);
    StatLinePieces(pid, name, fields);
    ParseAround(Decimal(pid) + [' '], name, Spaced(fields) + "\n", pid);
  }

  /** With the four figures printed as numbers, they are what is read back. */
  lemma FiguresReadBack(pid: nat, comm: string, fields: seq<string>, utime: nat, stime: nat, starttime: nat, rss: nat)
    requires |fields| >= 22 && utime <= U64_MAX && stime <= U64_MAX && starttime <= U64_MAX && rss <= U64_MAX
    requires fields[11] == Decimal(utime) && fields[12] == Decimal(stime)
    requires fields[19] == Decimal(starttime) && fields[21] == Decimal(rss)
    ensures FromFields(pid, comm, fields) == Some(RawProcStat(
      pid, comm,
      if utime + stime <= 0xFFFF_FFFF_FFFF_FFFF then utime + stime else 0xFFFF_FFFF_FFFF_FFFF,
      starttime, rss))
  {
    hide Decimal, Parse;
    ParseInvertsDecimal(utime, U64_MAX);
    ParseInvertsDecimal(stime, U64_MAX);
    ParseInvertsDecimal(starttime, U64_MAX);
    ParseInvertsDecimal(rss, U64_MAX);
  }

  /** A line is refused exactly when it ends before its 22nd field or one of its
      times is no number of 64 bits; a resident size that is none counts as nothing. */
  lemma RefusedFields(pid: nat, comm: string, fields: seq<string>)
    ensures FromFields(pid, comm, fields) == None <==>
            |fields| < 22 || exists i :: i in {11, 12, 19} && Parse(fields[i], 0xFFFF_FFFF_FFFF_FFFF) == None
    ensures |fields| >= 22 && Parse(fields[21], 0xFFFF_FFFF_FFFF_FFFF) == None ==>
      FromFields(pid, comm, fields).Some? ==> FromFields(pid, comm, fields).value.rssPages == 0
  {
    hide Parse;
  }
}
