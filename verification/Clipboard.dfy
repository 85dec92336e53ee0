/**
 The clipboard format: how kit/ChildSession.cpp writes the entries of a clipboard (with the helpers of
 common/Util.hpp), how ClipboardData::read of common/Clipboard.hpp reads them back, and when reading
 gives back what was written.

 The input stream is modelled with its position and its eof and fail bits.
*/
module Clipboards {

  import opened Arithmetic
  import opened Wrappers

  const NEWLINE: byte := 10
  const TWO_TO_THE_63: nat := 0x8000_0000_0000_0000

  // ----- the input stream -------------------------------------------------------------------

  /** What is left to read, and the state bits. */
  datatype Stream = Stream(rest: seq<byte>, eof: bool, fail: bool) {
    predicate Good() {
      !eof && !fail
    }
  }

  /** The number of bytes before the first newline, or all. */
  function LineLength(s: seq<byte>): (n: nat)
    ensures n <= |s| && NEWLINE !in s[..n] && (n < |s| ==> s[n] == NEWLINE)
  {
    if s == [] || s[0] == NEWLINE then 0
    else
      assert s == [s[0]] + s[1..];
      1 + LineLength(s[1..])
  }

  lemma {:induction false} LineIs(s: seq<byte>, n: nat)
    requires n <= |s| && NEWLINE !in s[..n] && (n < |s| ==> s[n] == NEWLINE)
    ensures LineLength(s) == n
  {
    if n > 0 {
      assert s[0] == s[..n][0] && s[1..][..n - 1] == s[..n][1..];
      LineIs(s[1..], n - 1);
    }
  }

  /** std::getline into an empty string: a stream that is not good just fails; the end of the data
      sets eof, and fail too if nothing at all could be taken. */
  function NextLine(s: Stream): (seq<byte>, Stream) {
    if !s.Good() then ([], s.(fail := true))
    else
      var n := LineLength(s.rest);
      if n < |s.rest| then (s.rest[..n], s.(rest := s.rest[n + 1..]))
      else (s.rest, Stream([], true, n == 0))
  }

  /** istream::read */
  function ReadBytes(s: Stream, len: nat): (seq<byte>, Stream) {
    if !s.Good() then ([], s.(fail := true))
    else if len <= |s.rest| then (s.rest[..len], s.(rest := s.rest[len..]))
    else (s.rest, Stream([], true, true))
  }

  class InputStream {
    var data: seq<byte>
    var pos: nat
    var eof: bool
    var fail: bool

    ghost predicate Valid()
      reads this
    {
      pos <= |data|
    }

    function State(): Stream
      requires Valid()
      reads this
    {
      Stream(data[pos..], eof, fail)
    }

    constructor (buffer: seq<byte>)
      ensures Valid() && State() == Stream(buffer, false, false)
    {
      data, pos, eof, fail := buffer, 0, false, false;
    }

    /** Takes the bytes before the next newline. */
    method TakeLine() returns (line: seq<byte>)
      requires Valid()
      modifies this`pos
      ensures Valid() && pos == old(pos) + LineLength(old(data[pos..])) && line == data[old(pos)..pos]
    {
      line := [];
      ghost var rest, start := data[pos..], pos;
      while pos < |data| && data[pos] != NEWLINE
        invariant start <= pos <= |data| && line == data[start..pos] && NEWLINE !in line
      {
        line := line + [data[pos]];
        pos := pos + 1;
      }
      assert rest[..pos - start] == line;
      LineIs(rest, pos - start);
    }

    method GetLine() returns (line: seq<byte>)
      requires Valid()
      modifies this`pos, this`eof, this`fail
      ensures Valid() && line == NextLine(old(State())).0 && State() == NextLine(old(State())).1
    {
      hide LineLength;
      if eof || fail {
        fail := true;
        return [];
      }
      ghost var rest, start := data[pos..], pos;
      line := TakeLine();
      assert line == rest[..pos - start];
      if pos < |data| {
        pos := pos + 1;
        assert data[pos..] == rest[pos - start..];
      } else {
        eof, fail := true, line == [];
        assert rest[..pos - start] == rest && data[pos..] == [];
      }
    }

    method Read(len: nat) returns (bytes: seq<byte>)
      requires Valid()
      modifies this`pos, this`eof, this`fail
      ensures Valid() && (bytes, State()) == ReadBytes(old(State()), len)
    {
      if eof || fail {
        fail := true;
        return [];
      }
      ghost var rest := data[pos..];
      if pos + len <= |data| {
        assert rest[..len] == data[pos..pos + len] && rest[len..] == data[pos + len..];
        bytes := data[pos..pos + len];
        pos := pos + len;
      } else {
        bytes := data[pos..];
        pos, eof, fail := |data|, true, true;
        assert data[pos..] == [];
      }
    }
  }

  // ----- numbers ----------------------------------------------------------------------------

  function HexDigit(d: nat): byte
    requires d < 16
  {
    if d < 10 then 48 + d else 97 + d - 10
  }

  /** Printed with the x format: lower case, no leading zeros. */
  function Hex(n: nat): (s: seq<byte>)
    ensures s != []
  {
    if n < 16 then [HexDigit(n)] else Hex(n / 16) + [HexDigit(n % 16)]
  }

  /** The value of a hexadecimal digit of either case. */
  function DigitValue(c: byte): (d: Option<nat>)
    ensures d.Some? ==> d.value < 16
  {
    if 48 <= c <= 57 then Some(c - 48)
    else if 97 <= c <= 102 then Some(c - 97 + 10)
    else if 65 <= c <= 70 then Some(c - 65 + 10)
    else None
  }

  /** The number that the digits at the start of `s` denote, after the digits with value `acc`. */
  function Digits(s: seq<byte>, acc: nat): nat
    decreases |s|
  {
    if s == [] || DigitValue(s[0]).None? then acc
    else Digits(s[1..], acc * 16 + DigitValue(s[0]).value)
  }

  predicate IsSpace(c: byte) {
    c == 32 || 9 <= c <= 13
  }

  function SkipSpace(s: seq<byte>): seq<byte>
    decreases |s|
  {
    if s != [] && IsSpace(s[0]) then SkipSpace(s[1..]) else s
  }

  /** Without a 0x that is followed by a digit. */
  function SkipPrefix(s: seq<byte>): seq<byte> {
    if |s| > 2 && s[0] == 48 && (s[1] == 120 || s[1] == 88) && DigitValue(s[2]).Some? then s[2..] else s
  }

  function Clamp(n: int): int {
    if n < 0 - TWO_TO_THE_63 then 0 - TWO_TO_THE_63 else if n >= TWO_TO_THE_63 then TWO_TO_THE_63 - 1 else n
  }

  /** strtoll with base 16 */
  function StrToLL(s: seq<byte>): int {
    var t := SkipSpace(s);
    if t != [] && t[0] == 45 then Clamp(0 - Digits(SkipPrefix(t[1..]), 0))
    else if t != [] && t[0] == 43 then Clamp(Digits(SkipPrefix(t[1..]), 0))
    else Clamp(Digits(SkipPrefix(t), 0))
  }

  /** ... stored in an uint64_t */
  function ParseLength(s: seq<byte>): nat {
    StrToLL(s) % TWO_TO_THE_64
  }

  lemma {:induction false} DigitsSnoc(s: seq<byte>, acc: nat, c: byte)
    requires forall i :: 0 <= i < |s| ==> DigitValue(s[i]).Some?
    requires DigitValue(c).Some?
    ensures Digits(s + [c], acc) == Digits(s, acc) * 16 + DigitValue(c).value
    decreases |s|
  {
    if s == [] {
      assert ([] + [c])[1..] == [];
    } else {
      var next := acc * 16 + DigitValue(s[0]).value;
      DigitsSnoc(s[1..], next, c);
      assert (s + [c])[1..] == s[1..] + [c];
    }
  }

  lemma {:induction false} HexMeans(n: nat)
    ensures forall i :: 0 <= i < |Hex(n)| ==> DigitValue(Hex(n)[i]).Some?
    ensures Digits(Hex(n), 0) == n
  {
    if n < 16 {
      assert Hex(n)[1..] == [];
    } else {
      HexMeans(n / 16);
      DigitsSnoc(Hex(n / 16), 0, HexDigit(n % 16));
    }
  }

  /** A printed length is read back, if it fits 63 bits; a larger one is read as the largest that does. */
  lemma {:induction false} LengthRoundTrip(n: nat)
    ensures ParseLength(Hex(n)) == if n < 0x8000_0000_0000_0000 then n else 0x7fff_ffff_ffff_ffff
    ensures NEWLINE !in Hex(n)
  {
    HexMeans(n);
    var s := Hex(n);
    assert DigitValue(s[0]).Some?;
    assert SkipSpace(s) == s && SkipPrefix(s) == s;
    assert StrToLL(s) == Clamp(n);
  }

  /** What else is read as a length: upper case, space, sign and prefix in front, anything behind; a negative
      number wraps. */
  lemma {:induction false} LengthsRead()
    ensures ParseLength([49, 65]) == 26                             // "1A"
    ensures ParseLength([32, 43, 48, 120, 49, 97, 13]) == 26        // " +0x1a\r"
    ensures ParseLength([45, 49]) == 0xffff_ffff_ffff_ffff          // "-1"
    ensures ParseLength([103]) == 0                                 // "g"
  {
    assert Digits([49, 65], 0) == 26;
    assert SkipSpace([32, 43, 48, 120, 49, 97, 13]) == [43, 48, 120, 49, 97, 13];
    assert [43, 48, 120, 49, 97, 13][1..] == [48, 120, 49, 97, 13];
    assert SkipPrefix([48, 120, 49, 97, 13]) == [49, 97, 13];
    assert Digits([49, 97, 13], 0) == 26;
    assert [45, 49][1..] == [49] && Digits([49], 0) == 1;
    assert Digits([103], 0) == 0;
  }

  // ----- writing ----------------------------------------------------------------------------

  /** An entry as the document hands it out: a C string, a pointer that may be null, and a size. */
  datatype Item = Item(mime: seq<byte>, stream: Option<seq<byte>>, size: nat)

  /** What the types promise: no zero byte inside a C string, `size` bytes behind the pointer. */
  ghost predicate ValidItem(e: Item) {
    0 !in e.mime && e.size < TWO_TO_THE_63 && (e.stream.Some? ==> |e.stream.value| == e.size)
  }

  function BytesOf(e: Item): seq<byte> {
    match e.stream
    case None => []
    case Some(d) => d
  }

  const HEADER: seq<byte> :=
    [99, 108, 105, 112, 98, 111, 97, 114, 100, 99, 111, 110, 116, 101, 110, 116, 58, 32, // "clipboardcontent: "
     99, 111, 110, 116, 101, 110, 116, NEWLINE]                                          // "content\n"

  function ItemBytes(e: Item): seq<byte> {
    e.mime + [NEWLINE] + Hex(e.size) + [NEWLINE] + BytesOf(e) + [NEWLINE]
  }

  function Written(items: seq<Item>): seq<byte> {
    if items == [] then [] else ItemBytes(items[0]) + Written(items[1..])
  }

  /** Util::vectorAppend: a null pointer appends nothing. */
  function VectorAppend(v: seq<byte>, data: Option<seq<byte>>): seq<byte> {
    match data
    case None => v
    case Some(d) => v + d
  }

  lemma {:induction false} WrittenSnoc(items: seq<Item>, e: Item)
    ensures Written(items + [e]) == Written(items) + ItemBytes(e)
    decreases |items|
  {
    hide ItemBytes;
    if items == [] {
      assert ([] + [e])[1..] == [];
    } else {
      WrittenSnoc(items[1..], e);
      assert (items + [e])[1..] == items[1..] + [e];
      Regroup(ItemBytes(items[0]), Written(items[1..]), ItemBytes(e));
    }
  }

  lemma {:induction false} Regroup(a: seq<byte>, b: seq<byte>, c: seq<byte>)
    ensures (a + b) + c == a + (b + c)
  {
  }

  /** The body of the serializing loop. */
  method AppendItem(was: seq<byte>, e: Item) returns (output: seq<byte>)
    ensures output == was + ItemBytes(e)
  {
    hide Hex;
    output := VectorAppend(was, Some(e.mime));
    output := VectorAppend(output, Some([NEWLINE]));
    ghost var line := e.mime + [NEWLINE];
    Regroup(was, e.mime, [NEWLINE]);
    output := VectorAppend(output, Some(Hex(e.size)));
    Regroup(was, line, Hex(e.size));
    output := VectorAppend(output, Some([NEWLINE]));
    Regroup(was, line + Hex(e.size), [NEWLINE]);
    output := VectorAppend(output, e.stream);
    Regroup(was, line + Hex(e.size) + [NEWLINE], BytesOf(e));
    output := VectorAppend(output, Some([NEWLINE]));
    Regroup(was, line + Hex(e.size) + [NEWLINE] + BytesOf(e), [NEWLINE]);
  }

  /** One entry, byte by byte: the length 26 is written as 1a. */
  lemma {:induction false} WrittenExample(data: seq<byte>)
    requires |data| == 26
    ensures Written([Item([97, 47, 98], Some(data), 26)]) == [97, 47, 98, 10, 49, 97, 10] + data + [10]
  {
    var e := Item([97, 47, 98], Some(data), 26);
    assert Hex(1) == [49] && Hex(26) == [49, 97];
    assert [e][1..] == [];
    assert [97, 47, 98] + [NEWLINE] + [49, 97] + [NEWLINE] == [97, 47, 98, 10, 49, 97, 10];
  }

  /** The serializing loop of getClipboard. */
  method GetClipboard(items: seq<Item>) returns (output: seq<byte>)
    ensures output == HEADER + Written(items)
  {
    hide ItemBytes;
    output := VectorAppend([], Some(HEADER));
    for i := 0 to |items|
      invariant output == HEADER + Written(items[..i])
    {
      output := AppendItem(output, items[i]);
      WrittenSnoc(items[..i], items[i]);
      assert items[..i + 1] == items[..i] + [items[i]];
      Regroup(HEADER, Written(items[..i]), ItemBytes(items[i]));
    }
    assert items[..|items|] == items;
  }

  // ----- reading ----------------------------------------------------------------------------

  datatype Entry = Entry(mime: seq<byte>, content: seq<byte>)

  /** The entries read, and whether reading ended with an exception. */
  datatype Outcome = Outcome(entries: seq<Entry>, thrown: bool)

  ghost function Measure(s: Stream): nat {
    |s.rest| + if s.eof then 0 else 1
  }

  /** Whatever is read, the stream gets shorter or comes to its end. */
  lemma {:induction false} NextLineShortens(s: Stream)
    ensures var t := NextLine(s).1;
            && |t.rest| <= |s.rest| && (s.eof ==> t.eof) && (s.Good() ==> Measure(t) < Measure(s))
            && ((s.fail ==> s.eof) ==> (t.fail ==> t.eof))
  {
  }

  /** One pass through the loop of ClipboardData::read.  None: the pass throws. */
  function ReadOne(s: Stream): (Option<seq<Entry>>, Stream) {
    var (mime, s1) := NextLine(s);
    var (hexLen, s2) := NextLine(s1);
    if mime != [] && hexLen != [] && !s2.fail then
      var len := ParseLength(hexLen);
      if len >= TWO_TO_THE_63 then (None, s2)   // no string is that long
      else
        var (content, s3) := ReadBytes(s2, len);
        if s3.fail then (None, s3) else (Some([Entry(mime, content)]), NextLine(s3).1)
    else (Some([]), s2)
  }

  lemma {:induction false} ReadOneShortens(s: Stream)
    requires !s.eof && !s.fail
    ensures var t := ReadOne(s).1; Measure(t) < Measure(s) && (t.fail ==> t.eof)
  {
    var s1 := NextLine(s).1;
    NextLineShortens(s);
    NextLineShortens(s1);
    var s2 := NextLine(s1).1;
    NextLineShortens(ReadBytes(s2, ParseLength(NextLine(s1).0)).1);
  }

  function ReadAll(s: Stream): Outcome
    requires s.fail ==> s.eof
    decreases Measure(s)
  {
    if s.eof then Outcome([], false)
    else
      var (one, t) := ReadOne(s);
      ReadOneShortens(s);
      if one.None? then Outcome([], true)
      else
        var more := ReadAll(t);
        Outcome(one.value + more.entries, more.thrown)
  }

  lemma {:induction false} ReadAllUnfolds(s: Stream)
    requires !s.eof && !s.fail
    ensures var (one, t) := ReadOne(s);
            && (t.fail ==> t.eof) && Measure(t) < Measure(s)
            && ReadAll(s) == if one.None? then Outcome([], true)
                             else Outcome(one.value + ReadAll(t).entries, ReadAll(t).thrown)
  {
    hide ReadOne;
    ReadOneShortens(s);
  }

  lemma {:induction false} ReadAtEnd(s: Stream)
    requires s.fail ==> s.eof
    ensures s.eof ==> ReadAll(s) == Outcome([], false)
  {
  }

  ghost function Pairs(mimeTypes: seq<seq<byte>>, content: seq<seq<byte>>): (r: seq<Entry>)
    requires |mimeTypes| == |content|
    ensures |r| == |mimeTypes|
  {
    seq(|mimeTypes|, i requires 0 <= i < |mimeTypes| => Entry(mimeTypes[i], content[i]))
  }

  lemma {:induction false} PairsSnoc(mimeTypes: seq<seq<byte>>, content: seq<seq<byte>>, mime: seq<byte>, c: seq<byte>)
    requires |mimeTypes| == |content|
    ensures Pairs(mimeTypes + [mime], content + [c]) == Pairs(mimeTypes, content) + [Entry(mime, c)]
  {
  }

  class ClipboardData {
    var mimeTypes: seq<seq<byte>>
    var content: seq<seq<byte>>

    ghost predicate Valid()
      reads this
    {
      |mimeTypes| == |content|
    }

    ghost function Entries(): seq<Entry>
      requires Valid()
      reads this
    {
      Pairs(mimeTypes, content)
    }

    constructor ()
      ensures Valid() && Entries() == []
    {
      mimeTypes, content := [], [];
    }

    /** One pass through the loop. */
    method ReadEntry(inStream: InputStream) returns (thrown: bool)
      requires Valid() && inStream.Valid()
      modifies this, inStream`pos, inStream`eof, inStream`fail
      ensures Valid() && inStream.Valid()
      ensures var (one, t) := ReadOne(old(inStream.State()));
              && inStream.State() == t && (thrown <==> one.None?)
              && Entries() == old(Entries()) + if one.None? then [] else one.value
    {
      hide NextLine, ReadBytes, ParseLength, Pairs;
      thrown := false;
      var mime := inStream.GetLine();
      var hexLen := inStream.GetLine();
      if mime != [] && hexLen != [] && !inStream.fail {
        var len := ParseLength(hexLen);
        if len >= TWO_TO_THE_63 {
          return true;
        }
        var bytes := inStream.Read(len);
        if inStream.fail {
          return true;
        }
        var newline := inStream.GetLine();
        if mime != [] {
          PairsSnoc(mimeTypes, content, mime, bytes);
          mimeTypes := mimeTypes + [mime];
          content := content + [bytes];
        }
      }
    }

    method Read(inStream: InputStream) returns (thrown: bool)
      requires Valid() && inStream.Valid() && (inStream.fail ==> inStream.eof)
      modifies this, inStream`pos, inStream`eof, inStream`fail
      ensures Valid() && inStream.Valid()
      ensures var r := ReadAll(old(inStream.State()));
              thrown == r.thrown && Entries() == old(Entries()) + r.entries
    {
      hide ReadOne, ReadAll, Measure, Pairs;
      thrown := false;
      ghost var s := inStream.State();
      while !inStream.eof
        invariant !thrown && Valid() && inStream.Valid() && (inStream.fail ==> inStream.eof)
        invariant ReadAll(s).thrown == ReadAll(inStream.State()).thrown
        invariant old(Entries()) + ReadAll(s).entries == Entries() + ReadAll(inStream.State()).entries
        decreases Measure(inStream.State())
      {
        ReadAllUnfolds(inStream.State());
        thrown := ReadEntry(inStream);
        if thrown {
          return;
        }
      }
      ReadAtEnd(inStream.State());
    }
  }

  /** setClipboard up to the end of reading: skips the command line. */
  method SetClipboard(buffer: seq<byte>) returns (data: ClipboardData, thrown: bool)
    ensures data.Valid() && fresh(data)
    ensures var r := Parsed(buffer); thrown == r.thrown && data.Entries() == r.entries
  {
    data := new ClipboardData();
    var stream := new InputStream(buffer);
    var command := stream.GetLine();
    NextLineShortens(Stream(buffer, false, false));
    thrown := data.Read(stream);
  }

  /** What is read from a message, after its first line. */
  ghost function Parsed(buffer: seq<byte>): Outcome {
    NextLineShortens(Stream(buffer, false, false));
    ReadAll(NextLine(Stream(buffer, false, false)).1)
  }

  // ----- reading what was written -----------------------------------------------------------

  function EntryOf(e: Item): Entry {
    Entry(e.mime, BytesOf(e))
  }

  function EntriesOf(items: seq<Item>): (r: seq<Entry>)
    ensures |r| == |items|
  {
    seq(|items|, i requires 0 <= i < |items| => EntryOf(items[i]))
  }

  /** The guard a writer could check: a mime type, on one line, and a size that is that of the data. */
  predicate Sendable(e: Item) {
    e.mime != [] && NEWLINE !in e.mime && (e.stream.None? ==> e.size == 0)
  }

  lemma {:induction false} LineOf(line: seq<byte>, rest: seq<byte>)
    requires NEWLINE !in line
    ensures LineLength(line + [NEWLINE] + rest) == |line|
  {
    var s := line + [NEWLINE] + rest;
    assert s[..|line|] == line;
    LineIs(s, |line|);
  }

  lemma {:induction false} NextLineOf(line: seq<byte>, rest: seq<byte>)
    requires NEWLINE !in line
    ensures NextLine(Stream(line + [NEWLINE] + rest, false, false)) == (line, Stream(rest, false, false))
  {
    LineOf(line, rest);
    var s := line + [NEWLINE] + rest;
    assert s[..|line|] == line && s[|line| + 1..] == rest;
  }

  /** The two lines in front of the data. */
  lemma {:induction false} ReadsHead(e: Item, rest: seq<byte>)
    requires ValidItem(e) && NEWLINE !in e.mime
    ensures var (mime, s1) := NextLine(Stream(ItemBytes(e) + rest, false, false));
            var (hexLen, s2) := NextLine(s1);
            && mime == e.mime && hexLen != [] && ParseLength(hexLen) == e.size
            && s2 == Stream(BytesOf(e) + [NEWLINE] + rest, false, false)
  {
    LengthRoundTrip(e.size);
    var tail := BytesOf(e) + [NEWLINE] + rest;
    var lines := Hex(e.size) + [NEWLINE] + tail;
    assert ItemBytes(e) + rest == e.mime + [NEWLINE] + lines;
    NextLineOf(e.mime, lines);
    NextLineOf(Hex(e.size), tail);
  }

  /** A written entry is read back, and the stream stands at the next one. */
  lemma {:induction false} ReadsOneBack(e: Item, rest: seq<byte>)
    requires ValidItem(e) && Sendable(e)
    ensures ReadOne(Stream(ItemBytes(e) + rest, false, false)) == (Some([EntryOf(e)]), Stream(rest, false, false))
  {
    hide ItemBytes, ParseLength, LineLength;
    ReadsHead(e, rest);
    var d := BytesOf(e);
    var s := d + [NEWLINE] + rest;
    assert s[..|d|] == d && s[|d|..] == [] + [NEWLINE] + rest;
    NextLineOf([], rest);
  }

  lemma {:induction false} NothingLeft()
    ensures ReadAll(Stream([], false, false)) == Outcome([], false)
  {
  }

  lemma {:induction false} ReadsBack(items: seq<Item>)
    requires forall i :: 0 <= i < |items| ==> ValidItem(items[i]) && Sendable(items[i])
    ensures ReadAll(Stream(Written(items), false, false)) == Outcome(EntriesOf(items), false)
    decreases |items|
  {
    hide ReadOne, ItemBytes;
    if items == [] {
      NothingLeft();
    } else {
      ReadsBack(items[1..]);
      ReadsOneBack(items[0], Written(items[1..]));
      assert EntriesOf(items) == [EntryOf(items[0])] + EntriesOf(items[1..]);
    }
  }

  /** Only entries with a mime type, on one line, are ever read. */
  lemma {:induction false} ReadMimesAreLines(s: Stream, k: nat)
    requires s.fail ==> s.eof
    requires k < |ReadAll(s).entries|
    ensures ReadAll(s).entries[k].mime != [] && NEWLINE !in ReadAll(s).entries[k].mime
    decreases Measure(s)
  {
    var (one, t) := ReadOne(s);
    ReadOneShortens(s);
    var n := |one.value|;
    if k >= n {
      ReadMimesAreLines(t, k - n);
    }
  }

  /** An entry whose pointer is null although it has a size is not read back. */
  lemma {:induction false} NullIsNotReadBack(e: Item, rest: seq<byte>)
    requires ValidItem(e) && e.mime != [] && NEWLINE !in e.mime && e.stream.None? && e.size > 0
    ensures var (one, t) := ReadOne(Stream(ItemBytes(e) + rest, false, false));
            one.None? || (|one.value| == 1 && one.value[0] != EntryOf(e))
  {
    hide ItemBytes, ParseLength, LineLength;
    ReadsHead(e, rest);
  }

  lemma {:induction false} OnlySendableIsReadBack(items: seq<Item>)
    requires forall i :: 0 <= i < |items| ==> ValidItem(items[i]) && items[i].mime != [] && NEWLINE !in items[i].mime
    requires ReadAll(Stream(Written(items), false, false)) == Outcome(EntriesOf(items), false)
    ensures forall i :: 0 <= i < |items| ==> Sendable(items[i])
    decreases |items|
  {
    hide ReadOne, ItemBytes;
    if items != [] {
      var s, rest := Stream(Written(items), false, false), Written(items[1..]);
      assert EntriesOf(items) == [EntryOf(items[0])] + EntriesOf(items[1..]);
      var (one, t) := ReadOne(s);
      ReadAllUnfolds(s);
      assert s == Stream(ItemBytes(items[0]) + rest, false, false);
      if !Sendable(items[0]) {
        NullIsNotReadBack(items[0], rest);
        assert one.Some? ==> ReadAll(s).entries[0] == one.value[0];
      } else {
        ReadsOneBack(items[0], rest);
        assert ReadAll(s).entries[1..] == ReadAll(t).entries;
        OnlySendableIsReadBack(items[1..]);
        forall i | 0 <= i < |items| ensures Sendable(items[i]) {
          assert i > 0 ==> items[i] == items[1..][i - 1];
        }
      }
    }
  }

  lemma {:induction false} HeaderIsSkipped(rest: seq<byte>)
    ensures NextLine(Stream(HEADER + rest, false, false)).1 == Stream(rest, false, false)
  {
    var line := HEADER[..|HEADER| - 1];
    assert HEADER == line + [NEWLINE];
    assert HEADER + rest == line + [NEWLINE] + rest;
    assert NEWLINE !in line;
    NextLineOf(line, rest);
  }

  /** Reading what getClipboard wrote gives back the same entries, with any bytes as content, exactly
      if every entry has a non-empty mime type without a newline and no entry has a size without
      data. */
  lemma {:induction false} RoundTrip(items: seq<Item>)
    requires forall i :: 0 <= i < |items| ==> ValidItem(items[i])
    ensures Parsed(HEADER + Written(items)) == Outcome(EntriesOf(items), false)
            <==> forall i :: 0 <= i < |items| ==> Sendable(items[i])
  {
    hide NextLine, ReadAll;
    HeaderIsSkipped(Written(items));
    var s := Stream(Written(items), false, false);
    if forall i :: 0 <= i < |items| ==> Sendable(items[i]) {
      ReadsBack(items);
    } else if ReadAll(s) == Outcome(EntriesOf(items), false) {
      forall i | 0 <= i < |items| ensures items[i].mime != [] && NEWLINE !in items[i].mime {
        ReadMimesAreLines(s, i);
        assert ReadAll(s).entries[i] == EntryOf(items[i]);
      }
      OnlySendableIsReadBack(items);
    }
  }
}
