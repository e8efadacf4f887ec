/**
 * Streaming recognition of Intel HEX. The scanner sees a payload in arbitrary chunks and keeps one
 * line; the format is stated on the whole payload, after the Intel Hexadecimal Object File Format
 * Specification, Revision A.
 */
module IntelHex {
  import opened Wrappers
  import opened Bytes

  const UTF8_BOM: bytes := [0xEF, 0xBB, 0xBF]
  const MAX_LINE_BYTES: nat := 1024
  const END_OF_FILE: nat := 1

  // ---- one record ----

  predicate AllHex(s: bytes) {
    forall b :: b in s ==> IsHexDigit(b)
  }

  /** Two digits a byte, high nibble first. */
  function FromHex(s: bytes): (r: bytes)
    requires AllHex(s) && |s| % 2 == 0
    ensures |r| == |s| / 2
  {
    if s == [] then []
    else
      assert s[0] in s && s[1] in s;
      [HexValue(s[0]) * 16 + HexValue(s[1])] + FromHex(s[2..])
  }

  function ExpectedLength(recordType: nat): nat
    requires 1 <= recordType <= 5
  {
    if recordType == 1 then 0 else if recordType == 3 || recordType == 5 then 4 else 2
  }

  function RecordType(line: bytes): (r: Option<nat>)
    ensures r.Some? ==> line != [] && r.value <= 5
  {
    var encoded := if line != [] && line[0] == COLON then line[1..] else [];
    if |encoded| < 10 || |encoded| % 2 != 0 || !AllHex(encoded) then None
    else
      var record := FromHex(encoded);
      if |record| != record[0] as nat + 5 || record[3] > 5 || Sum(record) % 256 != 0 then None
      else if record[3] == 0 then Some(0)
      else if record[0] != ExpectedLength(record[3]) || record[1..3] != [0, 0] then None
      else Some(record[3])
  }

  /** A record as the specification lays it out: length, load offset, type, data, checksum. */
  datatype Record = Record(offset: nat, kind: nat, data: bytes) {

    predicate Valid() {
      && offset < 0x10000 && kind <= 5 && |data| < 256
      && (kind != 0 ==> offset == 0 && |data| == ExpectedLength(kind))
    }

    function Body(): bytes
      requires Valid()
    {
      [|data|, offset / 256, offset % 256, kind] + data
    }

    /** The two's complement of the sum of all the other bytes. */
    function Checksum(): byte
      requires Valid()
    {
      (256 - Sum(Body()) % 256) % 256
    }
  }

  ghost predicate Writes(line: bytes, r: Record)
    requires r.Valid()
  {
    && line != [] && line[0] == COLON && AllHex(line[1..]) && |line[1..]| % 2 == 0
    && FromHex(line[1..]) == r.Body() + [r.Checksum()]
  }

  lemma ChecksumUnique(sum: nat, c: byte)
    ensures (sum + c) % 256 == 0 <==> c == (256 - sum % 256) % 256
  {
    assert (sum + c) % 256 == (sum % 256 + c) % 256;
  }

  /** The record that accepted bytes hold. */
  function RecordOf(record: bytes): Record
    requires |record| >= 5
  {
    Record(record[1] as nat * 256 + record[2], record[3], record[4..|record| - 1])
  }

  lemma RecordHolds(record: bytes)
    requires |record| >= 5 && |record| == record[0] as nat + 5 && record[3] <= 5 && Sum(record) % 256 == 0
    requires record[3] != 0 ==> record[0] == ExpectedLength(record[3]) && record[1..3] == [0, 0]
    ensures var r := RecordOf(record); r.Valid() && r.kind == record[3] && record == r.Body() + [r.Checksum()]
  {
    hide Sum;
    var r := RecordOf(record);
    assert record[1..3] == [record[1], record[2]];
    assert r.Valid();
    var last := record[|record| - 1];
    assert r.Body() == record[..|record| - 1];
    assert record == r.Body() + [last];
    SumConcat(r.Body(), [last]);
    SumOne(last);
    ChecksumUnique(Sum(r.Body()), last);
  }

  lemma SumOne(b: byte)
    ensures Sum([b]) == b
  {
  }

  lemma RecordAccepted(r: Record)
    requires r.Valid()
    ensures var record := r.Body() + [r.Checksum()];
      && |record| == record[0] as nat + 5 && record[3] == r.kind && Sum(record) % 256 == 0
      && (r.kind != 0 ==> record[0] == ExpectedLength(r.kind) && record[1..3] == [0, 0])
  {
    hide Sum;
    var record := r.Body() + [r.Checksum()];
    SumConcat(r.Body(), [r.Checksum()]);
    SumOne(r.Checksum());
    ChecksumUnique(Sum(r.Body()), r.Checksum());
    assert record[1..3] == [r.offset / 256, r.offset % 256];
  }

  /** The recognizer accepts exactly the lines that write a record, with the record's type. */
  lemma RecordTypeExact(line: bytes, kind: nat)
    ensures RecordType(line) == Some(kind) <==> exists r: Record :: r.Valid() && r.kind == kind && Writes(line, r)
  {
    hide Sum, FromHex, AllHex;
    if RecordType(line) == Some(kind) {
      RecordHolds(FromHex(line[1..]));
      assert Writes(line, RecordOf(FromHex(line[1..])));
    }
    forall r: Record | r.Valid() && r.kind == kind && Writes(line, r)
      ensures RecordType(line) == Some(kind)
    {
      RecordAccepted(r);
    }
  }

  // ---- one line at a time ----

  predicate Strippable(b: byte) {
    b == SPACE || b == TAB || b == FF
  }

  function StripLeft(s: bytes): bytes {
    if s != [] && Strippable(s[0]) then StripLeft(s[1..]) else s
  }

  function StripRight(s: bytes): bytes {
    if s != [] && Strippable(s[|s| - 1]) then StripRight(s[..|s| - 1]) else s
  }

  function Strip(s: bytes): bytes {
    StripRight(StripLeft(s))
  }

  predicate Ignored(line: bytes) {
    var text := Strip(line);
    text == [] || text[0] == SEMICOLON || text[0] == HASH
  }

  predicate EndsLine(b: byte) {
    b == CR || b == LF
  }

  /** The fields of the scanner that concern lines. */
  datatype Lines = Lines(possible: bool, line: bytes, records: nat, eofSeen: bool)

  const FRESH := Lines(true, [], 0, false)

  function FinishLine(h: Lines): Lines {
    if Ignored(h.line) then h.(line := [])
    else
      var kind := RecordType(Strip(h.line));
      if kind.None? || h.eofSeen then h.(possible := false, line := [])
      else h.(line := [], records := h.records + 1, eofSeen := kind.value == END_OF_FILE)
  }

  function LineByte(h: Lines, b: byte): Lines {
    if !h.possible then h
    else if EndsLine(b) then FinishLine(h)
    else if |h.line| + 1 > MAX_LINE_BYTES then h.(possible := false, line := [])
    else h.(line := h.line + [b])
  }

  function LineBytes(h: Lines, data: bytes): Lines
    decreases |data|
  {
    if data == [] then h else LineBytes(LineByte(h, data[0]), data[1..])
  }

  lemma {:induction false} LineBytesConcat(h: Lines, a: bytes, b: bytes)
    ensures LineBytes(h, a + b) == LineBytes(LineBytes(h, a), b)
    decreases |a|
  {
    if a == [] {
      assert a + b == b;
    } else {
      LineBytesConcat(LineByte(h, a[0]), a[1..], b);
      assert (a + b)[1..] == a[1..] + b;
    }
  }

  lemma {:induction false} LineBytesStuck(h: Lines, data: bytes)
    requires !h.possible
    ensures LineBytes(h, data) == h
  {
    if data != [] {
      LineBytesStuck(h, data[1..]);
    }
  }

  /** A piece without line ends is taken whole, or is too long. */
  lemma {:induction false} LineBytesPiece(h: Lines, piece: bytes)
    requires h.possible && |h.line| <= MAX_LINE_BYTES
    requires forall b :: b in piece ==> !EndsLine(b)
    ensures LineBytes(h, piece) ==
      if |h.line| + |piece| > MAX_LINE_BYTES then h.(possible := false, line := [])
      else h.(line := h.line + piece)
    decreases |piece|
  {
    if piece == [] {
      assert h.line + piece == h.line;
    } else {
      assert piece[0] in piece && forall b :: b in piece[1..] ==> b in piece;
      var next := LineByte(h, piece[0]);
      if next.possible {
        LineBytesPiece(next, piece[1..]);
        assert h.line + piece == (h.line + [piece[0]]) + piece[1..];
      } else {
        LineBytesStuck(next, piece[1..]);
      }
    }
  }

  lemma NoBytes(h: Lines, data: bytes)
    ensures LineBytes(h, data[..0]) == h
  {
  }

  /** One piece and the line end behind it, if there is one. */
  lemma PieceRead(before: Lines, h: Lines, data: bytes, offset: nat, end: nat)
    requires offset <= end <= |data| && h == LineBytes(before, data[..offset])
    requires h.possible && |h.line| <= MAX_LINE_BYTES
    requires forall b :: b in data[offset..end] ==> !EndsLine(b)
    requires end < |data| ==> EndsLine(data[end])
    ensures |h.line| + (end - offset) > MAX_LINE_BYTES ==>
      LineBytes(before, data) == h.(possible := false, line := [])
    ensures |h.line| + (end - offset) <= MAX_LINE_BYTES ==>
      var taken := h.(line := h.line + data[offset..end]);
      if end == |data| then LineBytes(before, data) == taken
      else
        LineBytes(before, data[..end + 1]) == FinishLine(taken) &&
        LineBytes(before, data) == LineBytes(FinishLine(taken), data[end + 1..])
  {
    hide FinishLine;
    var piece := data[offset..end];
    assert data == data[..offset] + (piece + data[end..]);
    LineBytesConcat(before, data[..offset], piece + data[end..]);
    LineBytesConcat(h, piece, data[end..]);
    LineBytesPiece(h, piece);
    if |h.line| + |piece| > MAX_LINE_BYTES {
      LineBytesStuck(LineBytes(h, piece), data[end..]);
    } else if end < |data| {
      assert data[end..][1..] == data[end + 1..];
      assert data[..end + 1] == data[..offset] + (piece + [data[end]]);
      LineBytesConcat(before, data[..offset], piece + [data[end]]);
      LineBytesConcat(h, piece, [data[end]]);
    }
  }

  // ---- the whole stream ----

  datatype Stream = Stream(lines: Lines, preamble: bytes, preambleDone: bool)

  const START := Stream(FRESH, [], false)

  function StreamByte(s: Stream, b: byte): Stream {
    if !s.lines.possible then s
    else if s.preambleDone then s.(lines := LineByte(s.lines, b))
    else
      var preamble := s.preamble + [b];
      if !(preamble <= UTF8_BOM) then Stream(LineBytes(s.lines, preamble), [], true)
      else if |preamble| == |UTF8_BOM| then Stream(s.lines, [], true)
      else s.(preamble := preamble)
  }

  function StreamBytes(s: Stream, data: bytes): Stream
    decreases |data|
  {
    if data == [] then s else StreamBytes(StreamByte(s, data[0]), data[1..])
  }

  lemma {:induction false} StreamBytesConcat(s: Stream, a: bytes, b: bytes)
    ensures StreamBytes(s, a + b) == StreamBytes(StreamBytes(s, a), b)
    decreases |a|
  {
    if a == [] {
      assert a + b == b;
    } else {
      StreamBytesConcat(StreamByte(s, a[0]), a[1..], b);
      assert (a + b)[1..] == a[1..] + b;
    }
  }

  lemma {:induction false} StreamAfterPreamble(s: Stream, data: bytes)
    requires s.preambleDone || !s.lines.possible
    ensures StreamBytes(s, data) == s.(lines := LineBytes(s.lines, data))
    decreases |data|
  {
    if data != [] {
      StreamAfterPreamble(StreamByte(s, data[0]), data[1..]);
    }
  }

  function Flushed(s: Stream): Lines {
    if s.lines.possible && !s.preambleDone then LineBytes(s.lines, s.preamble) else s.lines
  }

  function Verdict(h: Lines): bool {
    var last := if h.possible && h.line != [] then FinishLine(h) else h;
    last.possible && last.eofSeen && last.records >= 2
  }

  class IntelHexScanner {
    var possible: bool
    var line: bytes
    var records: nat
    var eofSeen: bool
    var preamble: bytes
    var preambleDone: bool

    function LineState(): Lines
      reads this
    {
      Lines(possible, line, records, eofSeen)
    }

    function State(): Stream
      reads this
    {
      Stream(LineState(), preamble, preambleDone)
    }

    predicate Valid()
      reads this
    {
      && |line| <= MAX_LINE_BYTES
      && (preambleDone ==> preamble == [])
      && (!preambleDone ==> possible && line == [] && preamble <= UTF8_BOM && |preamble| < |UTF8_BOM|)
    }

    constructor ()
      ensures Valid() && State() == START
    {
      possible, line, records, eofSeen := true, [], 0, false;
      preamble, preambleDone := [], false;
    }

    method Feed(data: bytes)
      requires Valid()
      modifies this
      ensures Valid() && State() == StreamBytes(old(State()), data)
    {
      ghost var before := State();
      if !possible {
        StreamAfterPreamble(before, data);
        LineBytesStuck(LineState(), data);
        return;
      }
      var offset := 0;
      if !preambleDone {
        while offset < |data| && !preambleDone
          invariant 0 <= offset <= |data|
          invariant Valid()
          invariant State() == StreamBytes(before, data[..offset])
        {
          preamble := preamble + [data[offset]];
          ghost var reached := StreamBytes(before, data[..offset]);
          offset := offset + 1;
          assert data[..offset] == data[..offset - 1] + [data[offset - 1]];
          StreamBytesConcat(before, data[..offset - 1], [data[offset - 1]]);
          assert StreamBytes(before, data[..offset]) == StreamByte(reached, data[offset - 1]);
          if !(preamble <= UTF8_BOM) {
            var pending := preamble;
            preamble := [];
            preambleDone := true;
            FeedBody(pending);
          } else if |preamble| == |UTF8_BOM| {
            preamble := [];
            preambleDone := true;
          }
        }
        assert data == data[..offset] + data[offset..];
        StreamBytesConcat(before, data[..offset], data[offset..]);
        if !preambleDone || !possible {
          if preambleDone {
            StreamAfterPreamble(State(), data[offset..]);
            LineBytesStuck(LineState(), data[offset..]);
          }
          return;
        }
      }
      assert data == data[..offset] + data[offset..];
      StreamBytesConcat(before, data[..offset], data[offset..]);
      StreamAfterPreamble(State(), data[offset..]);
      FeedBody(data[offset..]);
    }

    method FeedBody(data: bytes)
      requires possible && |line| <= MAX_LINE_BYTES
      modifies this`possible, this`line, this`records, this`eofSeen
      ensures |line| <= MAX_LINE_BYTES
      ensures LineState() == LineBytes(old(LineState()), data)
    {
      hide LineBytes, FinishLine, EndsLine;
      ghost var before := LineState();
      var offset := 0;
      NoBytes(before, data);
      while offset < |data|
        invariant 0 <= offset <= |data|
        invariant possible && |line| <= MAX_LINE_BYTES
        invariant LineState() == LineBytes(before, data[..offset])
      {
        var end := NextLineEnd(data, offset);
        var piece := data[offset..end];
        PieceRead(before, LineState(), data, offset, end);
        if |line| + |piece| > MAX_LINE_BYTES {
          possible := false;
          line := [];
          return;
        }
        line := line + piece;
        if end == |data| {
          return;
        }
        FinishPending();
        if !possible {
          LineBytesStuck(LineState(), data[end + 1..]);
          return;
        }
        offset := end + 1;
      }
      assert data[..offset] == data;
    }

    static method NextLineEnd(data: bytes, offset: nat) returns (end: nat)
      requires offset <= |data|
      ensures offset <= end <= |data|
      ensures forall b :: b in data[offset..end] ==> !EndsLine(b)
      ensures end < |data| ==> EndsLine(data[end])
    {
      end := offset;
      while end < |data| && !EndsLine(data[end])
        invariant offset <= end <= |data|
        invariant forall b :: b in data[offset..end] ==> !EndsLine(b)
      {
        end := end + 1;
      }
    }

    method FinishPending()
      requires possible && |line| <= MAX_LINE_BYTES
      modifies this`possible, this`line, this`records, this`eofSeen
      ensures line == [] && LineState() == FinishLine(old(LineState()))
    {
      var stripped := Strip(line);
      line := [];
      if stripped == [] || stripped[0] == SEMICOLON || stripped[0] == HASH {
        return;
      }
      var recordType := RecordType(stripped);
      if recordType.None? || eofSeen {
        possible := false;
        return;
      }
      records := records + 1;
      if recordType.value == END_OF_FILE {
        eofSeen := true;
      }
    }

    method Finish() returns (recognized: bool)
      requires Valid()
      modifies this
      ensures recognized == Verdict(Flushed(old(State())))
    {
      if possible && !preambleDone {
        var pending := preamble;
        preamble := [];
        preambleDone := true;
        FeedBody(pending);
      }
      if possible && line != [] {
        FinishPending();
      }
      recognized := possible && eofSeen && records >= 2;
    }
  }

  // ---- the format on the whole payload ----

  function WithoutBom(data: bytes): bytes {
    if UTF8_BOM <= data then data[|UTF8_BOM|..] else data
  }

  /** The text between line ends; one more line than there are line ends. */
  function Split(body: bytes): (lines: seq<bytes>)
    ensures |lines| >= 1
  {
    if body == [] then [[]]
    else if EndsLine(body[0]) then [[]] + Split(body[1..])
    else
      var rest := Split(body[1..]);
      [[body[0]] + rest[0]] + rest[1..]
  }

  /** What the lines that are neither blank nor comments claim to be. */
  function Kinds(lines: seq<bytes>): seq<Option<nat>> {
    if lines == [] then []
    else if Ignored(lines[0]) then Kinds(lines[1..])
    else [RecordType(Strip(lines[0]))] + Kinds(lines[1..])
  }

  ghost predicate IntelHexDocument(data: bytes) {
    var lines := Split(WithoutBom(data));
    var kinds := Kinds(lines);
    && Short(lines) && |kinds| >= 2 && EndsAtLast(kinds)
  }

  /** Every claim is a record, and the last record, and no other, ends the file. */
  predicate EndsAtLast(kinds: seq<Option<nat>>) {
    && (forall i :: 0 <= i < |kinds| ==> kinds[i].Some?)
    && (forall i :: 0 <= i < |kinds| ==> (kinds[i] == Some(END_OF_FILE) <==> i == |kinds| - 1))
  }

  /** The same verdict, line by line. */
  function Accepts(lines: seq<bytes>, records: nat, eofSeen: bool): bool {
    if lines == [] then eofSeen && records >= 2
    else if |lines[0]| > MAX_LINE_BYTES then false
    else if Ignored(lines[0]) then Accepts(lines[1..], records, eofSeen)
    else
      var kind := RecordType(Strip(lines[0]));
      kind.Some? && !eofSeen && Accepts(lines[1..], records + 1, kind.value == END_OF_FILE)
  }

  lemma {:induction false} AcceptsExact(lines: seq<bytes>, records: nat, eofSeen: bool)
    ensures var kinds := Kinds(lines);
      Accepts(lines, records, eofSeen) <==>
        && Short(lines)
        && records + |kinds| >= 2
        && (eofSeen || kinds != []) && (eofSeen ==> kinds == [])
        && EndsAtLast(kinds)
  {
    hide RecordType, Strip, Ignored, EndsAtLast;
    if lines == [] {
      NoneEnds();
    } else {
      var rest := lines[1..];
      ShortLines(lines);
      if |lines[0]| <= MAX_LINE_BYTES {
        if Ignored(lines[0]) {
          AcceptsExact(rest, records, eofSeen);
        } else {
          var kind := RecordType(Strip(lines[0]));
          FirstIsRecord(kind, Kinds(rest));
          if kind.Some? {
            AcceptsExact(rest, records + 1, kind.value == END_OF_FILE);
            OnlyLastIsEnd(kind, Kinds(rest));
          }
        }
      }
    }
  }

  predicate Short(lines: seq<bytes>) {
    forall i :: 0 <= i < |lines| ==> |lines[i]| <= MAX_LINE_BYTES
  }

  lemma ShortLines(lines: seq<bytes>)
    requires lines != []
    ensures Short(lines) <==> |lines[0]| <= MAX_LINE_BYTES && Short(lines[1..])
  {
    assert forall i :: 1 <= i < |lines| ==> lines[i] == lines[1..][i - 1];
    assert forall i :: 0 <= i < |lines| - 1 ==> lines[1..][i] == lines[i + 1];
  }

  lemma NoneEnds()
    ensures EndsAtLast([])
  {
  }

  lemma FirstIsRecord(kind: Option<nat>, more: seq<Option<nat>>)
    ensures EndsAtLast([kind] + more) ==> kind.Some?
  {
    assert ([kind] + more)[0] == kind;
  }

  lemma OnlyLastIsEnd(kind: Option<nat>, more: seq<Option<nat>>)
    requires kind.Some?
    ensures EndsAtLast([kind] + more) <==> EndsAtLast(more) && (kind.value == END_OF_FILE <==> more == [])
  {
    var kinds := [kind] + more;
    assert forall i :: 0 <= i < |more| ==> more[i] == kinds[i + 1];
    assert kinds[0] == kind;
  }

  predicate NoLineEnd(s: bytes) {
    forall b :: b in s ==> !EndsLine(b)
  }

  lemma {:induction false} SplitAfter(line: bytes, rest: bytes)
    requires NoLineEnd(line)
    ensures rest == [] ==> Split(line + rest) == [line]
    ensures rest != [] && EndsLine(rest[0]) ==> Split(line + rest) == [line] + Split(rest[1..])
  {
    if line == [] {
      assert line + rest == rest;
    } else {
      assert line[0] in line && forall b :: b in line[1..] ==> b in line;
      SplitAfter(line[1..], rest);
      assert (line + rest)[1..] == line[1..] + rest;
      assert [line[0]] + line[1..] == line;
    }
  }

  lemma {:induction false} SplitTooLong(line: bytes, rest: bytes)
    requires NoLineEnd(line)
    ensures line <= Split(line + rest)[0]
  {
    if line != [] {
      assert line[0] in line && forall b :: b in line[1..] ==> b in line;
      SplitTooLong(line[1..], rest);
      assert (line + rest)[1..] == line[1..] + rest;
      assert [line[0]] + line[1..] == line;
    }
  }

  lemma AcceptsCons(line: bytes, rest: seq<bytes>, records: nat, eofSeen: bool)
    ensures Accepts([line] + rest, records, eofSeen) ==
      if |line| > MAX_LINE_BYTES then false
      else if Ignored(line) then Accepts(rest, records, eofSeen)
      else
        var kind := RecordType(Strip(line));
        kind.Some? && !eofSeen && Accepts(rest, records + 1, kind.value == END_OF_FILE)
  {
    assert ([line] + rest)[1..] == rest;
  }

  lemma VerdictAtEnd(h: Lines)
    requires h.possible && |h.line| <= MAX_LINE_BYTES
    ensures Verdict(h) == Accepts([h.line], h.records, h.eofSeen)
  {
    assert Ignored([]);
    hide RecordType, Strip, Ignored;
    AcceptsCons(h.line, [], h.records, h.eofSeen);
    assert [h.line] + [] == [h.line];
  }

  lemma {:induction false} VerdictOnLines(h: Lines, data: bytes)
    requires h.possible && |h.line| <= MAX_LINE_BYTES && NoLineEnd(h.line)
    ensures Verdict(LineBytes(h, data)) == Accepts(Split(h.line + data), h.records, h.eofSeen)
    decreases |data|
  {
    hide RecordType, Strip, Ignored, Split, Verdict;
    SplitAfter(h.line, data);
    if data == [] {
      VerdictAtEnd(h);
    } else {
      var next := LineByte(h, data[0]);
      assert LineBytes(h, data) == LineBytes(next, data[1..]);
      if EndsLine(data[0]) {
        AcceptsCons(h.line, Split(data[1..]), h.records, h.eofSeen);
        if next.possible {
          assert [] + data[1..] == data[1..];
          VerdictOnLines(next, data[1..]);
        } else {
          Impossible(next, data[1..]);
        }
      } else if |h.line| + 1 > MAX_LINE_BYTES {
        assert h.line + data == (h.line + [data[0]]) + data[1..];
        Impossible(next, data[1..]);
        SplitTooLong(h.line + [data[0]], data[1..]);
      } else {
        assert h.line + data == (h.line + [data[0]]) + data[1..];
        VerdictOnLines(next, data[1..]);
      }
    }
  }

  lemma Impossible(h: Lines, data: bytes)
    requires !h.possible
    ensures !Verdict(LineBytes(h, data))
  {
    LineBytesStuck(h, data);
  }

  /** The preamble only removes one mark at the very start. */
  lemma PreambleDropsBom(data: bytes)
    ensures Flushed(StreamBytes(START, data)) == LineBytes(FRESH, WithoutBom(data))
  {
    if data == [] {
    } else if data[0] != 0xEF {
      var s := StreamByte(START, data[0]);
      assert [] + [data[0]] == [data[0]];
      assert data[..1] == [data[0]];
      assert s == Stream(LineBytes(FRESH, data[..1]), [], true);
      PreambleFails(data, 1, s);
    } else if |data| == 1 {
      assert StreamBytes(START, data) == Stream(FRESH, [0xEF], false);
      assert data == [0xEF];
    } else {
      var s1 := Stream(FRESH, [0xEF], false);
      assert StreamBytes(START, data) == StreamBytes(s1, data[1..]);
      PreambleSecond(data, s1);
    }
  }

  lemma PreambleSecond(data: bytes, s1: Stream)
    requires |data| >= 2 && data[0] == 0xEF && s1 == Stream(FRESH, [0xEF], false)
    ensures Flushed(StreamBytes(s1, data[1..])) == LineBytes(FRESH, WithoutBom(data))
  {
    var s2 := StreamByte(s1, data[1]);
    assert data[1..][1..] == data[2..];
    assert StreamBytes(s1, data[1..]) == StreamBytes(s2, data[2..]);
    assert data[..2] == [0xEF] + [data[1]];
    if data[1] != 0xBB {
      assert s2 == Stream(LineBytes(FRESH, data[..2]), [], true);
      PreambleFails(data, 2, s2);
    } else if |data| == 2 {
      assert s2 == Stream(FRESH, [0xEF, 0xBB], false);
      assert data == [0xEF, 0xBB];
    } else {
      var s3 := StreamByte(s2, data[2]);
      assert s2 == Stream(FRESH, [0xEF, 0xBB], false);
      assert data[2..][1..] == data[3..];
      assert StreamBytes(s2, data[2..]) == StreamBytes(s3, data[3..]);
      assert data[..3] == [0xEF, 0xBB] + [data[2]];
      if data[2] != 0xBF {
        assert s3 == Stream(LineBytes(FRESH, data[..3]), [], true);
        PreambleFails(data, 3, s3);
      } else {
        assert UTF8_BOM <= data;
        StreamAfterPreamble(s3, data[3..]);
      }
    }
  }

  lemma PreambleFails(data: bytes, n: nat, s: Stream)
    requires 1 <= n <= |data| && n <= |UTF8_BOM| && !(data[..n] <= UTF8_BOM)
    requires s == Stream(LineBytes(FRESH, data[..n]), [], true)
    ensures Flushed(StreamBytes(s, data[n..])) == LineBytes(FRESH, WithoutBom(data))
  {
    StreamAfterPreamble(s, data[n..]);
    assert data == data[..n] + data[n..];
    LineBytesConcat(FRESH, data[..n], data[n..]);
  }

  lemma VerdictExact(data: bytes)
    ensures Verdict(Flushed(StreamBytes(START, data))) <==> IntelHexDocument(data)
  {
    var body := WithoutBom(data);
    PreambleDropsBom(data);
    VerdictOnLines(FRESH, body);
    assert [] + body == body;
    AcceptsExact(Split(body), 0, false);
  }
}
