/** Intel HEX files as text: which of them ezusb_load_image loads, and what of them it loads. */
module HexFile {
  import opened IntelHex

  // ----- Lines -----

  function Digit(v: nat, lower: bool): (c: char)
    requires v < 16
    ensures IsHex(c)
  {
    if lower then "0123456789abcdef"[v] else "0123456789ABCDEF"[v]
  }

  lemma DigitRead(v: nat, lower: bool)
    requires v < 16
    ensures Hex(Digit(v, lower)) == v
  {
  }

  /** Two digits for each byte. */
  function HexData(bytes: seq<Byte>, lower: bool): (s: string)
    ensures |s| == 2 * |bytes| && AllHex(s)
  {
    seq(2 * |bytes|, i requires 0 <= i < 2 * |bytes| => DigitAt(bytes, lower, i))
  }

  function DigitAt(bytes: seq<Byte>, lower: bool, i: nat): (c: char)
    requires i < 2 * |bytes|
    ensures IsHex(c)
  {
    Digit(if i % 2 == 0 then bytes[i / 2] / 16 else bytes[i / 2] % 16, lower)
  }

  lemma HexAppend(a: seq<Byte>, b: seq<Byte>, lower: bool)
    ensures HexData(a + b, lower) == HexData(a, lower) + HexData(b, lower)
  {
    var s, t := HexData(a + b, lower), HexData(a, lower) + HexData(b, lower);
    forall i | 0 <= i < |s| ensures s[i] == t[i] {
      if i >= 2 * |a| {
        assert i % 2 == (i - 2 * |a|) % 2 && i / 2 == |a| + (i - 2 * |a|) / 2;
      }
    }
  }

  /** What a line of a file is: a record and what is behind its data, which should be a checksum; a record without all
      of its data; something with another record type; a comment; or anything else. */
  datatype Entry =
    | Line(r: Record, lower: bool, rest: string)
    | Truncated(head: seq<Byte>, lower: bool, rest: string)
    | OtherKind(head: seq<Byte>, lower: bool, rest: string)
    | Remark(text: string)
    | Stray(text: string)

  predicate IsRecord(r: Record) {
    r.off < 0x1_0000 && |r.data| < 256
  }

  /** The length, the offset and the type of a data record. */
  function HeadOf(r: Record): seq<Byte>
    requires IsRecord(r)
  {
    [|r.data|, r.off / 256, r.off % 256, 0]
  }

  function RecordText(r: Record, lower: bool): string
    requires IsRecord(r)
  {
    ":" + HexData(HeadOf(r) + r.data, lower)
  }

  predicate NoNewline(s: string) {
    forall i :: 0 <= i < |s| ==> s[i] != '\n'
  }

  /** No character that would begin another line, if the buffer cuts there. */
  predicate Plain(s: string) {
    forall i :: 0 <= i < |s| ==> s[i] != '\n' && s[i] != '#' && s[i] != ':'
  }

  /** Space, tab, newline, vertical tab, form feed and carriage return. */
  predicate Blank(c: char) {
    c as int in {9, 10, 11, 12, 13, 32}
  }

  /** The characters up to the last that is not blank. */
  function Solid(s: string): (n: nat)
    ensures n <= |s|
  {
    if s == [] then 0 else if Blank(s[|s| - 1]) then Solid(s[..|s| - 1]) else |s|
  }

  /** Comments are no longer than the buffer. */
  predicate Valid(e: Entry) {
    match e
    case Line(r, _, rest) => IsRecord(r) && Plain(rest)
    case Truncated(head, _, rest) =>
      |head| == 4 && head[3] == 0 && Plain(rest) && TooShort(rest, head[0])
    case OtherKind(head, _, rest) => |head| == 4 && head[3] > 1 && NoNewline(rest)
    case Remark(text) => NoNewline(text) && |text| < FITS
    case Stray(text) => NoNewline(text) && (text != [] ==> text[0] != '#' && text[0] != ':')
  }

  /** Less than the data announced and two more characters, but these two. */
  predicate TooShort(rest: string, announced: nat) {
    2 <= Solid(rest) < 2 + 2 * announced
  }

  function TextOf(e: Entry): string
    requires Valid(e)
  {
    match e
    case Line(r, lower, rest) => RecordText(r, lower) + rest
    case Truncated(head, lower, rest) => ":" + HexData(head, lower) + rest
    case OtherKind(head, lower, rest) => ":" + HexData(head, lower) + rest
    case Remark(text) => "#" + text
    case Stray(text) => text
  }

  /** The characters of a line that fits into the buffer with its newline. */
  const FITS := 510

  /** Only comments and records are taken, and only if they fit; behind the data of a record two characters are wanted,
      if it has any data. */
  predicate Accepted(e: Entry)
    requires Valid(e)
  {
    match e
    case Line(r, _, rest) => |TextOf(e)| <= FITS && (r.data == [] || Solid(rest) >= 2)
    case Remark(_) => true
    case _ => false
  }

  ghost predicate AllValid(entries: seq<Entry>) {
    forall i :: 0 <= i < |entries| ==> Valid(entries[i])
  }

  ghost predicate AllAccepted(entries: seq<Entry>)
    requires AllValid(entries)
  {
    forall i :: 0 <= i < |entries| ==> Accepted(entries[i])
  }

  /** A file ends with nothing, or with a record of type 1 and anything behind that. */
  predicate Ends(end: string) {
    end == [] || (|end| >= 9 && end[0] == ':' && AllHex(end[1..9]) && end[7] == '0' && end[8] == '1')
  }

  function FileOf(entries: seq<Entry>, end: string): string
    requires AllValid(entries)
  {
    if entries == [] then end else TextOf(entries[0]) + "\n" + FileOf(entries[1..], end)
  }

  function RecordsOf(entries: seq<Entry>): seq<Record> {
    if entries == [] then []
    else (if entries[0].Line? then [entries[0].r] else []) + RecordsOf(entries[1..])
  }

  // ----- What is made of the start of a line -----

  lemma {:induction false} StrippedStarts(c: string, n: nat)
    requires 0 < n <= |c| && !IsSpace(c[n - 1])
    ensures n <= |Stripped(c)| <= |c| && Stripped(c) == c[..|Stripped(c)|]
    decreases |c|
  {
    if IsSpace(c[|c| - 1]) {
      StrippedStarts(c[..|c| - 1], n);
    }
  }

  /** What is left of a text that does not end with a blank, and something behind it. */
  lemma {:induction false} StrippedBehind(s: string, rest: string)
    requires s != [] && !IsSpace(s[|s| - 1])
    ensures Stripped(s + rest) == s + rest[..Solid(rest)]
    decreases |rest|
  {
    if rest == [] {
      assert s + rest == s;
    } else if Blank(rest[|rest| - 1]) {
      var init := rest[..|rest| - 1];
      assert (s + rest)[..|s + rest| - 1] == s + init;
      StrippedBehind(s, init);
      assert init[..Solid(init)] == rest[..Solid(rest)];
    } else {
      assert rest[..|rest|] == rest;
    }
  }

  lemma SolidNewline(rest: string)
    ensures Solid(rest + "\n") == Solid(rest)
  {
    assert (rest + "\n")[..|rest|] == rest;
  }

  /** The two characters from `i` on are those of a byte. */
  predicate IsByte(s: string, i: nat, v: nat) {
    i + 2 <= |s| && IsHex(s[i]) && IsHex(s[i + 1]) && 16 * Hex(s[i]) + Hex(s[i + 1]) == v
  }

  lemma ByteBehind(s: string, n: nat, t: string, i: nat, v: nat)
    requires n + |t| <= |s| && s[n..n + |t|] == t && IsByte(t, i, v)
    ensures IsByte(s, n + i, v)
  {
    assert s[n + i] == t[i] && s[n + i + 1] == t[i + 1];
  }

  lemma ByteRead(bytes: seq<Byte>, lower: bool, k: nat)
    requires k < |bytes|
    ensures IsByte(HexData(bytes, lower), 2 * k, bytes[k])
  {
    assert (2 * k) % 2 == 0 && (2 * k + 1) % 2 == 1 && (2 * k) / 2 == (2 * k + 1) / 2 == k;
    DigitRead(bytes[k] / 16, lower);
    DigitRead(bytes[k] % 16, lower);
  }

  lemma {:induction false} PairsOfHexData(bytes: seq<Byte>, lower: bool)
    ensures Pairs(HexData(bytes, lower)) == bytes
  {
    if bytes != [] {
      PairsOfHexData(bytes[1..], lower);
      ByteRead(bytes, lower, 0);
      HexAppend([bytes[0]], bytes[1..], lower);
      assert bytes == [bytes[0]] + bytes[1..];
      PairsMore(HexData(bytes, lower), HexData([bytes[0]], lower), HexData(bytes[1..], lower), bytes);
    }
  }

  lemma PairsMore(s: string, a: string, b: string, bytes: seq<Byte>)
    requires AllHex(s) && |s| == 2 * |bytes| && bytes != [] && IsByte(s, 0, bytes[0])
    requires s == a + b && |a| == 2 && AllHex(b) && Pairs(b) == bytes[1..]
    ensures Pairs(s) == bytes
  {
    assert s[2..] == b;
    assert bytes == [bytes[0]] + bytes[1..];
  }

  /** The bytes of the first nine characters. */
  lemma HeadRead(s: string, head: seq<Byte>, lower: bool)
    requires |head| == 4 && |s| >= 9 && s[1..9] == HexData(head, lower)
    ensures AllHex(s[1..9])
    ensures IsByte(s, 1, head[0]) && IsByte(s, 3, head[1]) && IsByte(s, 5, head[2]) && IsByte(s, 7, head[3])
  {
    ByteRead(head, lower, 0);
    ByteRead(head, lower, 1);
    ByteRead(head, lower, 2);
    ByteRead(head, lower, 3);
    HeadShifted(s, s[1..9], head);
  }

  lemma HeadShifted(s: string, t: string, head: seq<Byte>)
    requires |head| == 4 && |s| >= 9 && t == s[1..9]
    requires IsByte(t, 0, head[0]) && IsByte(t, 2, head[1]) && IsByte(t, 4, head[2]) && IsByte(t, 6, head[3])
    ensures IsByte(s, 1, head[0]) && IsByte(s, 3, head[1]) && IsByte(s, 5, head[2]) && IsByte(s, 7, head[3])
  {
    ByteBehind(s, 1, t, 0, head[0]);
    ByteBehind(s, 1, t, 2, head[1]);
    ByteBehind(s, 1, t, 4, head[2]);
    ByteBehind(s, 1, t, 6, head[3]);
  }

  lemma RecordFields(r: Record, lower: bool)
    requires IsRecord(r)
    ensures var s, n := RecordText(r, lower), |r.data|;
            |s| == 9 + 2 * n && s[0] == ':' && s[1..9] == HexData(HeadOf(r), lower) &&
            s[9..] == HexData(r.data, lower) && forall i :: 1 <= i < |s| ==> IsHex(s[i])
  {
    HexAppend(HeadOf(r), r.data, lower);
    Laid(HexData(HeadOf(r), lower), HexData(r.data, lower));
  }

  lemma Laid(a: string, b: string)
    requires |a| == 8 && AllHex(a) && AllHex(b)
    ensures var s := ":" + (a + b); s[1..9] == a && s[9..] == b && forall i :: 1 <= i < |s| ==> IsHex(s[i])
  {
    assert (":" + (a + b))[1..] == a + b;
  }

  /** A record is read back from its text and what is behind its data. */
  lemma RecordRead(buf: string, r: Record, lower: bool, rest: string)
    requires IsRecord(r) && buf == RecordText(r, lower) + rest
    ensures ParseLine(buf) == if r.data == [] || Solid(rest) >= 2 then Data(r) else NotEnoughData
  {
    var s := RecordText(r, lower);
    RecordFields(r, lower);
    StrippedBehind(s, rest);
    assert buf[0] == s[0] == ':';
    TextRead(buf, s, rest[..Solid(rest)], r, lower);
  }

  lemma TextRead(buf: string, text: string, rest: string, r: Record, lower: bool)
    requires IsRecord(r) && buf != [] && buf[0] == ':' && Stripped(buf) == text + rest && |text| == 9 + 2 * |r.data|
    requires text[1..9] == HexData(HeadOf(r), lower) && text[9..] == HexData(r.data, lower)
    ensures ParseLine(buf) == if r.data == [] || |rest| >= 2 then Data(r) else NotEnoughData
  {
    var s, n := text + rest, |r.data|;
    assert s[1..9] == text[1..9] && s[9..9 + 2 * n] == text[9..];
    HeadRead(s, HeadOf(r), lower);
    PairsOfHexData(r.data, lower);
    DataRead(buf, s, n, r.off, r.data);
  }

  lemma DataRead(buf: string, s: string, n: nat, off: nat, data: seq<Byte>)
    requires buf != [] && buf[0] == ':' && Stripped(buf) == s && |s| >= 9 + 2 * n && AllHex(s[1..9])
    requires AllHex(s[9..9 + 2 * n]) && Pairs(s[9..9 + 2 * n]) == data
    requires IsByte(s, 1, n) && IsByte(s, 3, off / 256) && IsByte(s, 5, off % 256) && IsByte(s, 7, 0)
    ensures ParseLine(buf) == if n == 0 || |s| >= 11 + 2 * n then Data(Record(off, data)) else NotEnoughData
  {
    OffsetRead(s, off);
  }

  lemma OffsetRead(s: string, off: nat)
    requires IsByte(s, 3, off / 256) && IsByte(s, 5, off % 256)
    ensures 4096 * Hex(s[3]) + 256 * Hex(s[4]) + 16 * Hex(s[5]) + Hex(s[6]) == off
  {
  }

  /** The printed line of any record, with its checksum and blanks behind it, is read back, with its newline and
      without. */
  lemma ParsePrinted(r: Record, checksum: Byte, lower: bool, blanks: string)
    requires IsRecord(r)
    ensures var s := RecordText(r, lower) + (HexData([checksum], lower) + blanks);
            ParseLine(s) == ParseLine(s + "\n") == Data(r)
  {
    var rest := HexData([checksum], lower) + blanks;
    SolidAtLeast(rest, 2);
    SolidNewline(rest);
    RecordRead(RecordText(r, lower) + rest, r, lower, rest);
    assert RecordText(r, lower) + rest + "\n" == RecordText(r, lower) + (rest + "\n");
    RecordRead(RecordText(r, lower) + rest + "\n", r, lower, rest + "\n");
  }

  lemma {:induction false} SolidAtLeast(s: string, n: nat)
    requires 0 < n <= |s| && !Blank(s[n - 1])
    ensures Solid(s) >= n
    decreases |s|
  {
    if Blank(s[|s| - 1]) {
      SolidAtLeast(s[..|s| - 1], n);
    }
  }

  /** A record that announces more data than there is behind its first nine characters. */
  lemma TruncatedRead(buf: string, head: seq<Byte>, lower: bool, rest: string)
    requires |head| == 4 && head[3] == 0 && buf == ":" + HexData(head, lower) + rest
    requires TooShort(rest, head[0])
    ensures ParseLine(buf) == NotEnoughData
  {
    var text := ":" + HexData(head, lower);
    assert text[1..9] == HexData(head, lower) && text[8] == HexData(head, lower)[7];
    StrippedBehind(text, rest);
    var s := text + rest[..Solid(rest)];
    assert s[1..9] == text[1..9];
    HeadRead(s, head, lower);
  }

  /** The type of a line, once its first nine characters are there. */
  lemma KindRead(c: string, head: seq<Byte>, lower: bool)
    requires |head| == 4 && |c| >= 9 && c[0] == ':' && c[1..9] == HexData(head, lower)
    ensures head[3] == 1 ==> ParseLine(c) == EndMark
    ensures head[3] > 1 ==> ParseLine(c) == Unsupported
    ensures head[3] == 0 ==> !ParseLine(c).EndMark? && !ParseLine(c).Comment?
  {
    HeadRead(c, head, lower);
    assert c[8] == c[1..9][7] && IsHex(c[8]);
    StrippedStarts(c, 9);
    var s := Stripped(c);
    assert s[1..9] == c[1..9];
  }

  // ----- How the buffer cuts the file -----

  lemma {:induction false} LengthOfLine(file: string, i: nat, n: nat, room: nat)
    requires i <= n < |file| && file[n] == '\n' && forall j :: i <= j < n ==> file[j] != '\n'
    ensures ChunkLength(file, i, room) == if n - i < room then n - i + 1 else room
    decreases room
  {
    if i < n && room > 0 {
      LengthOfLine(file, i + 1, n, room - 1);
    }
  }

  lemma {:induction false} LengthAtLeast(file: string, i: nat, n: nat, room: nat)
    requires i <= n <= |file| && n - i <= room && forall j :: i <= j < n ==> file[j] != '\n'
    ensures ChunkLength(file, i, room) >= n - i
    decreases room
  {
    if i < n {
      LengthAtLeast(file, i + 1, n, room - 1);
    }
  }

  /** A buffer takes a line with its newline if that fits, and else what fits of it. */
  lemma ChunkOfLine(file: string, text: string, rest: string)
    requires file == text + "\n" + rest && NoNewline(text)
    ensures Chunk(file, BUFFER - 1) == if |text| <= FITS then text + "\n" else text[..BUFFER - 1]
  {
    var n := |text|;
    assert file[n] == '\n' && forall j :: 0 <= j < n ==> file[j] == text[j];
    LengthOfLine(file, 0, n, BUFFER - 1);
    assert file[..n + 1] == text + "\n";
    if n > FITS {
      assert file[..BUFFER - 1] == text[..BUFFER - 1];
    }
  }

  lemma ChunksHead(file: string)
    requires file != []
    ensures var c := Chunk(file, BUFFER - 1);
            Chunks(file) != [] && Chunks(file)[0] == c && Chunks(file)[1..] == Chunks(file[|c|..])
  {
  }

  /** What the file loads, given what its first buffer is. */
  lemma FirstBuffer(file: string, c: string, n: nat, all: Loaded)
    requires file != [] && c == Chunk(file, BUFFER - 1) && n == |c| && all == ParseLines(Chunks(file))
    ensures var rest := ParseLines(Chunks(file[n..]));
            match ParseLine(c)
            case Comment => all == rest
            case EndMark => all == Loaded(true, [])
            case Data(r) => all == Loaded(rest.ok, [r] + rest.records)
            case _ => !all.ok
  {
    ChunksHead(file);
  }

  /** A line that begins with anything but '#' and ':' ends the loading; a blank line, too, and what is left of a
      record's line that did not fit. */
  lemma BadStart(file: string)
    requires file != [] && file[0] != '#' && file[0] != ':'
    ensures !ParseLines(Chunks(file)).ok
  {
    var c := Chunk(file, BUFFER - 1);
    assert c[0] == file[0];
    FirstBuffer(file, c, |c|, ParseLines(Chunks(file)));
  }

  lemma NineCharacters(file: string) returns (c: string)
    requires |file| >= 9 && file[0] == ':' && AllHex(file[1..9])
    ensures c == Chunk(file, BUFFER - 1) && |c| >= 9 && c[0] == ':' && c[1..9] == file[1..9]
  {
    c := Chunk(file, BUFFER - 1);
    forall j | 1 <= j < 9 ensures file[j] != '\n' {
      assert file[j] == file[1..9][j - 1];
    }
    LengthAtLeast(file, 0, 9, BUFFER - 1);
  }

  /** What is left of a comment that does not fit is read as a line of its own. */
  lemma LongRemark(file: string)
    requires |file| >= BUFFER - 1 && file[0] == '#' && NoNewline(file[..BUFFER - 1])
    ensures ParseLines(Chunks(file)) == ParseLines(Chunks(file[BUFFER - 1..]))
  {
    forall j | 0 <= j < BUFFER - 1 ensures file[j] != '\n' {
      assert file[j] == file[..BUFFER - 1][j];
    }
    LengthAtLeast(file, 0, BUFFER - 1, BUFFER - 1);
    var c := Chunk(file, BUFFER - 1);
    assert c == file[..BUFFER - 1] && c[0] == '#';
    FirstBuffer(file, c, BUFFER - 1, ParseLines(Chunks(file)));
  }

  // ----- One line -----

  lemma Parts(file: string, text: string, rest: string)
    requires file == text + "\n" + rest
    ensures file[|text| + 1..] == rest
  {
  }

  /** What the first line, with what the rest of the file loads, makes of the whole. */
  predicate Loads(e: Entry, all: Loaded, rest: Loaded)
    requires Valid(e)
  {
    if !Accepted(e) then !all.ok
    else if e.Line? then all == Loaded(rest.ok, [e.r] + rest.records)
    else all == rest
  }

  lemma LineLoads(file: string, e: Entry, rest: string)
    requires Valid(e) && e.Line? && file == TextOf(e) + "\n" + rest
    ensures Loads(e, ParseLines(Chunks(file)), ParseLines(Chunks(rest)))
  {
    var text := TextOf(e);
    RecordFields(e.r, e.lower);
    if |text| <= FITS {
      FittingLine(file, e, rest);
    } else {
      assert text[1..9] == RecordText(e.r, e.lower)[1..9];
      LongLine(file, text, HeadOf(e.r), e.lower, rest);
    }
  }

  lemma FittingLine(file: string, e: Entry, rest: string)
    requires Valid(e) && e.Line? && file == TextOf(e) + "\n" + rest && |TextOf(e)| <= FITS
    ensures Loads(e, ParseLines(Chunks(file)), ParseLines(Chunks(rest)))
  {
    var text, s := TextOf(e), RecordText(e.r, e.lower);
    RecordFields(e.r, e.lower);
    assert NoNewline(text);
    ChunkOfLine(file, text, rest);
    Parts(file, text, rest);
    SolidNewline(e.rest);
    assert text + "\n" == s + (e.rest + "\n");
    RecordRead(text + "\n", e.r, e.lower, e.rest + "\n");
    FirstBuffer(file, text + "\n", |text| + 1, ParseLines(Chunks(file)));
  }

  /** A data record that does not fit ends the loading: either what fits of it does, or what is left of it. */
  lemma LongLine(file: string, text: string, head: seq<Byte>, lower: bool, rest: string)
    requires file == text + "\n" + rest && |text| > FITS && text[0] == ':' && Plain(text[1..])
    requires |head| == 4 && head[3] == 0 && text[1..9] == HexData(head, lower)
    ensures !ParseLines(Chunks(file)).ok
  {
    assert forall i :: 1 <= i < |text| ==> text[i] == text[1..][i - 1];
    assert NoNewline(text);
    ChunkOfLine(file, text, rest);
    var c, left := text[..BUFFER - 1], file[BUFFER - 1..];
    assert c[1..9] == text[1..9];
    KindRead(c, head, lower);
    FirstBuffer(file, c, BUFFER - 1, ParseLines(Chunks(file)));
    assert left[0] == if |text| == BUFFER - 1 then '\n' else text[BUFFER - 1];
    BadStart(left);
  }

  lemma TruncatedFails(file: string, e: Entry, rest: string)
    requires Valid(e) && e.Truncated? && file == TextOf(e) + "\n" + rest
    ensures !ParseLines(Chunks(file)).ok
  {
    var text, hex := TextOf(e), HexData(e.head, e.lower);
    HexIsPlain(hex, e.rest);
    if |text| <= FITS {
      ChunkOfLine(file, text, rest);
      SolidNewline(e.rest);
      assert text + "\n" == ":" + hex + (e.rest + "\n");
      TruncatedRead(text + "\n", e.head, e.lower, e.rest + "\n");
      FirstBuffer(file, text + "\n", |text| + 1, ParseLines(Chunks(file)));
    } else {
      LongLine(file, text, e.head, e.lower, rest);
    }
  }

  lemma HexIsPlain(hex: string, rest: string)
    requires AllHex(hex) && Plain(rest) && |hex| == 8
    ensures var text := ":" + hex + rest; NoNewline(text) && Plain(text[1..]) && text[1..9] == hex
  {
    assert (":" + hex + rest)[1..] == hex + rest;
  }

  lemma RemarkLoads(file: string, e: Entry, rest: string)
    requires Valid(e) && e.Remark? && file == TextOf(e) + "\n" + rest
    ensures ParseLines(Chunks(file)) == ParseLines(Chunks(rest))
  {
    var text := TextOf(e);
    ChunkOfLine(file, text, rest);
    Parts(file, text, rest);
    FirstBuffer(file, text + "\n", |text| + 1, ParseLines(Chunks(file)));
  }

  lemma OtherKindFails(file: string, e: Entry, rest: string)
    requires Valid(e) && e.OtherKind? && file == TextOf(e) + "\n" + rest
    ensures !ParseLines(Chunks(file)).ok
  {
    HeadFirst(file, HexData(e.head, e.lower), e.rest, rest);
    var c := NineCharacters(file);
    KindRead(c, e.head, e.lower);
    FirstBuffer(file, c, |c|, ParseLines(Chunks(file)));
  }

  lemma HeadFirst(file: string, hex: string, a: string, b: string)
    requires |hex| == 8 && file == ":" + hex + a + "\n" + b
    ensures file[0] == ':' && file[1..9] == hex
  {
  }

  lemma FirstLine(file: string, e: Entry, rest: string)
    requires Valid(e) && file == TextOf(e) + "\n" + rest
    ensures Loads(e, ParseLines(Chunks(file)), ParseLines(Chunks(rest)))
  {
    match e {
      case Line(_, _, _) => LineLoads(file, e, rest);
      case Truncated(_, _, _) => TruncatedFails(file, e, rest);
      case Remark(_) => RemarkLoads(file, e, rest);
      case OtherKind(_, _, _) => OtherKindFails(file, e, rest);
      case Stray(text) => BadStart(file);
    }
  }

  lemma EndRead(c: string)
    requires |c| >= 9 && c[0] == ':' && AllHex(c[1..9]) && c[1..9][6] == '0' && c[1..9][7] == '1'
    ensures ParseLine(c) == EndMark
  {
    assert c[8] == '1' && c[7] == '0';
    StrippedStarts(c, 9);
    var s := Stripped(c);
    assert s[1..9] == c[1..9];
  }

  lemma EndLoads(end: string)
    requires Ends(end)
    ensures ParseLines(Chunks(end)) == Loaded(true, [])
  {
    if end != [] {
      var c := NineCharacters(end);
      assert c[1..9][6] == end[7] && c[1..9][7] == end[8];
      EndRead(c);
      FirstBuffer(end, c, |c|, ParseLines(Chunks(end)));
    }
  }

  // ----- The whole file -----

  /** A file is loaded if and only if it has only records and comments that are accepted, and then just its records are
      loaded, in order. */
  lemma {:induction false} LoadsIff(entries: seq<Entry>, end: string)
    requires AllValid(entries) && Ends(end)
    ensures var loaded := ParseLines(Chunks(FileOf(entries, end)));
            (loaded.ok <==> AllAccepted(entries)) && (loaded.ok ==> loaded.records == RecordsOf(entries))
    decreases |entries|
  {
    if entries == [] {
      EndLoads(end);
    } else {
      var tail := entries[1..];
      LoadsIff(tail, end);
      FirstLine(FileOf(entries, end), entries[0], FileOf(tail, end));
      LoadsMore(entries, tail, ParseLines(Chunks(FileOf(entries, end))), ParseLines(Chunks(FileOf(tail, end))));
    }
  }

  lemma LoadsMore(entries: seq<Entry>, tail: seq<Entry>, all: Loaded, rest: Loaded)
    requires entries != [] && tail == entries[1..] && AllValid(entries) && Loads(entries[0], all, rest)
    requires (rest.ok <==> AllAccepted(tail)) && (rest.ok ==> rest.records == RecordsOf(tail))
    ensures (all.ok <==> AllAccepted(entries)) && (all.ok ==> all.records == RecordsOf(entries))
  {
    assert forall i :: 1 <= i < |entries| ==> entries[i] == tail[i - 1];
    assert forall i :: 0 <= i < |tail| ==> tail[i] == entries[i + 1];
    assert [] + RecordsOf(tail) == RecordsOf(tail);
  }

  /** With its checksum and nothing else a record is accepted if and only if it has at most 249 bytes. */
  lemma AcceptedIff(r: Record, checksum: Byte, lower: bool)
    requires IsRecord(r)
    ensures var e := Line(r, lower, HexData([checksum], lower));
            Valid(e) && (Accepted(e) <==> |r.data| <= 249)
  {
    RecordFields(r, lower);
    SolidAtLeast(HexData([checksum], lower), 2);
  }

  /** A file with one record of 250 bytes fails to load, whatever ends it. */
  lemma LongRecord(r: Record, checksum: Byte, lower: bool, end: string)
    requires r.off < 0x1_0000 && |r.data| == 250 && Ends(end)
    ensures var e := Line(r, lower, HexData([checksum], lower));
            Valid(e) && !ParseLines(Chunks(FileOf([e], end))).ok
  {
    AcceptedIff(r, checksum, lower);
    var entries := [Line(r, lower, HexData([checksum], lower))];
    assert !Accepted(entries[0]);
    LoadsIff(entries, end);
  }

  /** Loading a file whose records do not overlap and writing the image to the device leaves exactly what those records
      say, if and only if the file has only accepted records and comments; else it is refused. */
  method LoadAndWrite(file: string, ghost entries: seq<Entry>, ghost end: string) returns (ok: bool, mem: Memory)
    requires AllValid(entries) && Ends(end) && file == FileOf(entries, end) && AddressDisjoint(RecordsOf(entries))
    ensures ok <==> AllAccepted(entries)
    ensures ok ==> mem == Written(RecordsOf(entries))
  {
    LoadsIff(entries, end);
    MergingPreservesImage(RecordsOf(entries));
    var image;
    ok, image := LoadImage(file);
    mem := map[];
    if ok {
      mem := image.WriteImage();
    }
  }
}
