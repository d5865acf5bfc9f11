/** Firmware images in Intel HEX: parsing the lines, merging contiguous records into blocks, and
    writing the blocks to the device, newest first. */
module IntelHex {
  import opened Lists

  type Byte = x: nat | x < 256

  /** One data record, or one block of merged records. */
  datatype Record = Record(off: nat, data: seq<Byte>)

  /** Device memory. */
  type Memory = map<nat, Byte>

  /** The largest block to which a record is still appended. */
  const MERGE_LIMIT := 512

  predicate Covers(r: Record, a: nat) {
    r.off <= a < r.off + |r.data|
  }

  function ByteAt(r: Record, a: nat): Byte
    requires Covers(r, a)
  {
    r.data[a - r.off]
  }

  // ----- Merging -----

  /** The block list, newest first, after one more record. */
  function Merge(blocks: seq<Record>, r: Record): seq<Record> {
    if blocks != [] && r.off == blocks[0].off + |blocks[0].data| && |blocks[0].data| < MERGE_LIMIT
    then [Record(blocks[0].off, blocks[0].data + r.data)] + blocks[1..]
    else [r] + blocks
  }

  function Blocks(records: seq<Record>): seq<Record> {
    if records == [] then []
    else Merge(Blocks(records[..|records| - 1]), records[|records| - 1])
  }

  /** Memory after a transfer of `r`. */
  function Poke(mem: Memory, r: Record): Memory {
    mem + map a: nat | r.off <= a < r.off + |r.data| && Covers(r, a) :: ByteAt(r, a)
  }

  /** Memory after transferring the records in order. */
  function Written(records: seq<Record>): Memory {
    if records == [] then map[] else Poke(Written(records[..|records| - 1]), records[|records| - 1])
  }

  /** The blocks of a loaded image. */
  class Image {
    var blocks: seq<Record>

    constructor ()
      ensures blocks == []
    {
      blocks := [];
    }

    /** The merging part of ezusb_load_image, for one data record. */
    method AddRecord(r: Record)
      requires |r.data| < 256 && (blocks != [] ==> |blocks[0].data| <= 766)
      modifies this
      ensures blocks == Merge(old(blocks), r) && |blocks[0].data| <= 766
    {
      if blocks != [] && r.off == blocks[0].off + |blocks[0].data| && |blocks[0].data| < 512 {
        blocks := blocks[0 := Record(blocks[0].off, blocks[0].data + r.data)];
        assert blocks == Merge(old(blocks), r);
      } else {
        blocks := [r] + blocks;
      }
    }

    /** ezusb_write_image: one transfer for each block, in list order. */
    method WriteImage() returns (mem: Memory)
      ensures mem == Written(blocks)
    {
      mem := map[];
      for i := 0 to |blocks|
        invariant mem == Written(blocks[..i])
      {
        assert blocks[..i + 1][..i] == blocks[..i];
        mem := Poke(mem, blocks[i]);
      }
      assert blocks[..|blocks|] == blocks;
    }
  }

  // ----- What memory holds -----

  /** The byte of the first record that covers `a`. */
  function FirstByte(records: seq<Record>, a: nat): Option<Byte> {
    if records == [] then None
    else if Covers(records[0], a) then Some(ByteAt(records[0], a))
    else FirstByte(records[1..], a)
  }

  /** The byte of the last record that covers `a`. */
  function LastByte(records: seq<Record>, a: nat): Option<Byte> {
    if records == [] then None
    else if Covers(records[|records| - 1], a) then Some(ByteAt(records[|records| - 1], a))
    else LastByte(records[..|records| - 1], a)
  }

  function Lookup(mem: Memory, a: nat): Option<Byte> {
    if a in mem then Some(mem[a]) else None
  }

  lemma {:induction false} WrittenHolds(records: seq<Record>, a: nat)
    ensures Lookup(Written(records), a) == LastByte(records, a)
  {
    if records != [] {
      WrittenHolds(records[..|records| - 1], a);
    }
  }

  lemma {:induction false} LastByteCons(r: Record, rest: seq<Record>, a: nat)
    ensures LastByte([r] + rest, a) ==
            if LastByte(rest, a).Some? then LastByte(rest, a) else if Covers(r, a) then Some(ByteAt(r, a)) else None
  {
    if rest == [] {
      assert [r] + rest == [r];
      assert LastByte([r], a) == if Covers(r, a) then Some(ByteAt(r, a)) else LastByte([r][..0], a);
    } else {
      LastByteCons(r, rest[..|rest| - 1], a);
      assert ([r] + rest)[..|rest|] == [r] + rest[..|rest| - 1];
    }
  }

  lemma {:induction false} FirstByteSnoc(records: seq<Record>, r: Record, a: nat)
    ensures FirstByte(records + [r], a) ==
            if FirstByte(records, a).Some? then FirstByte(records, a)
            else if Covers(r, a) then Some(ByteAt(r, a))
            else None
  {
    if records == [] {
      assert records + [r] == [r];
      assert FirstByte([r], a) == if Covers(r, a) then Some(ByteAt(r, a)) else FirstByte([r][1..], a);
    } else {
      FirstByteSnoc(records[1..], r, a);
      assert (records + [r])[1..] == records[1..] + [r];
    }
  }

  /** Written out in list order, the blocks leave at each address the byte of the first record of the file that covers
      it. */
  lemma {:induction false} BlocksHoldFirst(records: seq<Record>, a: nat)
    ensures LastByte(Blocks(records), a) == FirstByte(records, a)
  {
    if records != [] {
      var init, r := records[..|records| - 1], records[|records| - 1];
      var blocks := Blocks(init);
      BlocksHoldFirst(init, a);
      FirstByteSnoc(init, r, a);
      assert init + [r] == records;
      if blocks != [] && r.off == blocks[0].off + |blocks[0].data| && |blocks[0].data| < MERGE_LIMIT {
        LastByteCons(Record(blocks[0].off, blocks[0].data + r.data), blocks[1..], a);
        LastByteCons(blocks[0], blocks[1..], a);
        assert blocks == [blocks[0]] + blocks[1..];
      } else {
        LastByteCons(r, blocks, a);
      }
    }
  }

  lemma {:induction false} SameMemory(m: Memory, m': Memory)
    ensures m == m' <==> forall a: nat :: Lookup(m, a) == Lookup(m', a)
  {
    if forall a: nat :: Lookup(m, a) == Lookup(m', a) {
      forall a: nat
        ensures a in m <==> a in m'
        ensures a in m ==> m[a] == m'[a]
      {
        assert Lookup(m, a) == Lookup(m', a);
      }
      assert m == m';
    }
  }

  lemma {:induction false} HeldBytes(records: seq<Record>, a: nat)
    ensures Lookup(Written(Blocks(records)), a) == FirstByte(records, a)
    ensures Lookup(Written(records), a) == LastByte(records, a)
  {
    WrittenHolds(Blocks(records), a);
    WrittenHolds(records, a);
    BlocksHoldFirst(records, a);
  }

  /** At every address the first and the last record that write it agree on its byte. */
  ghost predicate WritersAgree(records: seq<Record>) {
    forall a: nat :: AgreeAt(records, a)
  }

  predicate AgreeAt(records: seq<Record>, a: nat) {
    FirstByte(records, a) == LastByte(records, a)
  }

  /** Merging preserves the image if and only if, at every address, the first and the last record that
      write it agree on its byte. */
  lemma {:induction false} MergingPreservesImageIff(records: seq<Record>)
    ensures Written(Blocks(records)) == Written(records) <==> WritersAgree(records)
  {
    var merged, direct := Written(Blocks(records)), Written(records);
    forall a: nat
      ensures AgreeAt(records, a) <==> Lookup(merged, a) == Lookup(direct, a)
    {
      HeldBytes(records, a);
    }
    SameMemory(merged, direct);
  }

  ghost predicate AddressDisjoint(records: seq<Record>) {
    forall i, j, a: nat :: 0 <= i < j < |records| ==> !(Covers(records[i], a) && Covers(records[j], a))
  }

  lemma {:induction false} OneWriter(records: seq<Record>, a: nat, i: nat)
    requires i < |records| && Covers(records[i], a)
    requires forall j :: 0 <= j < |records| && j != i ==> !Covers(records[j], a)
    ensures FirstByte(records, a) == LastByte(records, a) == Some(ByteAt(records[i], a))
    decreases |records|
  {
    if i > 0 {
      OneWriter(records[1..], a, i - 1);
    }
    if i < |records| - 1 {
      OneWriter(records[..|records| - 1], a, i);
    }
  }

  lemma {:induction false} NoWriter(records: seq<Record>, a: nat)
    requires forall j :: 0 <= j < |records| ==> !Covers(records[j], a)
    ensures FirstByte(records, a) == LastByte(records, a) == None
    decreases |records|
  {
    if records != [] {
      NoWriter(records[1..], a);
      NoWriter(records[..|records| - 1], a);
    }
  }

  /** In particular it does for records that write disjoint addresses. */
  lemma {:induction false} MergingPreservesImage(records: seq<Record>)
    requires AddressDisjoint(records)
    ensures Written(Blocks(records)) == Written(records)
  {
    forall a: nat
      ensures AgreeAt(records, a)
    {
      if i :| 0 <= i < |records| && Covers(records[i], a) {
        OneWriter(records, a, i);
      } else {
        NoWriter(records, a);
      }
    }
    MergingPreservesImageIff(records);
  }

  /** A record that overwrites an earlier one is lost. */
  lemma OverwriteIsLost()
    ensures var records := [Record(0, [1]), Record(0, [2])];
            Written(Blocks(records)) != Written(records)
  {
    var records := [Record(0, [1]), Record(0, [2])];
    assert FirstByte(records, 0) == Some(1) && LastByte(records, 0) == Some(2);
    assert !AgreeAt(records, 0);
    MergingPreservesImageIff(records);
  }

  /** No block outgrows its 16-bit length. */
  lemma {:induction false} BlockLengths(records: seq<Record>)
    requires forall i :: 0 <= i < |records| ==> |records[i].data| < 256
    ensures forall i :: 0 <= i < |Blocks(records)| ==> |Blocks(records)[i].data| <= 766
  {
    if records != [] {
      BlockLengths(records[..|records| - 1]);
    }
  }

  // ----- Lines -----

  /** What ezusb_load_image makes of a line. `NotHex` stands for lines with something else in place of a
      hexadecimal digit, or too short for the digits the code reads; it computes from whatever is there. */
  datatype Line = Comment | InvalidPrefix | EndMark | Unsupported | NotEnoughData | NotHex | Data(record: Record)

  predicate IsHex(c: char) {
    '0' <= c <= '9' || 'a' <= c <= 'f' || 'A' <= c <= 'F'
  }

  /** hex. */
  function Hex(c: char): (v: nat)
    requires IsHex(c)
    ensures v < 16
  {
    if 'a' <= c <= 'f' then c as int - 'a' as int + 10
    else if 'A' <= c <= 'F' then c as int - 'A' as int + 10
    else c as int - '0' as int
  }

  predicate IsSpace(c: char) {
    c == ' ' || ('\t' <= c <= '\r')
  }

  function Stripped(s: string): string {
    if s != [] && IsSpace(s[|s| - 1]) then Stripped(s[..|s| - 1]) else s
  }

  predicate AllHex(s: string) {
    forall i :: 0 <= i < |s| ==> IsHex(s[i])
  }

  function Pairs(s: string): seq<Byte>
    requires AllHex(s) && |s| % 2 == 0
  {
    if s == [] then [] else [16 * Hex(s[0]) + Hex(s[1])] + Pairs(s[2..])
  }

  function ParseLine(buf: string): Line {
    if buf == [] then InvalidPrefix
    else if buf[0] == '#' then Comment
    else if buf[0] != ':' then InvalidPrefix
    else
      var s := Stripped(buf);
      if |s| < 9 || !AllHex(s[1..9]) then NotHex
      else
        var len := 16 * Hex(s[1]) + Hex(s[2]);
        var off := 4096 * Hex(s[3]) + 256 * Hex(s[4]) + 16 * Hex(s[5]) + Hex(s[6]);
        var kind := 16 * Hex(s[7]) + Hex(s[8]);
        if kind == 1 then EndMark
        else if kind != 0 then Unsupported
        else if |s| >= 11 && len * 2 > |s| - 11 then NotEnoughData
        else if |s| < 9 + 2 * len || !AllHex(s[9..9 + 2 * len]) then NotHex
        else Data(Record(off, Pairs(s[9..9 + 2 * len])))
  }

  datatype Loaded = Loaded(ok: bool, records: seq<Record>)

  /** The data records the lines yield up to the end mark, the end of the file or the first bad line. */
  function ParseLines(lines: seq<string>): Loaded {
    if lines == [] then Loaded(true, [])
    else match ParseLine(lines[0])
         case Comment => ParseLines(lines[1..])
         case EndMark => Loaded(true, [])
         case Data(r) => var rest := ParseLines(lines[1..]); Loaded(rest.ok, [r] + rest.records)
         case _ => Loaded(false, [])
  }

  lemma PairsLength(s: string)
    requires AllHex(s) && |s| % 2 == 0
    ensures |Pairs(s)| == |s| / 2
  {
    if s != [] {
      PairsLength(s[2..]);
    }
  }

  // ----- The file -----

  /** `char buf[512]`. */
  const BUFFER := 512

  /** What `fgets` takes from the rest of the file when `room` characters fit: at most one line. */
  function Chunk(s: string, room: nat): (c: string)
    ensures |c| <= |s| && |c| <= room && (s != [] && room > 0 ==> c != []) && c == s[..|c|]
  {
    s[..ChunkLength(s, 0, room)]
  }

  /** The characters taken from `i` on. */
  function ChunkLength(s: string, i: nat, room: nat): (n: nat)
    requires i <= |s|
    ensures i + n <= |s| && n <= room && (i < |s| && room > 0 ==> n > 0)
    decreases room
  {
    if i == |s| || room == 0 then 0
    else if s[i] == '\n' then 1
    else 1 + ChunkLength(s, i + 1, room - 1)
  }

  /** The file as the buffer cuts it. */
  function Chunks(file: string): seq<string>
    decreases |file|
  {
    if file == [] then [] else var c := Chunk(file, BUFFER - 1); [c] + Chunks(file[|c|..])
  }

  method Fgets(s: string, room: nat) returns (c: string)
    ensures c == Chunk(s, room)
  {
    var n := 0;
    while n < |s| && n < room
      invariant n <= |s| && n <= room && ChunkLength(s, 0, room) == n + ChunkLength(s, n, room - n)
    {
      n := n + 1;
      if s[n - 1] == '\n' {
        break;
      }
    }
    c := s[..n];
  }

  /** `done` are the records of the file before `rest`, where nothing ended the loop. */
  ghost predicate ParsedSoFar(file: string, rest: string, done: seq<Record>) {
    var tail := ParseLines(Chunks(rest));
    ParseLines(Chunks(file)) == Loaded(tail.ok, done + tail.records)
  }

  lemma ParseOneMore(file: string, rest: string, done: seq<Record>)
    requires rest != [] && ParsedSoFar(file, rest, done)
    ensures var c := Chunk(rest, BUFFER - 1);
            match ParseLine(c)
            case Comment => ParsedSoFar(file, rest[|c|..], done)
            case EndMark => ParseLines(Chunks(file)) == Loaded(true, done)
            case Data(r) => ParsedSoFar(file, rest[|c|..], done + [r])
            case _ => ParseLines(Chunks(file)) == Loaded(false, done)
  {
    var c := Chunk(rest, BUFFER - 1);
    assert Chunks(rest)[0] == c && Chunks(rest)[1..] == Chunks(rest[|c|..]);
    assert done + [] == done;
    if ParseLine(c).Data? {
      var r, tail := ParseLine(c).record, ParseLines(Chunks(rest[|c|..])).records;
      assert done + ([r] + tail) == (done + [r]) + tail;
    }
  }

  /** ezusb_load_image over the characters of the file. */
  method LoadImage(file: string) returns (ok: bool, image: Image)
    ensures fresh(image)
    ensures ok == ParseLines(Chunks(file)).ok && image.blocks == Blocks(ParseLines(Chunks(file)).records)
  {
    image := new Image();
    ghost var done: seq<Record> := [];
    var rest := file;
    assert [] + ParseLines(Chunks(file)).records == ParseLines(Chunks(file)).records;
    while rest != []
      invariant fresh(image) && image.blocks == Blocks(done) && (image.blocks != [] ==> |image.blocks[0].data| <= 766)
      invariant ParsedSoFar(file, rest, done)
      decreases |rest|
    {
      ParseOneMore(file, rest, done);
      var buf := Fgets(rest, BUFFER - 1);
      rest := rest[|buf|..];
      var line := ParseLine(buf);
      if line.Comment? {
        continue;
      }
      if line.EndMark? {
        return true, image;
      }
      if !line.Data? {
        return false, image;
      }
      DataIsShort(buf);
      BlocksSnoc(done, line.record);
      image.AddRecord(line.record);
      done := done + [line.record];
    }
    assert Chunks(rest) == [] && done + [] == done;
    return true, image;
  }

  lemma DataIsShort(buf: string)
    requires ParseLine(buf).Data?
    ensures |ParseLine(buf).record.data| < 256
  {
    var s := Stripped(buf);
    PairsLength(s[9..9 + 2 * (16 * Hex(s[1]) + Hex(s[2]))]);
  }

  lemma BlocksSnoc(records: seq<Record>, r: Record)
    ensures Blocks(records + [r]) == Merge(Blocks(records), r)
  {
    assert (records + [r])[..|records|] == records;
  }
}
