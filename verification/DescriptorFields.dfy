/** The fields of descriptors are what the unpacker stores into the members of their C structures. */
module DescriptorFields {
  import opened Descriptors
  import opened Unpack

  /** Stores of the first `k` values as single bytes, to `dp` and up. */
  function ByteCells(values: seq<nat>, k: nat, dp: nat): seq<Cell>
    requires k <= |values|
  {
    if k == 0 then [] else ByteCells(values, k - 1, dp) + [Cell(dp + k - 1, 1, values[k - 1])]
  }

  function Stored(values: seq<nat>, dp: nat): seq<Cell> {
    ByteCells(values, |values|, dp)
  }

  function Word(low: nat, high: nat): nat {
    low + 256 * high
  }

  /** `n` more bytes of source and destination are there. */
  predicate HasRoom(m: Machine, n: nat, src: seq<Byte>) {
    m.sp + m.left == |src| && n <= m.left && n <= m.room && m.dp + n <= m.end
  }

  function Moved(m: Machine, n: nat, cells: seq<Cell>): Machine
    requires n <= m.left && n <= m.room
  {
    Machine(m.sp + n, m.left - n, m.dp + n, m.room - n, m.cells + cells, m.end)
  }

  lemma RunByte(format: string, i: nat, m: Machine, src: seq<Byte>, littleCpu: bool, out: Outcome)
    requires i < |format| && format[i] == 'b' && HasRoom(m, 1, src) && Run(format, i, m, src, littleCpu) == out
    ensures Run(format, i + 1, Moved(m, 1, [Cell(m.dp, 1, src[m.sp])]), src, littleCpu) == out
  {
    NextByte(m, src, littleCpu);
    RunStep(format, i, m, src, littleCpu, out);
  }

  lemma NextByte(m: Machine, src: seq<Byte>, littleCpu: bool)
    requires HasRoom(m, 1, src)
    ensures FateAt('b', m.sp, m.left, m.dp, m.room, |src|, m.end) == Done
    ensures Next('b', m, src, littleCpu) == Moved(m, 1, [Cell(m.dp, 1, src[m.sp])])
  {
    assert LittleEndian(src, m.sp, 1) == src[m.sp];
  }

  lemma RunWord(format: string, i: nat, m: Machine, src: seq<Byte>, littleCpu: bool, out: Outcome)
    requires i < |format| && format[i] == 'w' && HasRoom(m, 2, src) && m.dp % 2 == 0
    requires Run(format, i, m, src, littleCpu) == out
    ensures Run(format, i + 1, Moved(m, 2, [Cell(m.dp, 2, Word(src[m.sp], src[m.sp + 1]))]), src, littleCpu) == out
  {
    NextWord(m, src, littleCpu);
    RunStep(format, i, m, src, littleCpu, out);
  }

  lemma NextWord(m: Machine, src: seq<Byte>, littleCpu: bool)
    requires HasRoom(m, 2, src) && m.dp % 2 == 0
    ensures FateAt('w', m.sp, m.left, m.dp, m.room, |src|, m.end) == Done
    ensures Next('w', m, src, littleCpu) == Moved(m, 2, [Cell(m.dp, 2, Word(src[m.sp], src[m.sp + 1]))])
  {
    assert LittleEndian(src, m.sp + 1, 1) == src[m.sp + 1];
    And1IsModulo(m.dp);
  }

  /** `k` of the characters are bytes, and the source has the values. */
  predicate BytesAhead(format: string, i: nat, values: seq<nat>, k: nat, src: seq<Byte>, sp: nat) {
    i + k <= |format| && k <= |values| && sp + k <= |src| &&
    forall j :: 0 <= j < k ==> ByteAhead(format, i, values, src, sp, j)
  }

  predicate ByteAhead(format: string, i: nat, values: seq<nat>, src: seq<Byte>, sp: nat, j: nat) {
    i + j < |format| && j < |values| && sp + j < |src| && format[i + j] == 'b' && src[sp + j] == values[j]
  }

  lemma {:induction false} RunBytes(format: string, i: nat, values: seq<nat>, k: nat, m: Machine, src: seq<Byte>,
                                    littleCpu: bool, out: Outcome)
    requires BytesAhead(format, i, values, k, src, m.sp) && HasRoom(m, k, src)
    requires Run(format, i, m, src, littleCpu) == out
    ensures Run(format, i + k, Moved(m, k, ByteCells(values, k, m.dp)), src, littleCpu) == out
  {
    if k == 0 {
      assert m.cells + [] == m.cells;
    } else {
      assert ByteAhead(format, i, values, src, m.sp, k - 1);
      RunBytes(format, i, values, k - 1, m, src, littleCpu, out);
      RunLast(format, i, values, k, m, src, littleCpu, out);
    }
  }

  lemma RunLast(format: string, i: nat, values: seq<nat>, k: nat, m: Machine, src: seq<Byte>, littleCpu: bool,
                out: Outcome)
    requires 0 < k <= |values| && i + k <= |format| && HasRoom(m, k, src)
    requires format[i + k - 1] == 'b' && src[m.sp + k - 1] == values[k - 1]
    requires Run(format, i + k - 1, Moved(m, k - 1, ByteCells(values, k - 1, m.dp)), src, littleCpu) == out
    ensures Run(format, i + k, Moved(m, k, ByteCells(values, k, m.dp)), src, littleCpu) == out
  {
    MovedMore(values, k, m);
    RunByte(format, i + k - 1, Moved(m, k - 1, ByteCells(values, k - 1, m.dp)), src, littleCpu, out);
  }

  lemma MovedMore(values: seq<nat>, k: nat, m: Machine)
    requires 0 < k <= |values| && k <= m.left && k <= m.room
    ensures Moved(m, k, ByteCells(values, k, m.dp)) ==
            Moved(Moved(m, k - 1, ByteCells(values, k - 1, m.dp)), 1, [Cell(m.dp + k - 1, 1, values[k - 1])])
  {
    var before, last := ByteCells(values, k - 1, m.dp), [Cell(m.dp + k - 1, 1, values[k - 1])];
    assert m.cells + (before + last) == (m.cells + before) + last;
  }

  /** The locals behind the bytes that a format starts with. */
  function BehindFirst(values: seq<nat>, n: nat, dest: nat, destLen: nat): Machine
    requires |values| <= n && |values| <= destLen
  {
    var k := |values|;
    Machine(k, n - k, dest + k, destLen - k, Stored(values, dest), dest + destLen)
  }

  lemma RunFirst(format: string, values: seq<nat>, src: seq<Byte>, dest: nat, destLen: nat, littleCpu: bool,
                 out: Outcome)
    requires BytesAhead(format, 0, values, |values|, src, 0) && |values| <= destLen
    requires Unpacked(format, src, dest, destLen, littleCpu) == out
    ensures Run(format, |values|, BehindFirst(values, |src|, dest, destLen), src, littleCpu) == out
  {
    var m := Start(src, dest, destLen);
    RunBytes(format, 0, values, |values|, m, src, littleCpu, out);
    assert m.cells + Stored(values, dest) == Stored(values, dest);
    assert Moved(m, |values|, Stored(values, dest)) == BehindFirst(values, |src|, dest, destLen);
  }

  /** Bytes, a word and bytes again, at an even address. */
  lemma RunByteWordBytes(format: string, a: seq<nat>, b: seq<nat>, src: seq<Byte>, dest: nat, destLen: nat,
                         littleCpu: bool)
    requires var w, n := |a|, |a| + 2 + |b|;
             |format| == n - 1 && n <= destLen && n <= |src| && w % 2 == 0 && dest % 2 == 0 && format[w] == 'w' &&
             BytesAhead(format, 0, a, w, src, 0) && BytesAhead(format, w + 1, b, |b|, src, w + 2)
    ensures var w, n := |a|, |a| + 2 + |b|;
            Unpacked(format, src, dest, destLen, littleCpu) ==
            Success(n, Stored(a, dest) + [Cell(dest + w, 2, Word(src[w], src[w + 1]))] + Stored(b, dest + w + 2))
  {
    var w, out := |a|, Unpacked(format, src, dest, destLen, littleCpu);
    RunFirst(format, a, src, dest, destLen, littleCpu, out);
    assert (dest + w) % 2 == 0;
    RunWordBytes(format, w, b, BehindFirst(a, |src|, dest, destLen), src, littleCpu, out);
  }

  lemma RunWordBytes(format: string, w: nat, b: seq<nat>, m: Machine, src: seq<Byte>, littleCpu: bool, out: Outcome)
    requires w + 1 + |b| == |format| && HasRoom(m, 2 + |b|, src) && m.dp % 2 == 0 && format[w] == 'w'
    requires BytesAhead(format, w + 1, b, |b|, src, m.sp + 2)
    requires Run(format, w, m, src, littleCpu) == out
    ensures out == Success(m.sp + 2 + |b|, m.cells + [Cell(m.dp, 2, Word(src[m.sp], src[m.sp + 1]))] +
                                           Stored(b, m.dp + 2))
  {
    RunWord(format, w, m, src, littleCpu, out);
    var m' := Moved(m, 2, [Cell(m.dp, 2, Word(src[m.sp], src[m.sp + 1]))]);
    RunBytes(format, w + 1, b, |b|, m', src, littleCpu, out);
  }

  /** A field that the rest of the source does not hold ends the run. */
  lemma RunStops(format: string, i: nat, m: Machine, src: seq<Byte>, littleCpu: bool, out: Outcome)
    requires i < |format| && m.left < Width(format[i]) && Run(format, i, m, src, littleCpu) == out
    ensures out == NoResources(m.cells)
  {
    RunStep(format, i, m, src, littleCpu, out);
  }

  // ----- The three descriptors -----

  function InterfaceMembers(d: InterfaceDesc): seq<nat> {
    [d.bLength, d.bDescriptorType, d.bInterfaceNumber, d.bAlternateSetting, d.bNumEndpoints,
     d.bInterfaceClass, d.bInterfaceSubClass, d.bInterfaceProtocol, d.iInterface]
  }

  lemma InterfaceFormat(format: string, members: seq<nat>, buf: seq<Byte>, dest: nat, destLen: nat, littleCpu: bool)
    requires |format| == |members| <= destLen && BytesAhead(format, 0, members, |members|, buf, 0)
    ensures Unpacked(format, buf, dest, destLen, littleCpu) == Success(|members|, Stored(members, dest))
  {
    RunFirst(format, members, buf, dest, destLen, littleCpu, Unpacked(format, buf, dest, destLen, littleCpu));
  }

  lemma InterfaceStored(buf: seq<Byte>, dest: nat, destLen: nat, littleCpu: bool)
    requires |buf| >= INTERFACE_SIZE && destLen >= INTERFACE_SIZE
    ensures Unpacked("bbbbbbbbb", buf, dest, destLen, littleCpu) ==
            Success(INTERFACE_SIZE, Stored(InterfaceMembers(InterfaceOf(buf, 0)), dest))
  {
    InterfaceFormat("bbbbbbbbb", InterfaceMembers(InterfaceOf(buf, 0)), buf, dest, destLen, littleCpu);
  }

  function EndpointStart(d: EndpointDesc): seq<nat> {
    [d.bLength, d.bDescriptorType, d.bEndpointAddress, d.bmAttributes]
  }

  function AudioEnd(d: EndpointDesc): seq<nat> {
    [d.bInterval, d.bRefresh, d.bSynchAddress]
  }

  /** The fields that every endpoint descriptor has. In one without the audio fields these stay the zeroes with which
      the structure is allocated. */
  lemma EndpointStored(buf: seq<Byte>, dest: nat, destLen: nat, littleCpu: bool)
    requires dest % 2 == 0 && |buf| >= ENDPOINT_SIZE && destLen >= ENDPOINT_SIZE
    ensures var d := EndpointOf(buf, 0);
            Unpacked("bbbbwb", buf, dest, destLen, littleCpu) ==
            Success(ENDPOINT_SIZE, Stored(EndpointStart(d), dest) + [Cell(dest + 4, 2, d.wMaxPacketSize)] +
                                   Stored([d.bInterval], dest + 6))
    ensures buf[0] < ENDPOINT_AUDIO_SIZE ==> EndpointOf(buf, 0).bRefresh == 0 && EndpointOf(buf, 0).bSynchAddress == 0
  {
    EndpointFormat("bbbbwb", buf, dest, destLen, littleCpu);
  }

  lemma EndpointFormat(format: string, buf: seq<Byte>, dest: nat, destLen: nat, littleCpu: bool)
    requires |format| == 6 && format[0] == format[1] == format[2] == format[3] == format[5] == 'b' && format[4] == 'w'
    requires dest % 2 == 0 && |buf| >= ENDPOINT_SIZE && destLen >= ENDPOINT_SIZE
    ensures var d := EndpointOf(buf, 0);
            Unpacked(format, buf, dest, destLen, littleCpu) ==
            Success(ENDPOINT_SIZE, Stored(EndpointStart(d), dest) + [Cell(dest + 4, 2, d.wMaxPacketSize)] +
                                   Stored([d.bInterval], dest + 6))
  {
    var d := EndpointOf(buf, 0);
    EndpointAhead(format, buf);
    assert ByteAhead(format, 5, [d.bInterval], buf, 6, 0);
    RunByteWordBytes(format, EndpointStart(d), [d.bInterval], buf, dest, destLen, littleCpu);
  }

  lemma EndpointAhead(format: string, buf: seq<Byte>)
    requires |format| >= 4 && format[0] == format[1] == format[2] == format[3] == 'b' && |buf| >= ENDPOINT_SIZE
    ensures BytesAhead(format, 0, EndpointStart(EndpointOf(buf, 0)), 4, buf, 0)
  {
  }

  lemma AudioAhead(format: string, buf: seq<Byte>)
    requires |format| == 8 && format[5] == format[6] == format[7] == 'b'
    requires |buf| >= ENDPOINT_AUDIO_SIZE && buf[0] >= ENDPOINT_AUDIO_SIZE
    ensures BytesAhead(format, 5, AudioEnd(EndpointOf(buf, 0)), 3, buf, 6)
  {
  }

  lemma AudioFormat(format: string, buf: seq<Byte>, dest: nat, destLen: nat, littleCpu: bool)
    requires |format| == 8 && format[0] == format[1] == format[2] == format[3] == 'b' && format[4] == 'w'
    requires format[5] == format[6] == format[7] == 'b'
    requires dest % 2 == 0 && |buf| >= ENDPOINT_AUDIO_SIZE && destLen >= ENDPOINT_AUDIO_SIZE
    requires buf[0] >= ENDPOINT_AUDIO_SIZE
    ensures var d := EndpointOf(buf, 0);
            Unpacked(format, buf, dest, destLen, littleCpu) ==
            Success(ENDPOINT_AUDIO_SIZE, Stored(EndpointStart(d), dest) + [Cell(dest + 4, 2, d.wMaxPacketSize)] +
                                         Stored(AudioEnd(d), dest + 6))
  {
    var d := EndpointOf(buf, 0);
    EndpointAhead(format, buf);
    AudioAhead(format, buf);
    RunByteWordBytes(format, EndpointStart(d), AudioEnd(d), buf, dest, destLen, littleCpu);
  }

  /** All fields of an endpoint descriptor that has the two audio ones. */
  lemma AudioEndpointStored(buf: seq<Byte>, dest: nat, destLen: nat, littleCpu: bool)
    requires dest % 2 == 0 && |buf| >= ENDPOINT_AUDIO_SIZE && destLen >= ENDPOINT_AUDIO_SIZE
    requires buf[0] >= ENDPOINT_AUDIO_SIZE
    ensures var d := EndpointOf(buf, 0);
            Unpacked("bbbbwbbb", buf, dest, destLen, littleCpu) ==
            Success(ENDPOINT_AUDIO_SIZE, Stored(EndpointStart(d), dest) + [Cell(dest + 4, 2, d.wMaxPacketSize)] +
                                         Stored(AudioEnd(d), dest + 6))
  {
    AudioFormat("bbbbwbbb", buf, dest, destLen, littleCpu);
  }

  function ConfigEnd(d: ConfigDesc): seq<nat> {
    [d.bNumInterfaces, d.bConfigurationValue, d.iConfiguration, d.bmAttributes, d.bMaxPower]
  }

  lemma ConfigStored(buf: seq<Byte>, dest: nat, destLen: nat, littleCpu: bool)
    requires dest % 2 == 0 && |buf| >= CONFIG_SIZE && destLen >= CONFIG_SIZE
    ensures var d := ConfigOf(buf);
            Unpacked("bbwbbbbb", buf, dest, destLen, littleCpu) ==
            Success(CONFIG_SIZE, Stored([d.bLength, d.bDescriptorType], dest) +
                                 [Cell(dest + 2, 2, d.wTotalLength)] + Stored(ConfigEnd(d), dest + 4))
  {
    ConfigFormat("bbwbbbbb", buf, dest, destLen, littleCpu);
  }

  lemma ConfigFormat(format: string, buf: seq<Byte>, dest: nat, destLen: nat, littleCpu: bool)
    requires |format| == 8 && format[0] == format[1] == 'b' && format[2] == 'w'
    requires format[3] == format[4] == format[5] == format[6] == format[7] == 'b'
    requires dest % 2 == 0 && |buf| >= CONFIG_SIZE && destLen >= CONFIG_SIZE
    ensures var d := ConfigOf(buf);
            Unpacked(format, buf, dest, destLen, littleCpu) ==
            Success(CONFIG_SIZE, Stored([d.bLength, d.bDescriptorType], dest) +
                                 [Cell(dest + 2, 2, d.wTotalLength)] + Stored(ConfigEnd(d), dest + 4))
  {
    var d := ConfigOf(buf);
    RunByteWordBytes(format, [d.bLength, d.bDescriptorType], ConfigEnd(d), buf, dest, destLen, littleCpu);
  }

  /** From a buffer that is too short the fields that are there are stored; the others stay zero. */
  lemma ConfigCutShort(buf: seq<Byte>, dest: nat, destLen: nat, littleCpu: bool)
    requires dest % 2 == 0 && 0 < |buf| < CONFIG_SIZE && destLen >= CONFIG_SIZE
    ensures var d := ConfigOf(buf);
            var head := Stored([d.bLength, d.bDescriptorType], dest);
            if |buf| == 1 then
              Unpacked("bbwbbbbb", buf, dest, destLen, littleCpu) == NoResources(Stored([d.bLength], dest)) &&
              d.bDescriptorType == d.wTotalLength == 0 && ConfigEnd(d) == [0, 0, 0, 0, 0]
            else if |buf| < 4 then
              Unpacked("bbwbbbbb", buf, dest, destLen, littleCpu) == NoResources(head) &&
              d.wTotalLength == 0 && ConfigEnd(d) == [0, 0, 0, 0, 0]
            else
              var k := |buf| - 4;
              Unpacked("bbwbbbbb", buf, dest, destLen, littleCpu) ==
              NoResources(head + [Cell(dest + 2, 2, d.wTotalLength)] + ByteCells(ConfigEnd(d), k, dest + 4)) &&
              forall i :: k <= i < 5 ==> ConfigEnd(d)[i] == 0
  {
    if |buf| == 1 {
      ConfigOneByte("bbwbbbbb", buf, dest, destLen, littleCpu);
    } else {
      ConfigShort("bbwbbbbb", buf, dest, destLen, littleCpu);
    }
  }

  lemma ConfigOneByte(format: string, buf: seq<Byte>, dest: nat, destLen: nat, littleCpu: bool)
    requires |format| == 8 && format[0] == format[1] == 'b' && |buf| == 1 && destLen >= 1
    ensures Unpacked(format, buf, dest, destLen, littleCpu) == NoResources(Stored([ConfigOf(buf).bLength], dest))
  {
    var first, out := [ConfigOf(buf).bLength], Unpacked(format, buf, dest, destLen, littleCpu);
    RunFirst(format, first, buf, dest, destLen, littleCpu, out);
    RunStops(format, 1, BehindFirst(first, 1, dest, destLen), buf, littleCpu, out);
  }

  lemma ConfigShort(format: string, buf: seq<Byte>, dest: nat, destLen: nat, littleCpu: bool)
    requires |format| == 8 && format[0] == format[1] == 'b' && format[2] == 'w'
    requires format[3] == format[4] == format[5] == format[6] == format[7] == 'b'
    requires dest % 2 == 0 && 2 <= |buf| < CONFIG_SIZE && destLen >= CONFIG_SIZE
    ensures var d := ConfigOf(buf);
            var head := Stored([d.bLength, d.bDescriptorType], dest);
            Unpacked(format, buf, dest, destLen, littleCpu) ==
            if |buf| < 4 then NoResources(head)
            else NoResources(head + [Cell(dest + 2, 2, d.wTotalLength)] +
                             ByteCells(ConfigEnd(d), |buf| - 4, dest + 4))
  {
    var d, out := ConfigOf(buf), Unpacked(format, buf, dest, destLen, littleCpu);
    var first := [d.bLength, d.bDescriptorType];
    var m := BehindFirst(first, |buf|, dest, destLen);
    RunFirst(format, first, buf, dest, destLen, littleCpu, out);
    if |buf| < 4 {
      RunStops(format, 2, m, buf, littleCpu, out);
    } else {
      RunWord(format, 2, m, buf, littleCpu, out);
      var m' := Moved(m, 2, [Cell(dest + 2, 2, d.wTotalLength)]);
      ConfigShortEnd(format, ConfigEnd(d), |buf| - 4, m', buf, littleCpu, out);
    }
  }

  lemma ConfigShortEnd(format: string, values: seq<nat>, k: nat, m: Machine, buf: seq<Byte>, littleCpu: bool,
                       out: Outcome)
    requires |format| == 8 && k < 5 && format[3 + k] == 'b' && BytesAhead(format, 3, values, k, buf, 4)
    requires HasRoom(m, k, buf) && m.sp == 4 && m.left == k && Run(format, 3, m, buf, littleCpu) == out
    ensures out == NoResources(m.cells + ByteCells(values, k, m.dp))
  {
    RunBytes(format, 3, values, k, m, buf, littleCpu, out);
    RunStops(format, 3 + k, Moved(m, k, ByteCells(values, k, m.dp)), buf, littleCpu, out);
  }
}
