/** USB descriptors (USB 2.0 section 9.6): their bytes, the tree the library builds from a
    configuration, and the configurations a device may report. */
module Descriptors {

  type Byte = x: nat | x < 256

  const DEVICE := 1
  const CONFIG := 2
  const INTERFACE := 4
  const ENDPOINT := 5

  const MAX_INTERFACES := 32
  const MAX_ENDPOINTS := 32

  const CONFIG_SIZE := 9
  const INTERFACE_SIZE := 9
  const ENDPOINT_SIZE := 7
  const ENDPOINT_AUDIO_SIZE := 9

  datatype ConfigDesc = ConfigDesc(
    bLength: nat, bDescriptorType: nat, wTotalLength: nat, bNumInterfaces: nat,
    bConfigurationValue: nat, iConfiguration: nat, bmAttributes: nat, bMaxPower: nat)

  datatype InterfaceDesc = InterfaceDesc(
    bLength: nat, bDescriptorType: nat, bInterfaceNumber: nat, bAlternateSetting: nat, bNumEndpoints: nat,
    bInterfaceClass: nat, bInterfaceSubClass: nat, bInterfaceProtocol: nat, iInterface: nat)

  datatype EndpointDesc = EndpointDesc(
    bLength: nat, bDescriptorType: nat, bEndpointAddress: nat, bmAttributes: nat,
    wMaxPacketSize: nat, bInterval: nat, bRefresh: nat, bSynchAddress: nat)

  // ----- The tree -----

  datatype Endpoint = Endpoint(desc: EndpointDesc, extra: seq<Byte>)

  datatype Altsetting = Altsetting(desc: InterfaceDesc, endpoints: seq<Endpoint>, extra: seq<Byte>)

  datatype Interface = Interface(altsettings: seq<Altsetting>)

  datatype Config = Config(desc: ConfigDesc, interfaces: seq<Interface>, extra: seq<Byte>)

  /** A slot that was allocated but not filled. */
  const NO_ENDPOINT := Endpoint(EndpointDesc(0, 0, 0, 0, 0, 0, 0, 0), [])
  const NO_INTERFACE := Interface([])

  // ----- Reading fields -----

  /** Byte `i` of a buffer; the buffers are allocated with zeroed bytes behind their end. */
  function At(buf: seq<Byte>, i: nat): nat {
    if i < |buf| then buf[i] else 0
  }

  /** The formats "bbwbbbbb", "bbbbbbbbb", "bbbbwb" and "bbbbwbbb". */
  function ConfigOf(buf: seq<Byte>): ConfigDesc {
    ConfigDesc(At(buf, 0), At(buf, 1), if |buf| >= 4 then At(buf, 2) + 256 * At(buf, 3) else 0, At(buf, 4),
               At(buf, 5), At(buf, 6), At(buf, 7), At(buf, 8))
  }

  function InterfaceOf(buf: seq<Byte>, pos: nat): InterfaceDesc {
    InterfaceDesc(At(buf, pos), At(buf, pos + 1), At(buf, pos + 2), At(buf, pos + 3), At(buf, pos + 4),
                  At(buf, pos + 5), At(buf, pos + 6), At(buf, pos + 7), At(buf, pos + 8))
  }

  /** The two audio fields are only read from a descriptor that is long enough to have them. */
  function EndpointOf(buf: seq<Byte>, pos: nat): EndpointDesc {
    var audio := At(buf, pos) >= ENDPOINT_AUDIO_SIZE;
    EndpointDesc(At(buf, pos), At(buf, pos + 1), At(buf, pos + 2), At(buf, pos + 3),
                 At(buf, pos + 4) + 256 * At(buf, pos + 5),
                 At(buf, pos + 6), if audio then At(buf, pos + 7) else 0, if audio then At(buf, pos + 8) else 0)
  }

  /** The descriptor types that end a run of class or vendor specific descriptors. */
  predicate Proper(kind: nat) {
    kind == ENDPOINT || kind == INTERFACE || kind == CONFIG || kind == DEVICE
  }

  // ----- Sequences of descriptors -----

  /** A descriptor: its first byte is its length. */
  predicate IsDesc(d: seq<Byte>) {
    |d| >= 2 && d[0] == |d|
  }

  predicate AllDescs(ds: seq<seq<Byte>>) {
    forall i :: 0 <= i < |ds| ==> IsDesc(ds[i])
  }

  function Flat(ds: seq<seq<Byte>>): seq<Byte> {
    if ds == [] then [] else ds[0] + Flat(ds[1..])
  }

  /** Where descriptor `j` starts. */
  function Pos(ds: seq<seq<Byte>>, j: nat): nat
    requires j <= |ds|
  {
    if j == 0 then 0 else Pos(ds, j - 1) + |ds[j - 1]|
  }

  ghost predicate HoldsAt(buf: seq<Byte>, ds: seq<seq<Byte>>, j: nat)
    requires j < |ds|
  {
    Pos(ds, j) + |ds[j]| <= |buf| && buf[Pos(ds, j)..Pos(ds, j) + |ds[j]|] == ds[j]
  }

  /** The buffer holds just these descriptors. */
  ghost predicate Holds(buf: seq<Byte>, ds: seq<seq<Byte>>) {
    AllDescs(ds) && Pos(ds, |ds|) == |buf| && forall j :: 0 <= j < |ds| ==> HoldsAt(buf, ds, j)
  }

  lemma {:induction false} FlatCons(d: seq<Byte>, ds: seq<seq<Byte>>)
    ensures Flat([d] + ds) == d + Flat(ds)
  {
    assert ([d] + ds)[1..] == ds;
  }

  lemma {:induction false} FlatConcat(a: seq<seq<Byte>>, b: seq<seq<Byte>>)
    ensures Flat(a + b) == Flat(a) + Flat(b)
  {
    if a == [] {
      assert a + b == b;
    } else {
      var d, rest := a[0], a[1..];
      assert a == [d] + rest && a + b == [d] + (rest + b);
      FlatCons(d, rest);
      FlatCons(d, rest + b);
      FlatConcat(rest, b);
      Associate(d, Flat(rest), Flat(b));
    }
  }

  lemma Associate(a: seq<Byte>, b: seq<Byte>, c: seq<Byte>)
    ensures a + (b + c) == (a + b) + c
  {
  }

  lemma {:induction false} FlatSplit(ds: seq<seq<Byte>>, j: nat)
    requires j <= |ds|
    ensures Flat(ds) == Flat(ds[..j]) + Flat(ds[j..])
  {
    assert ds == ds[..j] + ds[j..];
    FlatConcat(ds[..j], ds[j..]);
  }

  lemma {:induction false} FlatLength(ds: seq<seq<Byte>>, j: nat)
    requires j <= |ds|
    ensures |Flat(ds[..j])| == Pos(ds, j)
  {
    if j > 0 {
      FlatLength(ds, j - 1);
      FlatSplit(ds[..j], j - 1);
      assert ds[..j][..j - 1] == ds[..j - 1];
      assert ds[..j][j - 1..] == [ds[j - 1]];
    }
  }

  lemma {:induction false} PosIncreases(ds: seq<seq<Byte>>, j: nat, k: nat)
    requires AllDescs(ds) && j <= k <= |ds|
    ensures Pos(ds, j) + 2 * (k - j) <= Pos(ds, k)
  {
    if j < k {
      PosIncreases(ds, j, k - 1);
    }
  }

  lemma PosAtEnd(buf: seq<Byte>, ds: seq<seq<Byte>>)
    requires Holds(buf, ds)
    ensures Pos(ds, |ds|) == |buf|
  {
  }

  lemma DescSlice(buf: seq<Byte>, ds: seq<seq<Byte>>, j: nat)
    requires Holds(buf, ds) && j < |ds|
    ensures Pos(ds, j) + |ds[j]| == Pos(ds, j + 1) <= |buf| && buf[Pos(ds, j)..Pos(ds, j) + |ds[j]|] == ds[j]
  {
    assert HoldsAt(buf, ds, j);
  }

  /** The bytes of descriptor `j`. */
  lemma DescBytes(buf: seq<Byte>, ds: seq<seq<Byte>>, j: nat)
    requires Holds(buf, ds) && j < |ds|
    ensures Pos(ds, j) + |ds[j]| <= |buf|
    ensures forall i {:trigger ds[j][i]} :: 0 <= i < |ds[j]| ==> At(buf, Pos(ds, j) + i) == ds[j][i]
  {
    DescSlice(buf, ds, j);
    forall i | 0 <= i < |ds[j]| ensures At(buf, Pos(ds, j) + i) == ds[j][i] {
      assert buf[Pos(ds, j)..Pos(ds, j) + |ds[j]|][i] == ds[j][i];
    }
  }

  /** The header of descriptor `j`, and where it ends. */
  lemma DescAt(buf: seq<Byte>, ds: seq<seq<Byte>>, j: nat)
    requires Holds(buf, ds) && j < |ds|
    ensures var pos := Pos(ds, j);
            pos + |ds[j]| == Pos(ds, j + 1) <= |buf| && At(buf, pos) == |ds[j]| && At(buf, pos + 1) == ds[j][1] &&
            (Pos(ds, j + 1) == |buf| <==> j + 1 == |ds|)
  {
    DescSlice(buf, ds, j);
    DescBytes(buf, ds, j);
    PosAtEnd(buf, ds);
    PosIncreases(ds, j + 1, |ds|);
    assert ds[j][0] == |ds[j]|;
    assert At(buf, Pos(ds, j) + 0) == ds[j][0];
  }

  lemma FlatHolds(ds: seq<seq<Byte>>)
    requires AllDescs(ds)
    ensures Holds(Flat(ds), ds)
  {
    FlatLength(ds, |ds|);
    assert ds[..|ds|] == ds;
    forall j | 0 <= j < |ds| ensures HoldsAt(Flat(ds), ds, j) {
      FlatSplit(ds, j);
      FlatLength(ds, j);
      assert ds[j..][1..] == ds[j + 1..];
      assert Flat(ds[j..]) == ds[j] + Flat(ds[j + 1..]);
    }
  }

  lemma {:induction false} HoldsFlat(buf: seq<Byte>, ds: seq<seq<Byte>>, j: nat)
    requires Holds(buf, ds) && j <= |ds|
    ensures Pos(ds, j) <= |buf| && buf[Pos(ds, j)..] == Flat(ds[j..])
    decreases |ds| - j
  {
    if j < |ds| {
      HoldsFlat(buf, ds, j + 1);
      DescSlice(buf, ds, j);
      assert ds[j..][1..] == ds[j + 1..];
      assert buf[Pos(ds, j)..] == buf[Pos(ds, j)..Pos(ds, j + 1)] + buf[Pos(ds, j + 1)..];
    }
  }

  /** The bytes between two descriptors are those of the descriptors between them. */
  lemma Between(buf: seq<Byte>, ds: seq<seq<Byte>>, j: nat, k: nat)
    requires Holds(buf, ds) && j <= k <= |ds|
    ensures Pos(ds, j) <= Pos(ds, k) <= |buf| && buf[Pos(ds, j)..Pos(ds, k)] == Flat(ds[j..k])
  {
    HoldsFlat(buf, ds, 0);
    FlatSplit(ds, k);
    FlatSplit(ds[..k], j);
    FlatLength(ds, k);
    FlatLength(ds, j);
    assert ds[..k][..j] == ds[..j] && ds[..k][j..] == ds[j..k];
  }

  // ----- Configurations as devices report them -----

  /** Descriptors as bytes, with the class or vendor specific ones that follow each of them. */
  datatype RawEndpoint = RawEndpoint(raw: seq<Byte>, extras: seq<seq<Byte>>)

  datatype RawAltsetting = RawAltsetting(raw: seq<Byte>, extras: seq<seq<Byte>>, endpoints: seq<RawEndpoint>)

  datatype RawConfig = RawConfig(raw: seq<Byte>, extras: seq<seq<Byte>>, interfaces: seq<seq<RawAltsetting>>)

  function EndpointDescs(eps: seq<RawEndpoint>): seq<seq<Byte>> {
    if eps == [] then [] else [eps[0].raw] + eps[0].extras + EndpointDescs(eps[1..])
  }

  function OneAltDescs(a: RawAltsetting): seq<seq<Byte>> {
    [a.raw] + a.extras + EndpointDescs(a.endpoints)
  }

  function AltDescs(alts: seq<RawAltsetting>): seq<seq<Byte>> {
    if alts == [] then [] else OneAltDescs(alts[0]) + AltDescs(alts[1..])
  }

  function InterfaceDescs(ifcs: seq<seq<RawAltsetting>>): seq<seq<Byte>> {
    if ifcs == [] then [] else AltDescs(ifcs[0]) + InterfaceDescs(ifcs[1..])
  }

  function ConfigDescs(c: RawConfig): seq<seq<Byte>> {
    [c.raw] + c.extras + InterfaceDescs(c.interfaces)
  }

  /** The bytes of a configuration as GET_DESCRIPTOR returns them. */
  function Print(c: RawConfig): seq<Byte> {
    Flat(ConfigDescs(c))
  }

  /** Descriptors up to 127 bytes; longer ones have a negative length for `usbi_get_intf_altno`. */
  predicate Short(d: seq<Byte>) {
    |d| <= 127
  }

  predicate GoodExtras(extras: seq<seq<Byte>>) {
    forall i :: 0 <= i < |extras| ==> IsDesc(extras[i]) && Short(extras[i]) && !Proper(extras[i][1])
  }

  predicate GoodEndpoint(e: RawEndpoint) {
    IsDesc(e.raw) && Short(e.raw) && e.raw[1] == ENDPOINT && |e.raw| >= ENDPOINT_SIZE && GoodExtras(e.extras)
  }

  predicate GoodEndpoints(eps: seq<RawEndpoint>) {
    forall i :: 0 <= i < |eps| ==> GoodEndpoint(eps[i])
  }

  predicate GoodAlt(a: RawAltsetting) {
    IsDesc(a.raw) && Short(a.raw) && a.raw[1] == INTERFACE && |a.raw| >= INTERFACE_SIZE && GoodExtras(a.extras) &&
    GoodEndpoints(a.endpoints) && a.raw[4] == |a.endpoints| <= MAX_ENDPOINTS
  }

  /** The alternate settings of one interface: one number, setting 0 first, and only there. */
  predicate GoodInterface(alts: seq<RawAltsetting>) {
    alts != [] && (forall i :: 0 <= i < |alts| ==> GoodAlt(alts[i])) &&
    (forall i :: 0 <= i < |alts| ==> alts[i].raw[2] == alts[0].raw[2]) &&
    forall i :: 0 <= i < |alts| ==> (alts[i].raw[3] == 0 <==> i == 0)
  }

  predicate GoodInterfaces(ifcs: seq<seq<RawAltsetting>>) {
    forall i :: 0 <= i < |ifcs| ==> GoodInterface(ifcs[i])
  }

  /** Their common bInterfaceNumber. */
  function NumberOf(alts: seq<RawAltsetting>): nat
    requires GoodInterface(alts)
  {
    alts[0].raw[2]
  }

  predicate GoodConfig(c: RawConfig) {
    IsDesc(c.raw) && c.raw[1] == CONFIG && |c.raw| >= CONFIG_SIZE && GoodExtras(c.extras) &&
    c.raw[4] == |c.interfaces| <= MAX_INTERFACES && GoodInterfaces(c.interfaces)
  }

  // ----- The tree a configuration stands for -----

  function TreeOfEndpoint(e: RawEndpoint): Endpoint {
    Endpoint(EndpointOf(e.raw, 0), Flat(e.extras))
  }

  function TreeOfEndpoints(eps: seq<RawEndpoint>): (tree: seq<Endpoint>)
    ensures |tree| == |eps|
  {
    if eps == [] then [] else [TreeOfEndpoint(eps[0])] + TreeOfEndpoints(eps[1..])
  }

  function TreeOfAlt(a: RawAltsetting): Altsetting {
    Altsetting(InterfaceOf(a.raw, 0), TreeOfEndpoints(a.endpoints), Flat(a.extras))
  }

  function TreeOfAlts(alts: seq<RawAltsetting>): (tree: seq<Altsetting>)
    ensures |tree| == |alts|
  {
    if alts == [] then [] else [TreeOfAlt(alts[0])] + TreeOfAlts(alts[1..])
  }

  function TreeOfInterfaces(ifcs: seq<seq<RawAltsetting>>): (tree: seq<Interface>)
    ensures |tree| == |ifcs|
  {
    if ifcs == [] then [] else [Interface(TreeOfAlts(ifcs[0]))] + TreeOfInterfaces(ifcs[1..])
  }

  function TreeOf(c: RawConfig): Config {
    Config(ConfigOf(c.raw), TreeOfInterfaces(c.interfaces), Flat(c.extras))
  }
}
