/** Interface ownership in the Solaris back end: which handle of a device may use which interface,
    and which endpoints it may open. */
module Ownership {

  const MAX_INTERFACES := 32
  const MAX_ENDPOINTS := 32
  const CLAIMED := 1

  datatype Reply = Success | Busy | BadArg | PlatformFailure | UnknownDevice

  /** `struct interface_set`. */
  datatype Claim = Claim(clm: int, altsetting: int)

  const UNCLAIMED := Claim(-1, -1)

  /** Endpoint addresses of each alternate setting of each interface of the current configuration. */
  type Config = seq<seq<seq<nat>>>

  /** Every interface has its alternate setting 0, and endpoint addresses are bytes. */
  ghost predicate WellFormed(c: Config) {
    |c| <= MAX_INTERFACES &&
    (forall i :: 0 <= i < |c| ==> |c[i]| > 0) &&
    forall i, a, e :: 0 <= i < |c| && 0 <= a < |c[i]| && 0 <= e < |c[i][a]| ==> c[i][a][e] < 256
  }

  /** usb_ep_index. */
  function EpIndex(address: nat): (i: nat)
    ensures i < MAX_ENDPOINTS
  {
    address % 16 + if address / 128 % 2 == 1 then 16 else 0
  }

  /** Outgoing endpoints come first, incoming ones behind them. */
  lemma EpIndexOrder(number: nat)
    requires number < 16
    ensures EpIndex(number) == number && EpIndex(0x80 + number) == 16 + number
  {
  }

  /** Two addresses share an index only if they have the same endpoint number and direction. */
  lemma EpIndexTells(a: nat, b: nat)
    ensures EpIndex(a) == EpIndex(b) <==> a % 16 == b % 16 && a / 128 % 2 == b / 128 % 2
  {
  }

  /** Alternate setting `alt` has an endpoint with this index. */
  predicate HasEndpoint(endpoints: seq<nat>, index: nat) {
    exists e :: 0 <= e < |endpoints| && EpIndex(endpoints[e]) == index
  }

  class Device {
    const config: Config
    /** Which handle claimed each interface. */
    var claimedInterfaces: seq<DevHandle?>

    constructor (config: Config)
      requires WellFormed(config)
      ensures this.config == config && Consistent(this, {})
    {
      this.config := config;
      claimedInterfaces := seq(MAX_INTERFACES, i => null);
    }
  }

  class DevHandle {
    var claimedIfs: seq<Claim>
    var epInterface: seq<int>
    /** The interface whose endpoints were last entered into `epInterface`, or -1. */
    ghost var entered: int

    /** openusb_open_device and solaris_open: nothing claimed; only the entry of endpoint 0 is not -1. */
    constructor (device: Device, ghost others: set<DevHandle>)
      requires Consistent(device, others)
      ensures Consistent(device, others + {this}) && this !in others
    {
      claimedIfs := seq(MAX_INTERFACES, i => UNCLAIMED);
      epInterface := seq(MAX_ENDPOINTS, i => if i > 0 then -1 else 0);
      entered := -1;
    }

    /** usb_set_ep_iface_alts. */
    method SetEpIfaceAlts(device: Device, ifc: nat, alt: nat)
      requires WellFormed(device.config) && ifc < |device.config| && alt < |device.config[ifc]|
      requires |epInterface| == MAX_ENDPOINTS
      modifies this`epInterface, this`entered
      ensures entered == ifc && |epInterface| == MAX_ENDPOINTS
      ensures EntersOnly(epInterface, ifc, device.config[ifc][alt])
    {
      for i := 0 to MAX_ENDPOINTS
        invariant |epInterface| == MAX_ENDPOINTS && forall e :: 0 <= e < i ==> epInterface[e] == -1
      {
        epInterface := epInterface[i := -1];
      }
      var endpoints := device.config[ifc][alt];
      for i := 0 to |endpoints|
        invariant |epInterface| == MAX_ENDPOINTS && EntersOnly(epInterface, ifc, endpoints[..i])
      {
        ghost var before := epInterface;
        epInterface := epInterface[EpIndex(endpoints[i]) := ifc];
        EntersOneMore(before, ifc, endpoints, i);
      }
      assert endpoints[..|endpoints|] == endpoints;
      entered := ifc;
    }

    /** solaris_claim_interface. */
    method ClaimInterface(device: Device, ghost others: set<DevHandle>, ifc: nat) returns (ret: Reply)
      requires Consistent(device, others + {this}) && ifc < |device.config|
      modifies this, device
      ensures Consistent(device, others + {this})
      ensures ret == if old(device.claimedInterfaces[ifc]) in {this, null} then Success else Busy
      ensures old(device.claimedInterfaces[ifc]) == null ==>
                device.claimedInterfaces == old(device.claimedInterfaces)[ifc := this] &&
                claimedIfs == old(claimedIfs)[ifc := Claim(CLAIMED, 0)] && entered == ifc
      ensures old(device.claimedInterfaces[ifc]) != null ==>
                unchanged(device) && unchanged(this)
    {
      if device.claimedInterfaces[ifc] == this {
        return Success;
      }
      if device.claimedInterfaces[ifc] != null {
        return Busy;
      }
      if claimedIfs[ifc].clm != -1 {
        return Busy;
      }
      claimedIfs := claimedIfs[ifc := Claim(CLAIMED, 0)];
      device.claimedInterfaces := device.claimedInterfaces[ifc := this];
      SetEpIfaceAlts(device, ifc, 0);
      return Success;
    }

    /** solaris_release_interface. */
    method ReleaseInterface(device: Device, ghost others: set<DevHandle>, ifc: nat) returns (ret: Reply)
      requires Consistent(device, others + {this}) && this !in others && ifc < MAX_INTERFACES
      modifies this`claimedIfs, device
      ensures Consistent(device, others + {this})
      ensures ret == if old(device.claimedInterfaces[ifc]) == this then Success else BadArg
      ensures device.claimedInterfaces ==
                if ret == Success then old(device.claimedInterfaces)[ifc := null] else old(device.claimedInterfaces)
      ensures claimedIfs == if ret == Success then old(claimedIfs)[ifc := UNCLAIMED] else old(claimedIfs)
    {
      if claimedIfs[ifc].clm != CLAIMED {
        return BadArg;
      }
      if device.claimedInterfaces[ifc] != this {
        return PlatformFailure;
      }
      device.claimedInterfaces := device.claimedInterfaces[ifc := null];
      claimedIfs := claimedIfs[ifc := UNCLAIMED];
      return Success;
    }

    /** solaris_set_altinterface; the front end has checked that the alternate setting exists. */
    method SetAltInterface(device: Device, ghost others: set<DevHandle>, ifc: nat, alt: nat) returns (ret: Reply)
      requires Consistent(device, others + {this}) && ifc < |device.config| && alt < |device.config[ifc]|
      modifies this
      ensures Consistent(device, others + {this})
      ensures ret == if device.claimedInterfaces[ifc] == this then Success else PlatformFailure
      ensures ret == Success ==> claimedIfs == old(claimedIfs)[ifc := Claim(CLAIMED, alt)] && entered == ifc
      ensures ret != Success ==> unchanged(this)
    {
      if device.claimedInterfaces[ifc] != this {
        return PlatformFailure;
      }
      claimedIfs := claimedIfs[ifc := claimedIfs[ifc].(altsetting := alt)];
      SetEpIfaceAlts(device, ifc, alt);
      return Success;
    }

    /** The part of solaris_close that gives up every interface. */
    method ReleaseAll(device: Device, ghost others: set<DevHandle>)
      requires Consistent(device, others + {this}) && this !in others
      modifies this`claimedIfs, device
      ensures Consistent(device, others + {this})
      ensures |device.claimedInterfaces| == MAX_INTERFACES
      ensures forall i :: 0 <= i < MAX_INTERFACES ==>
                device.claimedInterfaces[i] ==
                  if old(device.claimedInterfaces)[i] == this then null else old(device.claimedInterfaces)[i]
    {
      for i := 0 to MAX_INTERFACES
        invariant Consistent(device, others + {this})
        invariant |device.claimedInterfaces| == MAX_INTERFACES
        invariant forall j :: 0 <= j < MAX_INTERFACES ==>
          device.claimedInterfaces[j] ==
            if j < i && old(device.claimedInterfaces)[j] == this then null else old(device.claimedInterfaces)[j]
      {
        var _ := ReleaseInterface(device, others, i);
      }
    }

    /** The admission test of usb_check_device_and_status_open: exactly the endpoints of the current
        alternate setting of an interface this handle owns and entered last. */
    method Admits(device: Device, ghost others: set<DevHandle>, ifc: nat, address: nat) returns (ok: bool)
      requires Consistent(device, others + {this}) && ifc < |device.config| && address < 256
      ensures ok <==> device.claimedInterfaces[ifc] == this && entered == ifc &&
                      HasEndpoint(device.config[ifc][claimedIfs[ifc].altsetting], EpIndex(address))
    {
      var index := EpIndex(address);
      if claimedIfs[ifc].clm == -1 || claimedIfs[ifc].altsetting == -1 {
        return false;
      }
      if ifc != epInterface[index] {
        return false;
      }
      return true;
    }

    /** The endpoint table has room for one interface: with two interfaces claimed, every endpoint of the first is
        refused. */
    method ClaimTwo(device: Device, ghost others: set<DevHandle>, first: nat, second: nat, address: nat)
      returns (admitted: bool)
      requires Consistent(device, others + {this}) && this !in others && first < |device.config| &&
               second < |device.config|
      requires first != second && address < 256
      requires device.claimedInterfaces[first] == device.claimedInterfaces[second] == null
      modifies this, device
      ensures Consistent(device, others + {this})
      ensures device.claimedInterfaces[first] == device.claimedInterfaces[second] == this && !admitted
    {
      var r := ClaimInterface(device, others, first);
      r := ClaimInterface(device, others, second);
      admitted := Admits(device, others, first, address);
    }

    /** openusb_claim_interface on top of the back end: it sets alternate setting 0 whenever the back end
        reports success, also when the interface was already claimed with another one. */
    method FrontEndClaim(device: Device, ghost others: set<DevHandle>, ifc: nat) returns (ret: Reply)
      requires Consistent(device, others + {this}) && this !in others && ifc < |device.config|
      modifies this, device
      ensures ret == if old(device.claimedInterfaces[ifc]) in {this, null} then Success else Busy
      ensures device.claimedInterfaces ==
                if ret == Success then old(device.claimedInterfaces)[ifc := this] else old(device.claimedInterfaces)
      ensures claimedIfs == if ret == Success then old(claimedIfs)[ifc := Claim(CLAIMED, 0)] else old(claimedIfs)
      ensures old(device.claimedInterfaces[ifc]) == null ==> entered == ifc
      ensures old(device.claimedInterfaces[ifc]) != null ==> entered == old(entered) && epInterface == old(epInterface)
      ensures Consistent(device, others + {this}) <==>
              !(old(device.claimedInterfaces[ifc]) == this && old(entered) == ifc &&
                exists index :: 0 <= index < MAX_ENDPOINTS &&
                  HasEndpoint(device.config[ifc][old(claimedIfs[ifc].altsetting)], index) !=
                  HasEndpoint(device.config[ifc][0], index))
    {
      ret := ClaimInterface(device, others, ifc);
      if ret == Success {
        claimedIfs := claimedIfs[ifc := Claim(CLAIMED, 0)];
      }
    }

    /** And that happens whenever an interface is claimed, set to a setting with other endpoints than setting 0, and
        claimed again. */
    method Reclaim(device: Device, ghost others: set<DevHandle>, ifc: nat, alt: nat, ghost index: nat)
      requires Consistent(device, others + {this}) && this !in others && ifc < |device.config| &&
               alt < |device.config[ifc]|
      requires device.claimedInterfaces[ifc] == null && index < MAX_ENDPOINTS
      requires HasEndpoint(device.config[ifc][alt], index) != HasEndpoint(device.config[ifc][0], index)
      modifies this, device
      ensures !Consistent(device, others + {this})
    {
      var r := ClaimInterface(device, others, ifc);
      r := SetAltInterface(device, others, ifc, alt);
      r := FrontEndClaim(device, others, ifc);
    }
  }

  /** The endpoint table names `ifc` for exactly these endpoints and -1 for all others. */
  ghost predicate EntersOnly(table: seq<int>, ifc: int, endpoints: seq<nat>) {
    |table| == MAX_ENDPOINTS &&
    forall index :: 0 <= index < MAX_ENDPOINTS ==> table[index] == if HasEndpoint(endpoints, index) then ifc else -1
  }

  lemma EntersOneMore(table: seq<int>, ifc: int, endpoints: seq<nat>, i: nat)
    requires i < |endpoints| && EntersOnly(table, ifc, endpoints[..i])
    ensures EntersOnly(table[EpIndex(endpoints[i]) := ifc], ifc, endpoints[..i + 1])
  {
    var shorter, longer := endpoints[..i], endpoints[..i + 1];
    forall index | 0 <= index < MAX_ENDPOINTS
      ensures HasEndpoint(longer, index) <==> HasEndpoint(shorter, index) || index == EpIndex(endpoints[i])
    {
      assert longer[i] == endpoints[i];
      if e :| 0 <= e < |shorter| && EpIndex(shorter[e]) == index {
        assert EpIndex(longer[e]) == index;
      }
      if e :| 0 <= e < |longer| && EpIndex(longer[e]) == index && e < i {
        assert EpIndex(shorter[e]) == index;
      }
    }
  }

  /** What one handle records agrees with what the device records about it. */
  ghost predicate HandleAgrees(d: Device, h: DevHandle)
    reads d, h
  {
    |d.config| <= MAX_INTERFACES == |d.claimedInterfaces| == |h.claimedIfs| && |h.epInterface| == MAX_ENDPOINTS &&
    (forall i :: 0 <= i < MAX_INTERFACES ==>
      if d.claimedInterfaces[i] == h
      then h.claimedIfs[i].clm == CLAIMED && i < |d.config| && 0 <= h.claimedIfs[i].altsetting < |d.config[i]|
      else h.claimedIfs[i] == UNCLAIMED) &&
    -1 <= h.entered < |d.config| &&
    (h.entered == -1 ==> forall i :: 0 <= i < MAX_INTERFACES ==> d.claimedInterfaces[i] != h) &&
    (h.entered >= 0 ==>
      (forall e :: 0 <= e < MAX_ENDPOINTS ==> h.epInterface[e] in {-1, h.entered}) &&
      (d.claimedInterfaces[h.entered] == h ==>
        EntersOnly(h.epInterface, h.entered, d.config[h.entered][h.claimedIfs[h.entered].altsetting])))
  }

  /** The device and the handles open on it agree on who owns what. */
  ghost predicate Consistent(d: Device, handles: set<DevHandle>)
    reads d, handles
  {
    WellFormed(d.config) && |d.claimedInterfaces| == MAX_INTERFACES &&
    (forall i :: 0 <= i < MAX_INTERFACES && d.claimedInterfaces[i] != null ==> d.claimedInterfaces[i] in handles) &&
    forall h :: h in handles ==> HandleAgrees(d, h)
  }

  /** A handle marks an interface claimed if and only if the device records it as the owner. */
  lemma MarkedIffOwner(d: Device, handles: set<DevHandle>, h: DevHandle, i: nat)
    requires Consistent(d, handles) && h in handles && i < MAX_INTERFACES
    ensures h.claimedIfs[i].clm == CLAIMED <==> d.claimedInterfaces[i] == h
  {
    assert HandleAgrees(d, h);
  }

  /** No two handles own one interface. */
  lemma Exclusive(d: Device, handles: set<DevHandle>, g: DevHandle, h: DevHandle, i: nat)
    requires Consistent(d, handles) && g in handles && h in handles && i < MAX_INTERFACES
    requires g.claimedIfs[i].clm == CLAIMED && h.claimedIfs[i].clm == CLAIMED
    ensures g == h
  {
    MarkedIffOwner(d, handles, g, i);
    MarkedIffOwner(d, handles, h, i);
  }

  // ----- Runs -----

  /** A call of the back end for one device; handles are numbered in the order of their opening. */
  datatype Call =
    | OpenDevice
    | CloseDevice(handle: nat)
    | ClaimIfc(handle: nat, ifc: nat)
    | Release(handle: nat, ifc: nat)
    | SetAlt(handle: nat, ifc: nat, alt: nat)

  /** What the front end checks before it calls the back end, apart from the handle. */
  predicate Valid(c: Config, call: Call) {
    match call
    case ClaimIfc(_, ifc) => ifc < |c|
    case Release(_, ifc) => ifc < |c|
    case SetAlt(_, ifc, alt) => ifc < |c| && alt < |c[ifc]|
    case _ => true
  }

  /** The handles opened so far; those that were closed are null. */
  ghost function Open(handles: seq<DevHandle?>): set<DevHandle> {
    set h: DevHandle | h in handles
  }

  ghost predicate Apart(handles: seq<DevHandle?>) {
    forall i, j :: 0 <= i < j < |handles| && handles[i] != null ==> handles[i] != handles[j]
  }

  lemma OpenMore(handles: seq<DevHandle?>, h: DevHandle)
    requires Apart(handles) && h !in Open(handles)
    ensures Apart(handles + [h]) && Open(handles + [h]) == Open(handles) + {h}
  {
    assert forall g: DevHandle :: g in handles <==> g in Open(handles);
  }

  lemma OpenLess(handles: seq<DevHandle?>, i: nat, h: DevHandle)
    requires Apart(handles) && i < |handles| && handles[i] == h
    ensures Apart(handles[i := null]) && Open(handles[i := null]) == Open(handles) - {h}
  {
    var less := handles[i := null];
    forall g: DevHandle ensures g in less <==> g in handles && g != h {
      if g in handles && g != h {
        var j :| 0 <= j < |handles| && handles[j] == g;
        assert less[j] == g;
      }
      if g in less {
        var j :| 0 <= j < |less| && less[j] == g;
        assert handles[j] == g;
      }
    }
  }

  // ----- Who owns what, without the tables -----

  /** Which handles are open, and the handles that own interfaces. */
  datatype Owners = Owners(open: seq<bool>, owner: map<nat, nat>)

  predicate IsOpen(o: Owners, handle: nat) {
    handle < |o.open| && o.open[handle]
  }

  predicate Owns(o: Owners, handle: nat, ifc: nat) {
    ifc in o.owner && o.owner[ifc] == handle
  }

  /** What a call is answered; the front end refuses a handle that is not open. */
  function Answer(o: Owners, call: Call): Reply {
    if call.OpenDevice? then Success
    else if !IsOpen(o, call.handle) then UnknownDevice
    else match call
         case CloseDevice(_) => Success
         case ClaimIfc(h, ifc) => if ifc !in o.owner || Owns(o, h, ifc) then Success else Busy
         case Release(h, ifc) => if Owns(o, h, ifc) then Success else BadArg
         case SetAlt(h, ifc, _) => if Owns(o, h, ifc) then Success else PlatformFailure
  }

  /** What each refusal means. */
  lemma Refusals(o: Owners, call: Call)
    ensures Answer(o, call) == UnknownDevice <==> !call.OpenDevice? && !IsOpen(o, call.handle)
    ensures Answer(o, call) == Busy <==>
            call.ClaimIfc? && IsOpen(o, call.handle) && exists h :: h != call.handle && Owns(o, h, call.ifc)
    ensures Answer(o, call) == BadArg <==>
            call.Release? && IsOpen(o, call.handle) && !Owns(o, call.handle, call.ifc)
    ensures Answer(o, call) == PlatformFailure <==>
            call.SetAlt? && IsOpen(o, call.handle) && !Owns(o, call.handle, call.ifc)
  {
    if call.ClaimIfc? && call.ifc in o.owner {
      assert Owns(o, o.owner[call.ifc], call.ifc);
    }
  }

  function Perform(o: Owners, call: Call): Owners {
    if Answer(o, call) != Success then o
    else match call
         case OpenDevice => o.(open := o.open + [true])
         case CloseDevice(h) => Owners(o.open[h := false], map i | i in o.owner && o.owner[i] != h :: o.owner[i])
         case ClaimIfc(h, ifc) => o.(owner := o.owner[ifc := h])
         case Release(h, ifc) => o.(owner := o.owner - {ifc})
         case SetAlt(_, _, _) => o
  }

  /** The owners after the first `n` calls. */
  function After(calls: seq<Call>, n: nat): Owners
    requires n <= |calls|
  {
    if n == 0 then Owners([], map[]) else Perform(After(calls, n - 1), calls[n - 1])
  }

  /** How many of the first `n` calls open the device: the number of the next handle. */
  function Opens(calls: seq<Call>, n: nat): nat
    requires n <= |calls|
  {
    if n == 0 then 0 else Opens(calls, n - 1) + if calls[n - 1].OpenDevice? then 1 else 0
  }

  predicate OpenedAt(calls: seq<Call>, n: nat, h: nat)
    requires n < |calls|
  {
    calls[n].OpenDevice? && Opens(calls, n) == h
  }

  ghost predicate NotClosed(calls: seq<Call>, n: nat, m: nat, h: nat)
    requires m <= |calls|
  {
    forall k :: n <= k < m ==> calls[k] != CloseDevice(h)
  }

  lemma {:induction false} OpensGrow(calls: seq<Call>, n: nat, m: nat)
    requires n < m <= |calls| && calls[n].OpenDevice?
    ensures Opens(calls, n) < Opens(calls, m)
  {
    if n + 1 < m {
      OpensGrow(calls, n, m - 1);
    }
  }

  lemma {:induction false} HandlesCounted(calls: seq<Call>, m: nat)
    requires m <= |calls|
    ensures |After(calls, m).open| == Opens(calls, m)
  {
    if m > 0 {
      HandlesCounted(calls, m - 1);
    }
  }

  lemma OpenStep(calls: seq<Call>, m: nat, h: nat)
    requires m < |calls|
    ensures IsOpen(After(calls, m + 1), h) <==>
            OpenedAt(calls, m, h) || (IsOpen(After(calls, m), h) && calls[m] != CloseDevice(h))
  {
    HandlesCounted(calls, m);
  }

  /** A handle is open after any calls if and only if one of them opened it and none closed it since. */
  lemma {:induction false} OpenIff(calls: seq<Call>, m: nat, h: nat)
    requires m <= |calls|
    ensures IsOpen(After(calls, m), h) <==>
            exists n :: 0 <= n < m && OpenedAt(calls, n, h) && NotClosed(calls, n, m, h)
  {
    if m > 0 {
      var last := m - 1;
      OpenIff(calls, last, h);
      OpenStep(calls, last, h);
      if IsOpen(After(calls, last), h) && calls[last] != CloseDevice(h) {
        var n :| 0 <= n < last && OpenedAt(calls, n, h) && NotClosed(calls, n, last, h);
        assert NotClosed(calls, n, m, h);
      }
      if OpenedAt(calls, last, h) {
        assert NotClosed(calls, last, m, h);
      }
      if n :| 0 <= n < m && OpenedAt(calls, n, h) && NotClosed(calls, n, m, h) {
        assert NotClosed(calls, n, last, h);
        assert calls[last] != CloseDevice(h);
      }
    }
  }

  /** Call `n` gives the interface, which is free, to the open handle `h`. */
  predicate Gains(calls: seq<Call>, n: nat, h: nat, ifc: nat)
    requires n < |calls|
  {
    calls[n] == ClaimIfc(h, ifc) && IsOpen(After(calls, n), h) && ifc !in After(calls, n).owner
  }

  /** Call `n` takes the interface from handle `h`, should it be the owner. */
  predicate Loses(calls: seq<Call>, n: nat, h: nat, ifc: nat)
    requires n < |calls|
  {
    calls[n] == Release(h, ifc) || calls[n] == CloseDevice(h)
  }

  ghost predicate KeptSince(calls: seq<Call>, n: nat, m: nat, h: nat, ifc: nat)
    requires m <= |calls|
  {
    forall k :: n <= k < m ==> !Loses(calls, k, h, ifc)
  }

  lemma {:induction false} OwnersAreOpen(calls: seq<Call>, n: nat, h: nat, ifc: nat)
    requires n <= |calls| && Owns(After(calls, n), h, ifc)
    ensures IsOpen(After(calls, n), h)
  {
    if n > 0 && Owns(After(calls, n - 1), h, ifc) {
      OwnersAreOpen(calls, n - 1, h, ifc);
    }
  }

  /** A handle owns an interface after any calls if and only if it claimed it while it was free and neither gave it up
      nor was closed since. */
  lemma {:induction false} OwnsIff(calls: seq<Call>, m: nat, h: nat, ifc: nat)
    requires m <= |calls|
    ensures Owns(After(calls, m), h, ifc) <==>
            exists n :: 0 <= n < m && Gains(calls, n, h, ifc) && KeptSince(calls, n, m, h, ifc)
  {
    if m > 0 {
      var last := m - 1;
      OwnsIff(calls, last, h, ifc);
      OwnsStep(calls, last, h, ifc);
      if Owns(After(calls, last), h, ifc) && !Loses(calls, last, h, ifc) {
        var n :| 0 <= n < last && Gains(calls, n, h, ifc) && KeptSince(calls, n, last, h, ifc);
        assert KeptSince(calls, n, m, h, ifc);
      }
      if Gains(calls, last, h, ifc) {
        assert KeptSince(calls, last, m, h, ifc);
      }
      if n :| 0 <= n < m && Gains(calls, n, h, ifc) && KeptSince(calls, n, m, h, ifc) {
        assert KeptSince(calls, n, last, h, ifc);
        assert !Loses(calls, last, h, ifc);
      }
    }
  }

  lemma OwnsStep(calls: seq<Call>, m: nat, h: nat, ifc: nat)
    requires m < |calls|
    ensures Owns(After(calls, m + 1), h, ifc) <==>
            Gains(calls, m, h, ifc) || (Owns(After(calls, m), h, ifc) && !Loses(calls, m, h, ifc))
  {
    if Owns(After(calls, m), h, ifc) {
      OwnersAreOpen(calls, m, h, ifc);
    }
  }

  /** The handles opened so far and the claimed interfaces of the device are as `o` says: a handle is null if and only
      if it was closed, and the owners are those. */
  ghost predicate Represents(o: Owners, claimed: seq<DevHandle?>, handles: seq<DevHandle?>) {
    |o.open| == |handles| && |claimed| == MAX_INTERFACES &&
    (forall h :: 0 <= h < |handles| ==> (handles[h] != null <==> o.open[h])) &&
    forall i :: 0 <= i < MAX_INTERFACES ==> IsOwner(o, i, claimed[i], handles)
  }

  ghost predicate IsOwner(o: Owners, ifc: nat, claimed: DevHandle?, handles: seq<DevHandle?>) {
    if ifc in o.owner then o.owner[ifc] < |handles| && claimed != null && claimed == handles[o.owner[ifc]]
    else claimed == null
  }

  lemma OwnerIs(o: Owners, claimed: seq<DevHandle?>, handles: seq<DevHandle?>, h: nat, i: nat)
    requires Represents(o, claimed, handles) && Apart(handles) && IsOpen(o, h) && i < MAX_INTERFACES
    ensures claimed[i] == handles[h] <==> Owns(o, h, i)
    ensures claimed[i] == null <==> i !in o.owner
  {
    assert IsOwner(o, i, claimed[i], handles);
  }

  lemma RepresentsClose(o: Owners, claimed: seq<DevHandle?>, claimed': seq<DevHandle?>, handles: seq<DevHandle?>,
                        h: nat)
    requires Represents(o, claimed, handles) && Apart(handles) && IsOpen(o, h) && |claimed'| == MAX_INTERFACES
    requires forall i :: 0 <= i < MAX_INTERFACES ==>
               claimed'[i] == if claimed[i] == handles[h] then null else claimed[i]
    ensures Represents(Perform(o, CloseDevice(h)), claimed', handles[h := null])
  {
    forall i | 0 <= i < MAX_INTERFACES
      ensures IsOwner(Perform(o, CloseDevice(h)), i, claimed'[i], handles[h := null])
    {
      OwnerIs(o, claimed, handles, h, i);
      assert IsOwner(o, i, claimed[i], handles);
    }
  }

  lemma RepresentsOpen(o: Owners, claimed: seq<DevHandle?>, handles: seq<DevHandle?>, h: DevHandle)
    requires Represents(o, claimed, handles)
    ensures Represents(Perform(o, OpenDevice), claimed, handles + [h])
  {
    forall i | 0 <= i < MAX_INTERFACES ensures IsOwner(Perform(o, OpenDevice), i, claimed[i], handles + [h]) {
      assert IsOwner(o, i, claimed[i], handles);
    }
  }

  lemma RepresentsSet(o: Owners, claimed: seq<DevHandle?>, handles: seq<DevHandle?>, ifc: nat, o': Owners,
                      claim: DevHandle?)
    requires Represents(o, claimed, handles) && ifc < MAX_INTERFACES && IsOwner(o', ifc, claim, handles)
    requires o'.open == o.open && o'.owner - {ifc} == o.owner - {ifc}
    ensures Represents(o', claimed[ifc := claim], handles)
  {
    forall i | 0 <= i < MAX_INTERFACES && i != ifc ensures IsOwner(o', i, claimed[i], handles) {
      assert IsOwner(o, i, claimed[i], handles);
      assert i in o'.owner <==> i in o'.owner - {ifc};
      assert i in o.owner <==> i in o.owner - {ifc};
      assert i in o.owner ==> (o.owner - {ifc})[i] == o.owner[i] == o'.owner[i];
    }
  }

  /** Every call was answered as `Owners` says. */
  ghost predicate Answered(calls: seq<Call>, replies: seq<Reply>) {
    |replies| <= |calls| && forall n :: 0 <= n < |replies| ==> AnsweredAt(calls, n, replies[n])
  }

  ghost predicate AnsweredAt(calls: seq<Call>, n: nat, reply: Reply)
    requires n < |calls|
  {
    reply == Answer(After(calls, n), calls[n])
  }

  lemma AnsweredMore(calls: seq<Call>, replies: seq<Reply>, reply: Reply)
    requires Answered(calls, replies) && |replies| < |calls| && AnsweredAt(calls, |replies|, reply)
    ensures Answered(calls, replies + [reply])
  {
  }

  lemma AfterMore(calls: seq<Call>, n: nat, o: Owners, reply: Reply)
    requires n < |calls| && o == After(calls, n) && reply == Answer(o, calls[n])
    ensures AnsweredAt(calls, n, reply) && After(calls, n + 1) == Perform(o, calls[n])
  {
  }

  /** Any sequence of calls of the back end for a device, from its arrival on, is answered as `Owners` says and leaves
      the owners it says. At the end, as at the start, a handle that is open marks an interface claimed if and only if
      the device records it as the owner, no two handles mark the same one, and no interface belongs to a handle that
      was closed. */
  method RunCalls(config: Config, calls: seq<Call>)
    returns (device: Device, handles: seq<DevHandle?>, replies: seq<Reply>)
    requires WellFormed(config)
    requires forall i :: 0 <= i < |calls| ==> Valid(config, calls[i])
    ensures device.config == config && Consistent(device, Open(handles))
    ensures Represents(After(calls, |calls|), device.claimedInterfaces, handles)
    ensures |replies| == |calls| && Answered(calls, replies)
    ensures |device.claimedInterfaces| == MAX_INTERFACES
    ensures forall h :: h in Open(handles) ==> |h.claimedIfs| == MAX_INTERFACES
    ensures forall h, i :: h in Open(handles) && 0 <= i < MAX_INTERFACES ==>
              (h.claimedIfs[i].clm == CLAIMED <==> device.claimedInterfaces[i] == h)
    ensures forall g, h, i :: (g in Open(handles) && h in Open(handles) && 0 <= i < MAX_INTERFACES &&
                               g.claimedIfs[i].clm == CLAIMED && h.claimedIfs[i].clm == CLAIMED) ==> g == h
    ensures forall i :: 0 <= i < MAX_INTERFACES && device.claimedInterfaces[i] != null ==>
              device.claimedInterfaces[i] in Open(handles)
  {
    device, handles, replies := RunAll(config, calls);
    forall h, i | h in Open(handles) && 0 <= i < MAX_INTERFACES
      ensures |h.claimedIfs| == MAX_INTERFACES && (h.claimedIfs[i].clm == CLAIMED <==> device.claimedInterfaces[i] == h)
    {
      MarkedIffOwner(device, Open(handles), h, i);
    }
  }

  method RunAll(config: Config, calls: seq<Call>)
    returns (device: Device, handles: seq<DevHandle?>, replies: seq<Reply>)
    requires WellFormed(config)
    requires forall i :: 0 <= i < |calls| ==> Valid(config, calls[i])
    ensures device.config == config && Consistent(device, Open(handles))
    ensures Represents(After(calls, |calls|), device.claimedInterfaces, handles)
    ensures |replies| == |calls| && Answered(calls, replies)
  {
    device := new Device(config);
    handles, replies := [], [];
    assert Open(handles) == {};
    ghost var o := After(calls, 0);
    for n := 0 to |calls|
      invariant fresh(device) && device.config == config && fresh(Open(handles))
      invariant Consistent(device, Open(handles)) && Apart(handles)
      invariant o == After(calls, n) && Represents(o, device.claimedInterfaces, handles)
      invariant |replies| == n && Answered(calls, replies)
    {
      var reply;
      handles, reply := RunCall(device, handles, calls[n], o);
      AfterMore(calls, n, o, reply);
      AnsweredMore(calls, replies, reply);
      o := Perform(o, calls[n]);
      replies := replies + [reply];
    }
  }

  /** One call. */
  method RunCall(device: Device, handles: seq<DevHandle?>, call: Call, ghost o: Owners)
    returns (handles': seq<DevHandle?>, reply: Reply)
    requires Consistent(device, Open(handles)) && Apart(handles) && Valid(device.config, call)
    requires Represents(o, device.claimedInterfaces, handles)
    modifies device, Open(handles)
    ensures Consistent(device, Open(handles')) && Apart(handles')
    ensures Represents(Perform(o, call), device.claimedInterfaces, handles') && reply == Answer(o, call)
    ensures forall h :: h in Open(handles') ==> h in Open(handles) || fresh(h)
  {
    if call.OpenDevice? {
      var h := new DevHandle(device, Open(handles));
      OpenMore(handles, h);
      RepresentsOpen(o, device.claimedInterfaces, handles, h);
      return handles + [h], Success;
    }
    if call.handle >= |handles| || handles[call.handle] == null {
      return handles, UnknownDevice;
    }
    if call.CloseDevice? {
      var h: DevHandle := handles[call.handle];
      ghost var others := Open(handles) - {h};
      assert Open(handles) == others + {h};
      ghost var before := device.claimedInterfaces;
      h.ReleaseAll(device, others);
      OpenLess(handles, call.handle, h);
      RepresentsClose(o, before, device.claimedInterfaces, handles, call.handle);
      return handles[call.handle := null], Success;
    }
    reply := CallInterface(device, handles, call, o);
    return handles, reply;
  }

  /** A call about an interface, by an open handle. */
  method CallInterface(device: Device, handles: seq<DevHandle?>, call: Call, ghost o: Owners) returns (reply: Reply)
    requires Consistent(device, Open(handles)) && Apart(handles) && Valid(device.config, call)
    requires Represents(o, device.claimedInterfaces, handles)
    requires !call.OpenDevice? && !call.CloseDevice? && IsOpen(o, call.handle)
    modifies device, Open(handles)
    ensures Consistent(device, Open(handles))
    ensures Represents(Perform(o, call), device.claimedInterfaces, handles) && reply == Answer(o, call)
  {
    var h: DevHandle := handles[call.handle];
    ghost var others := Open(handles) - {h};
    assert Open(handles) == others + {h};
    OwnerIs(o, device.claimedInterfaces, handles, call.handle, call.ifc);
    ghost var claimed := device.claimedInterfaces;
    match call {
      case ClaimIfc(n, ifc) =>
        reply := h.ClaimInterface(device, others, ifc);
        if reply == Success {
          RepresentsSet(o, claimed, handles, ifc, Perform(o, call), h);
        }
      case Release(_, ifc) =>
        reply := h.ReleaseInterface(device, others, ifc);
        if reply == Success {
          RepresentsSet(o, claimed, handles, ifc, Perform(o, call), null);
        }
      case SetAlt(_, ifc, alt) =>
        reply := h.SetAltInterface(device, others, ifc, alt);
    }
  }
}
