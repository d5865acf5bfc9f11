/** Where the parser of a sequence of descriptors leaves its memory: exactly when it runs out of slots for
    alternate settings, or out of descriptors for the endpoints of the setting in the last slot. */
module AltsettingSlots {
  import opened Lists
  import opened Descriptors
  import opened DescriptorParser

  /** How many descriptors, from `j` on, are interface descriptors with number `fno`. */
  function CountSame(buf: seq<Byte>, ds: seq<seq<Byte>>, j: nat, fno: int): nat
    requires j <= |ds|
    decreases |ds| - j
  {
    if j == |ds| then 0
    else (if IsInterface(buf, Pos(ds, j), fno) then 1 else 0) + CountSame(buf, ds, j + 1, fno)
  }

  /** A buffer of descriptors of 2 to 127 bytes. */
  ghost predicate HoldsShort(buf: seq<Byte>, ds: seq<seq<Byte>>) {
    Holds(buf, ds) && forall i :: 0 <= i < |ds| ==> Short(ds[i])
  }

  /** No interface descriptor from `j` up to `k`. */
  ghost predicate NoInterface(ds: seq<seq<Byte>>, j: nat, k: nat)
    requires k <= |ds| && AllDescs(ds)
  {
    forall i :: j <= i < k ==> ds[i][1] != INTERFACE
  }

  lemma {:induction false} WalkCounts(buf: seq<Byte>, ds: seq<seq<Byte>>, start: nat, j: nat, fno: nat, steps: nat)
    requires Holds(buf, ds) && j < |ds| && start <= Pos(ds, j) && (forall i :: j <= i < |ds| ==> Short(ds[i]))
    requires steps + Pos(ds, j) >= |buf|
    ensures Walk(buf, start, Pos(ds, j), fno, steps) == Some(CountSame(buf, ds, j + 1, fno))
    decreases |ds| - j
  {
    DescAt(buf, ds, j);
    if j + 1 < |ds| {
      WalkCounts(buf, ds, start, j + 1, fno, steps - 1);
    }
  }

  /** On descriptors of up to 127 bytes the walk steps on each of them. */
  lemma {:induction false} LaterAltsCounts(buf: seq<Byte>, ds: seq<seq<Byte>>, j: nat, fno: nat)
    requires Holds(buf, ds) && j < |ds| && forall i :: j <= i < |ds| ==> Short(ds[i])
    ensures LaterAlts(buf, Pos(ds, j), fno) == Some(CountSame(buf, ds, j + 1, fno))
  {
    DescAt(buf, ds, j);
    WalkCounts(buf, ds, Pos(ds, j), j, fno, |buf| - Pos(ds, j));
  }

  // ----- What the parser makes of descriptors -----

  /** The end of a run of class or vendor specific descriptors. */
  function ExtrasEnd(ds: seq<seq<Byte>>, j: nat): (k: nat)
    requires AllDescs(ds) && j <= |ds|
    ensures j <= k <= |ds| && (k < |ds| ==> Proper(ds[k][1]))
    decreases |ds| - j
  {
    if j == |ds| || Proper(ds[j][1]) then j else ExtrasEnd(ds, j + 1)
  }

  lemma {:induction false} NoneInExtras(ds: seq<seq<Byte>>, j: nat)
    requires AllDescs(ds) && j <= |ds|
    ensures NoInterface(ds, j, ExtrasEnd(ds, j))
    decreases |ds| - j
  {
    if j < |ds| && !Proper(ds[j][1]) {
      NoneInExtras(ds, j + 1);
    }
  }

  predicate FullEndpoint(d: seq<Byte>) {
    |d| >= ENDPOINT_SIZE && d[1] == ENDPOINT
  }

  /** The end of a run of class or vendor specific descriptors and endpoint descriptors of full length. */
  function RunEnd(ds: seq<seq<Byte>>, j: nat): (k: nat)
    requires AllDescs(ds) && j <= |ds|
    ensures j <= k <= |ds|
    decreases |ds| - j
  {
    if j == |ds| || (Proper(ds[j][1]) && !FullEndpoint(ds[j])) then j else RunEnd(ds, j + 1)
  }

  lemma {:induction false} NoneInRun(ds: seq<seq<Byte>>, j: nat)
    requires AllDescs(ds) && j <= |ds|
    ensures NoInterface(ds, j, RunEnd(ds, j))
    decreases |ds| - j
  {
    if j < |ds| && (!Proper(ds[j][1]) || FullEndpoint(ds[j])) {
      NoneInRun(ds, j + 1);
    }
  }

  /** The endpoint descriptors from `j` up to `k`. */
  function Endpoints(ds: seq<seq<Byte>>, j: nat, k: nat): nat
    requires AllDescs(ds) && j <= k <= |ds|
    decreases k - j
  {
    if j == k then 0 else (if ds[j][1] == ENDPOINT then 1 else 0) + Endpoints(ds, j + 1, k)
  }

  lemma {:induction false} RunBehindExtras(ds: seq<seq<Byte>>, j: nat)
    requires AllDescs(ds) && j <= |ds|
    ensures var a, k := ExtrasEnd(ds, j), RunEnd(ds, j);
            a <= k == RunEnd(ds, a) && Endpoints(ds, j, k) == Endpoints(ds, a, k)
    decreases |ds| - j
  {
    if j < |ds| && !Proper(ds[j][1]) {
      RunBehindExtras(ds, j + 1);
    }
  }

  lemma {:induction false} SkipsExtras(buf: seq<Byte>, ds: seq<seq<Byte>>, j: nat, checked: bool)
    requires Holds(buf, ds) && j <= |ds|
    ensures Pos(ds, j) <= |buf| && SkipExtras(buf, Pos(ds, j), checked) == Skipped(Pos(ds, ExtrasEnd(ds, j)))
    decreases |ds| - j
  {
    if j == |ds| {
      PosAtEnd(buf, ds);
    } else {
      DescAt(buf, ds, j);
      if !Proper(ds[j][1]) {
        SkipsExtras(buf, ds, j + 1, checked);
      }
    }
  }

  /** One endpoint, from where a run of extra descriptors ended. */
  lemma {:induction false} EndpointExact(buf: seq<Byte>, ds: seq<seq<Byte>>, j: nat) returns (p: Parsed<Endpoint>)
    requires Holds(buf, ds) && j <= |ds| && (j < |ds| ==> Proper(ds[j][1]))
    ensures Pos(ds, j) <= |buf| && p == ParseEndpoint(buf, Pos(ds, j)) && !p.Fault? && (p.Error? <==> j == |ds|)
    ensures j < |ds| ==> p.end == if FullEndpoint(ds[j]) then Pos(ds, ExtrasEnd(ds, j + 1)) else Pos(ds, j)
  {
    SkipsExtras(buf, ds, j, false);
    p := ParseEndpoint(buf, Pos(ds, j));
    if j == |ds| {
      PosAtEnd(buf, ds);
    } else {
      DescAt(buf, ds, j);
      SkipsExtras(buf, ds, j + 1, false);
    }
  }

  /** Endpoints are parsed from a boundary to a boundary; they fail exactly when the descriptors run out. */
  lemma {:induction false} EndpointsExact(buf: seq<Byte>, ds: seq<seq<Byte>>, j: nat, n: nat)
    returns (p: Parsed<seq<Endpoint>>, e: nat)
    requires Holds(buf, ds) && j <= |ds| && (j < |ds| ==> Proper(ds[j][1]))
    ensures Pos(ds, j) <= |buf| && p == ParseEndpoints(buf, Pos(ds, j), n) && !p.Fault?
    ensures EndpointsEnd(ds, j, n, p, e)
    decreases n
  {
    var ep := EndpointExact(buf, ds, j);
    p, e := ParseEndpoints(buf, Pos(ds, j), n), j;
    if n > 0 {
      var rest: Parsed<seq<Endpoint>> := Error;
      if ep.Ok? {
        rest, e := EndpointsExact(buf, ds, NextEndpoint(ds, j), n - 1);
      }
      EndpointsChained(buf, Pos(ds, j), n, p, ep, rest);
      EndpointsEndMore(ds, j, n, p, ep, rest, e);
    }
  }

  /** Where the next endpoint is parsed. */
  function NextEndpoint(ds: seq<seq<Byte>>, j: nat): nat
    requires AllDescs(ds) && j < |ds|
  {
    if FullEndpoint(ds[j]) then ExtrasEnd(ds, j + 1) else j
  }

  lemma EndpointsEndMore(ds: seq<seq<Byte>>, j: nat, n: nat, p: Parsed<seq<Endpoint>>, ep: Parsed<Endpoint>,
                         rest: Parsed<seq<Endpoint>>, e: nat)
    requires AllDescs(ds) && j <= |ds| && n > 0 && (j < |ds| ==> Proper(ds[j][1])) && (ep.Error? <==> j == |ds|)
    requires !ep.Fault? && (ep.Error? ==> p == Error) && (ep.Ok? ==> p == Behind([ep.value], rest))
    requires ep.Ok? ==> EndpointsEnd(ds, NextEndpoint(ds, j), n - 1, rest, e)
    ensures EndpointsEnd(ds, j, n, p, e)
  {
    if j < |ds| && FullEndpoint(ds[j]) {
      RunBehindExtras(ds, j + 1);
    }
  }

  /** How parsing `n` endpoints from the proper descriptor `j` on ends, at `e` if it succeeds. */
  predicate EndpointsEnd(ds: seq<seq<Byte>>, j: nat, n: nat, p: Parsed<seq<Endpoint>>, e: nat)
    requires AllDescs(ds) && j <= |ds|
  {
    var k := RunEnd(ds, j);
    var m := Endpoints(ds, j, k);
    (p.Error? <==> k == |ds| && m < n) &&
    (p.Ok? ==> j <= e <= k && p.end == Pos(ds, e) && if n < m then e < k && ds[e][1] == ENDPOINT else e == k)
  }

  /** bNumEndpoints of the interface descriptor `j`. */
  function Announced(buf: seq<Byte>, ds: seq<seq<Byte>>, j: nat): nat
    requires j <= |ds|
  {
    At(buf, Pos(ds, j) + 4)
  }

  /** The descriptors run out before the endpoints that the interface descriptor `j` announces. */
  predicate CutShort(buf: seq<Byte>, ds: seq<seq<Byte>>, j: nat)
    requires AllDescs(ds) && j < |ds|
  {
    var k := RunEnd(ds, j + 1);
    k == |ds| && Endpoints(ds, j + 1, k) < Announced(buf, ds, j) <= MAX_ENDPOINTS
  }

  /** The interface descriptor `j` announces too many endpoints, and no configuration or device follows it. */
  predicate TooMany(buf: seq<Byte>, ds: seq<seq<Byte>>, j: nat)
    requires AllDescs(ds) && j < |ds|
  {
    var a := ExtrasEnd(ds, j + 1);
    Announced(buf, ds, j) > MAX_ENDPOINTS && !(a < |ds| && (ds[a][1] == CONFIG || ds[a][1] == DEVICE))
  }

  /** Behind the interface descriptor `j` and its endpoints comes the next interface descriptor. */
  predicate GoesOn(buf: seq<Byte>, ds: seq<seq<Byte>>, j: nat)
    requires AllDescs(ds) && j < |ds|
  {
    var k := RunEnd(ds, j + 1);
    k < |ds| && ds[k][1] == INTERFACE && Endpoints(ds, j + 1, k) <= Announced(buf, ds, j) <= MAX_ENDPOINTS
  }

  /** The same, from behind the extra descriptors of the interface descriptor `j`. */
  lemma {:induction false} BehindExact(buf: seq<Byte>, ds: seq<seq<Byte>>, j: nat, a: nat, desc: InterfaceDesc,
                                       extra: seq<Byte>, last: bool,
                    p: Parsed<AltStep>) returns (e: nat)
    requires Holds(buf, ds) && j < |ds| && a == ExtrasEnd(ds, j + 1) && Pos(ds, a) <= |buf| &&
             desc.bNumEndpoints == Announced(buf, ds, j)
    requires p == ParseBehind(buf, Pos(ds, a), desc, extra, last)
    ensures AltEnd(buf, ds, j, last, p, e)
  {
    RunBehindExtras(ds, j + 1);
    PosAtEnd(buf, ds);
    e := a;
    if a < |ds| {
      DescAt(buf, ds, a);
    }
    if !(a < |ds| && (ds[a][1] == CONFIG || ds[a][1] == DEVICE)) {
      var eps;
      eps, e := EndpointsExact(buf, ds, a, desc.bNumEndpoints);
    }
  }

  /** How the alternate setting of the interface descriptor `j` ends: it leaves the memory exactly when it is cut
      short in the last slot, it is refused exactly when it is cut short in another slot or announces too much, and it
      ends at another descriptor of its kind exactly when it goes on. */
  predicate AltEnd(buf: seq<Byte>, ds: seq<seq<Byte>>, j: nat, last: bool, p: Parsed<AltStep>, e: nat)
    requires AllDescs(ds) && j < |ds|
  {
    (p.Fault? <==> last && CutShort(buf, ds, j)) &&
    (p.Error? <==> TooMany(buf, ds, j) || (!last && CutShort(buf, ds, j))) &&
    (p.Ok? ==> j < e <= |ds| && p.end == Pos(ds, e) && (p.value.more <==> Alternate(buf, Pos(ds, e)))) &&
    (GoesOn(buf, ds, j) ==> p.Ok? && e == RunEnd(ds, j + 1)) &&
    (p.Ok? && e < |ds| && ds[e][1] == INTERFACE ==> GoesOn(buf, ds, j))
  }

  lemma {:induction false} AltExact(buf: seq<Byte>, ds: seq<seq<Byte>>, j: nat, last: bool)
    returns (p: Parsed<AltStep>, e: nat)
    requires Holds(buf, ds) && j < |ds| && Pos(ds, j) + INTERFACE_SIZE <= |buf|
    ensures p == ParseAlt(buf, Pos(ds, j), last) && AltEnd(buf, ds, j, last, p, e)
  {
    p := ParseAlt(buf, Pos(ds, j), last);
    DescAt(buf, ds, j);
    SkipsExtras(buf, ds, j + 1, false);
    var a := ExtrasEnd(ds, j + 1);
    e := BehindExact(buf, ds, j, a, InterfaceOf(buf, Pos(ds, j)), buf[Pos(ds, j + 1)..Pos(ds, a)], last, p);
  }

  // ----- Where it leaves its memory -----

  /** The slots counted at the interface descriptor `j`. */
  function Counted(buf: seq<Byte>, ds: seq<seq<Byte>>, j: nat): nat
    requires j < |ds|
  {
    Slots(CountSame(buf, ds, j + 1, At(buf, Pos(ds, j) + 2)))
  }

  /** Read off the descriptors alone, from the interface descriptor `j` on, with `slots` left for its interface and
      `left` more interfaces to come. With `fault`, there comes a setting without a slot, or one cut short in the last
      slot; without, one cut short in another slot, or one that announces too much. */
  predicate Outside(buf: seq<Byte>, ds: seq<seq<Byte>>, j: nat, slots: nat, left: nat, fault: bool)
    requires AllDescs(ds) && j < |ds|
    decreases |ds| - j
  {
    Pos(ds, j) + INTERFACE_SIZE <= |buf| &&
    if slots == 0 then fault
    else if CutShort(buf, ds, j) then slots == 1 <==> fault
    else if TooMany(buf, ds, j) then !fault
    else
      GoesOn(buf, ds, j) &&
      var k := RunEnd(ds, j + 1);
      if Alternate(buf, Pos(ds, k)) then Outside(buf, ds, k, slots - 1, left, fault)
      else left > 0 && Outside(buf, ds, k, Counted(buf, ds, k), left - 1, fault)
  }

  /** A fault, or else a refusal. */
  predicate EndsBadly<T>(p: Parsed<T>, fault: bool) {
    if fault then p.Fault? else p.Error?
  }

  /** `alts` are the settings of one interface and `left` interfaces follow: does that end so? */
  predicate Leaves(buf: seq<Byte>, alts: Parsed<seq<Altsetting>>, left: nat, fault: bool) {
    EndsBadly(alts, fault) ||
    (alts.Ok? && alts.end <= |buf| && EndsBadly(ParseInterfaces(buf, alts.end, left), fault))
  }

  lemma {:induction false} InterfaceHasSlots(buf: seq<Byte>, pos: nat, counted: nat, p: Parsed<seq<Altsetting>>)
    requires pos < |buf| && counted > 0 && At(buf, pos + 1) == INTERFACE &&
             LaterAlts(buf, pos, At(buf, pos + 2)) == Some(counted - 1)
    requires p == ParseAlts(buf, pos, counted % 256)
    ensures ParseInterface(buf, pos) == AsInterface(p)
  {
  }

  lemma {:induction false} InterfaceAt(buf: seq<Byte>, ds: seq<seq<Byte>>, j: nat)
    requires HoldsShort(buf, ds) && j < |ds|
    ensures Pos(ds, j) < |buf|
    ensures ParseInterface(buf, Pos(ds, j)) ==
            if ds[j][1] == INTERFACE then AsInterface(ParseAlts(buf, Pos(ds, j), Counted(buf, ds, j)))
            else Ok(NO_INTERFACE, |buf|)
  {
    DescAt(buf, ds, j);
    if ds[j][1] == INTERFACE {
      var number := At(buf, Pos(ds, j) + 2);
      LaterAltsCounts(buf, ds, j, number);
      InterfaceHasSlots(buf, Pos(ds, j), 1 + CountSame(buf, ds, j + 1, number),
                        ParseAlts(buf, Pos(ds, j), Counted(buf, ds, j)));
    }
  }

  lemma {:induction false} InterfacesChained(buf: seq<Byte>, pos: nat, n: nat, p: Parsed<Interface>,
                                             fault: bool)
    requires pos < |buf| && n > 0 && p == ParseInterface(buf, pos)
    ensures EndsBadly(ParseInterfaces(buf, pos, n), fault) <==>
            EndsBadly(p, fault) || (p.Ok? && EndsBadly(ParseInterfaces(buf, p.end, n - 1), fault))
  {
  }

  lemma {:induction false} AtTheEnd(buf: seq<Byte>, n: nat, fault: bool)
    ensures !EndsBadly(ParseInterfaces(buf, |buf|, n), fault)
  {
  }

  /** Interfaces from descriptor `j` on: only another interface descriptor can lead outside. */
  lemma {:induction false} InterfacesAt(buf: seq<Byte>, ds: seq<seq<Byte>>, j: nat, left: nat, fault: bool)
    requires HoldsShort(buf, ds) && j <= |ds|
    ensures Pos(ds, j) <= |buf|
    ensures EndsBadly(ParseInterfaces(buf, Pos(ds, j), left), fault) <==>
            left > 0 && j < |ds| && ds[j][1] == INTERFACE &&
            Leaves(buf, ParseAlts(buf, Pos(ds, j), Counted(buf, ds, j)), left - 1, fault)
  {
    PosAtEnd(buf, ds);
    if j == |ds| {
      AtTheEnd(buf, left, fault);
    } else {
      InterfaceAt(buf, ds, j);
      if left > 0 {
        InterfacesChained(buf, Pos(ds, j), left, ParseInterface(buf, Pos(ds, j)), fault);
        AtTheEnd(buf, left - 1, fault);
      }
    }
  }

  /** An interface descriptor without enough bytes behind it is never passed. */
  lemma {:induction false} Stuck(buf: seq<Byte>, ds: seq<seq<Byte>>, j: nat, left: nat, fault: bool)
    requires HoldsShort(buf, ds) && j < |ds| && Pos(ds, j) + INTERFACE_SIZE > |buf|
    ensures Pos(ds, j) <= |buf| && !EndsBadly(ParseInterfaces(buf, Pos(ds, j), left), fault)
    decreases left
  {
    InterfacesAt(buf, ds, j, left, fault);
    if left > 0 {
      Stuck(buf, ds, j, left - 1, fault);
    }
  }

  lemma {:induction false} LeavesChained(buf: seq<Byte>, all: Parsed<seq<Altsetting>>, p: Parsed<AltStep>,
                                         rest: Parsed<seq<Altsetting>>, left: nat, fault: bool)
    requires Chained(all, p, rest) && (p.Ok? ==> p.end <= |buf|)
    ensures Leaves(buf, all, left, fault) <==>
            EndsBadly(p, fault) ||
            (p.Ok? && if p.value.more then Leaves(buf, rest, left, fault)
                      else EndsBadly(ParseInterfaces(buf, p.end, left), fault))
  {
  }

  /** Whether the rest behind one alternate setting, ended at descriptor `e`, leads outside. */
  predicate OutsideBehind(buf: seq<Byte>, ds: seq<seq<Byte>>, e: nat, slots: nat, left: nat, fault: bool)
    requires AllDescs(ds) && e <= |ds|
  {
    e < |ds| && ds[e][1] == INTERFACE &&
    if Alternate(buf, Pos(ds, e)) then Outside(buf, ds, e, slots, left, fault)
    else left > 0 && Outside(buf, ds, e, Counted(buf, ds, e), left - 1, fault)
  }

  lemma {:induction false} OutsideUnfolds(buf: seq<Byte>, ds: seq<seq<Byte>>, j: nat, slots: nat, left: nat,
                                          fault: bool, p: Parsed<AltStep>, e: nat)
    requires AllDescs(ds) && j < |ds| && Pos(ds, j) + INTERFACE_SIZE <= |buf| && slots > 0 &&
             AltEnd(buf, ds, j, slots == 1, p, e)
    ensures Outside(buf, ds, j, slots, left, fault) <==>
            EndsBadly(p, fault) || (p.Ok? && OutsideBehind(buf, ds, e, slots - 1, left, fault))
  {
  }

  /** What `Outside` reads off the descriptors is what the parser does. */
  lemma {:induction false} LeavesOutside(buf: seq<Byte>, ds: seq<seq<Byte>>, j: nat, slots: nat, left: nat, fault: bool)
    requires HoldsShort(buf, ds) && j < |ds|
    ensures Pos(ds, j) <= |buf|
    ensures Leaves(buf, ParseAlts(buf, Pos(ds, j), slots), left, fault) <==> Outside(buf, ds, j, slots, left, fault)
    decreases |ds| - j, 1
  {
    SkipsExtras(buf, ds, j, false);
    if Pos(ds, j) + INTERFACE_SIZE > |buf| {
      Stuck(buf, ds, j, left, fault);
    } else if slots > 0 {
      var p, e := LeavesPass(buf, ds, j, slots, left, fault);
      if p.Ok? {
        LeavesBehind(buf, ds, j, e, slots - 1, left, fault);
      }
    }
  }

  /** One pass: whether it and what is behind it lead outside is what `Outside` says, if that is so behind it. */
  lemma LeavesPass(buf: seq<Byte>, ds: seq<seq<Byte>>, j: nat, slots: nat, left: nat, fault: bool)
    returns (p: Parsed<AltStep>, e: nat)
    requires HoldsShort(buf, ds) && j < |ds| && Pos(ds, j) + INTERFACE_SIZE <= |buf| && slots > 0
    ensures p.Ok? ==> j < e <= |ds| && Pos(ds, e) <= |buf|
    ensures (p.Ok? ==> LeadsOutside(buf, ds, e, slots - 1, left, fault)) ==>
              (Leaves(buf, ParseAlts(buf, Pos(ds, j), slots), left, fault) <==> Outside(buf, ds, j, slots, left, fault))
  {
    var all := ParseAlts(buf, Pos(ds, j), slots);
    p, e := AltExact(buf, ds, j, slots == 1);
    var rest := AltsChained(buf, Pos(ds, j), slots, all, p);
    LeavesChained(buf, all, p, rest, left, fault);
    OutsideUnfolds(buf, ds, j, slots, left, fault, p, e);
  }

  /** Behind a setting that ended at descriptor `e` the parser does what is read off the descriptors. */
  ghost predicate LeadsOutside(buf: seq<Byte>, ds: seq<seq<Byte>>, e: nat, slots: nat, left: nat, fault: bool)
    requires AllDescs(ds) && e <= |ds| && Pos(ds, e) <= |buf|
  {
    OutsideBehind(buf, ds, e, slots, left, fault) <==>
    if Alternate(buf, Pos(ds, e)) then Leaves(buf, ParseAlts(buf, Pos(ds, e), slots), left, fault)
    else EndsBadly(ParseInterfaces(buf, Pos(ds, e), left), fault)
  }

  lemma {:induction false} LeavesBehind(buf: seq<Byte>, ds: seq<seq<Byte>>, j: nat, e: nat, slots: nat, left: nat,
                                        fault: bool)
    requires HoldsShort(buf, ds) && j < e <= |ds|
    ensures Pos(ds, e) <= |buf|
    ensures OutsideBehind(buf, ds, e, slots, left, fault) <==>
            if Alternate(buf, Pos(ds, e)) then Leaves(buf, ParseAlts(buf, Pos(ds, e), slots), left, fault)
            else EndsBadly(ParseInterfaces(buf, Pos(ds, e), left), fault)
    decreases |ds| - j, 0
  {
    InterfacesAt(buf, ds, e, left, fault);
    if Alternate(buf, Pos(ds, e)) {
      MoreGoesOn(buf, ds, j, e);
      LeavesOutside(buf, ds, e, slots, left, fault);
    } else if e < |ds| && left > 0 {
      LeavesOutside(buf, ds, e, Counted(buf, ds, e), left - 1, fault);
    }
  }

  lemma {:induction false} MoreGoesOn(buf: seq<Byte>, ds: seq<seq<Byte>>, j: nat, e: nat)
    requires Holds(buf, ds) && j < e <= |ds| && Alternate(buf, Pos(ds, e))
    ensures e < |ds| && ds[e][1] == INTERFACE
  {
    PosAtEnd(buf, ds);
    if e < |ds| {
      DescAt(buf, ds, e);
    }
  }

  lemma {:induction false} ChainedEnd(all: Parsed<seq<Altsetting>>, p: Parsed<AltStep>, rest: Parsed<seq<Altsetting>>)
    requires Chained(all, p, rest) && all.Ok?
    ensures p.Ok? && if p.value.more then rest.Ok? && all.end == rest.end else all.end == p.end
  {
  }

  lemma {:induction false} AltsBoundary(buf: seq<Byte>, ds: seq<seq<Byte>>, j: nat, room: nat)
    returns (p: Parsed<seq<Altsetting>>, k: nat)
    requires Holds(buf, ds) && j < |ds|
    ensures Pos(ds, j) <= |buf| && p == ParseAlts(buf, Pos(ds, j), room)
    ensures p.Ok? ==> j <= k <= |ds| && p.end == Pos(ds, k)
    decreases room
  {
    SkipsExtras(buf, ds, j, false);
    p, k := ParseAlts(buf, Pos(ds, j), room), j;
    if Pos(ds, j) + INTERFACE_SIZE <= |buf| && room > 0 {
      var alt;
      alt, k := AltExact(buf, ds, j, room == 1);
      var rest := AltsChained(buf, Pos(ds, j), room, p, alt);
      if alt.Ok? && alt.value.more {
        MoreGoesOn(buf, ds, j, k);
        rest, k := AltsBoundary(buf, ds, k, room - 1);
      }
      if p.Ok? {
        ChainedEnd(p, alt, rest);
      }
    }
  }

  lemma {:induction false} InterfaceBoundary(buf: seq<Byte>, ds: seq<seq<Byte>>, j: nat)
    returns (p: Parsed<Interface>, k: nat)
    requires HoldsShort(buf, ds) && j < |ds|
    ensures Pos(ds, j) < |buf| && p == ParseInterface(buf, Pos(ds, j))
    ensures p.Ok? ==> j <= k <= |ds| && p.end == Pos(ds, k)
  {
    InterfaceAt(buf, ds, j);
    PosAtEnd(buf, ds);
    p, k := ParseInterface(buf, Pos(ds, j)), |ds|;
    if ds[j][1] == INTERFACE {
      var alts;
      alts, k := AltsBoundary(buf, ds, j, Counted(buf, ds, j));
    }
  }

  lemma {:induction false} InterfacesBoundary(buf: seq<Byte>, ds: seq<seq<Byte>>, j: nat, n: nat)
    returns (p: Parsed<seq<Interface>>, k: nat)
    requires HoldsShort(buf, ds) && j <= |ds|
    ensures Pos(ds, j) <= |buf| && p == ParseInterfaces(buf, Pos(ds, j), n)
    ensures p.Ok? ==> j <= k <= |ds| && p.end == Pos(ds, k)
    decreases n
  {
    SkipsExtras(buf, ds, j, false);
    PosAtEnd(buf, ds);
    p, k := ParseInterfaces(buf, Pos(ds, j), n), j;
    if n > 0 && j < |ds| {
      var ifc;
      var rest: Parsed<seq<Interface>> := Error;
      ifc, k := InterfaceBoundary(buf, ds, j);
      if ifc.Ok? {
        rest, k := InterfacesBoundary(buf, ds, k, n - 1);
      }
      InterfacesEnd(buf, Pos(ds, j), n, p, ifc, rest);
    }
  }

  lemma InterfacesEnd(buf: seq<Byte>, pos: nat, n: nat, p: Parsed<seq<Interface>>, ifc: Parsed<Interface>,
                      rest: Parsed<seq<Interface>>)
    requires pos < |buf| && n > 0 && p == ParseInterfaces(buf, pos, n) && ifc == ParseInterface(buf, pos)
    requires ifc.Ok? ==> rest == ParseInterfaces(buf, ifc.end, n - 1)
    ensures p.Ok? ==> ifc.Ok? && rest.Ok? && p.end == rest.end
  {
  }

  /** On every sequence of descriptors of 2 to 127 bytes the parser of a configuration leaves its memory, and refuses
      the configuration, exactly when `Outside` says so of the first interface descriptor, or too many interfaces are
      announced; otherwise it ends with a tree, and what is left starts at a descriptor. */
  lemma {:induction false} FaultsIff(buf: seq<Byte>, ds: seq<seq<Byte>>) returns (k: nat)
    requires HoldsShort(buf, ds) && ds != []
    ensures var r, j, n := ParseConfiguration(buf), ExtrasEnd(ds, 1), ConfigOf(buf).bNumInterfaces;
            var any := n > 0 && j < |ds| && ds[j][1] == INTERFACE;
            (r.Faulted? <==> n <= MAX_INTERFACES && any && Outside(buf, ds, j, Counted(buf, ds, j), n - 1, true)) &&
            (r.Rejected? <==> n > MAX_INTERFACES || (any && Outside(buf, ds, j, Counted(buf, ds, j), n - 1, false))) &&
            (r.Tree? ==> k <= |ds| && r.left == |buf| - Pos(ds, k))
  {
    var j, n := ExtrasEnd(ds, 1), ConfigOf(buf).bNumInterfaces;
    DescAt(buf, ds, 0);
    SkipsExtras(buf, ds, 1, true);
    var p;
    p, k := InterfacesBoundary(buf, ds, j, n);
    ConfigurationEnds(buf, Pos(ds, j), p);
    InterfacesEndBadly(buf, ds, j, n, true);
    InterfacesEndBadly(buf, ds, j, n, false);
  }

  lemma InterfacesEndBadly(buf: seq<Byte>, ds: seq<seq<Byte>>, j: nat, n: nat, fault: bool)
    requires HoldsShort(buf, ds) && j <= |ds|
    ensures Pos(ds, j) <= |buf|
    ensures EndsBadly(ParseInterfaces(buf, Pos(ds, j), n), fault) <==>
            n > 0 && j < |ds| && ds[j][1] == INTERFACE && Outside(buf, ds, j, Counted(buf, ds, j), n - 1, fault)
  {
    InterfacesAt(buf, ds, j, n, fault);
    if n > 0 && j < |ds| && ds[j][1] == INTERFACE {
      LeavesOutside(buf, ds, j, Counted(buf, ds, j), n - 1, fault);
    }
  }

  lemma ConfigurationEnds(buf: seq<Byte>, start: nat, p: Parsed<seq<Interface>>)
    requires buf != [] && buf[0] <= |buf| && SkipExtras(buf, buf[0], true) == Skipped(start)
    requires p == ParseInterfaces(buf, start, ConfigOf(buf).bNumInterfaces)
    ensures var r, n := ParseConfiguration(buf), ConfigOf(buf).bNumInterfaces;
            (r.Faulted? <==> n <= MAX_INTERFACES && p.Fault?) && (r.Rejected? <==> n > MAX_INTERFACES || p.Error?) &&
            (r.Tree? ==> p.Ok? && r.left == |buf| - p.end)
  {
  }

  // ----- Fewer slots -----

  lemma {:induction false} CountBehind(buf: seq<Byte>, ds: seq<seq<Byte>>, fno: int, j: nat, k: nat)
    requires Holds(buf, ds) && j <= k <= |ds| && NoInterface(ds, j, k)
    ensures CountSame(buf, ds, j, fno) == CountSame(buf, ds, k, fno)
    decreases k - j
  {
    if j < k {
      DescAt(buf, ds, j);
      CountBehind(buf, ds, fno, j + 1, k);
    }
  }

  /** Whether a slot is the last only matters for a setting that fails. */
  lemma {:induction false} LastWhenOk(buf: seq<Byte>, pos: nat, last: bool, last': bool, p: Parsed<AltStep>,
                                      q: Parsed<AltStep>)
    requires pos + INTERFACE_SIZE <= |buf| && p == ParseAlt(buf, pos, last) && q == ParseAlt(buf, pos, last')
    ensures p.Ok? ==> q == p
  {
  }

  /** `q` is `p` with only `less` slots. */
  predicate Fewer(p: Parsed<seq<Altsetting>>, q: Parsed<seq<Altsetting>>, less: int) {
    p.Ok? ==> q == if |p.value| <= less then p else Fault
  }

  lemma FewerChained(p: Parsed<seq<Altsetting>>, q: Parsed<seq<Altsetting>>, step: Parsed<AltStep>,
                     step': Parsed<AltStep>,
                     rest: Parsed<seq<Altsetting>>, rest': Parsed<seq<Altsetting>>, less: nat)
    requires Chained(p, step, rest) && Chained(q, step', rest') && less > 0 && (step.Ok? ==> step' == step)
    requires step.Ok? && step.value.more ==> Fewer(rest, rest', less - 1)
    ensures Fewer(p, q, less)
  {
  }

  /** With fewer slots the loop only differs by leaving them. */
  lemma {:induction false} FewerSlots(buf: seq<Byte>, pos: nat, room: nat, less: nat, p: Parsed<seq<Altsetting>>,
                                      q: Parsed<seq<Altsetting>>)
    requires pos <= |buf| && p == ParseAlts(buf, pos, room) && q == ParseAlts(buf, pos, less)
    ensures Fewer(p, q, less)
    decreases room
  {
    if pos + INTERFACE_SIZE <= |buf| && room > 0 && less > 0 {
      var step, step' := ParseAlt(buf, pos, room == 1), ParseAlt(buf, pos, less == 1);
      LastWhenOk(buf, pos, room == 1, less == 1, step, step');
      var rest := AltsChained(buf, pos, room, p, step);
      var rest' := AltsChained(buf, pos, less, q, step');
      if step.Ok? && step.value.more {
        FewerSlots(buf, step.end, room - 1, less - 1, rest, rest');
      }
      FewerChained(p, q, step, step', rest, rest', less);
    }
  }

  lemma {:induction false} SlotsTruncated(buf: seq<Byte>, pos: nat, counted: nat, p: Parsed<seq<Altsetting>>)
    requires pos < |buf| && counted > 0 && At(buf, pos + 1) == INTERFACE &&
             LaterAlts(buf, pos, At(buf, pos + 2)) == Some(counted - 1)
    requires p == ParseAlts(buf, pos, counted)
    ensures counted <= 255 ==> ParseInterface(buf, pos) == AsInterface(p)
    ensures p.Ok? ==> ParseInterface(buf, pos) == if |p.value| <= counted % 256 then AsInterface(p) else Fault
  {
    var truncated := counted % 256;
    var q := ParseAlts(buf, pos, truncated);
    InterfaceHasSlots(buf, pos, counted, q);
    FewerSlots(buf, pos, counted, truncated, p, q);
    assert counted <= 255 ==> truncated == counted;
  }
}
