/** What the scanners find in a printed configuration is what a lookup in its tree finds. */
module DescriptorAgreement {
  import opened Lists
  import opened Descriptors
  import opened DescriptorParser
  import opened AltsettingSlots
  import opened DescriptorRoundTrip
  import opened DescriptorScanners

  // ----- Lookups in the tree -----

  function LookupAlts(alts: seq<Altsetting>, number: nat, alt: nat): Option<Altsetting> {
    if alts == [] then None
    else if alts[0].desc.bInterfaceNumber == number && alts[0].desc.bAlternateSetting == alt then Some(alts[0])
    else LookupAlts(alts[1..], number, alt)
  }

  function Lookup(ifcs: seq<Interface>, number: nat, alt: nat): Option<Altsetting> {
    if ifcs == [] then None
    else
      var a := LookupAlts(ifcs[0].altsettings, number, alt);
      if a.Some? then a else Lookup(ifcs[1..], number, alt)
  }

  // ----- Where the scanners stop -----

  lemma {:induction false} FindBehind(buf: seq<Byte>, ds: seq<seq<Byte>>, j: nat, k: nat, number: nat, alt: nat,
                                      least: nat)
    requires Holds(buf, ds) && j <= k <= |ds| && NoInterface(ds, j, k) && least < INTERFACE_SIZE
    ensures FindAlt(buf, Pos(ds, j), number, alt, least) == FindAlt(buf, Pos(ds, k), number, alt, least)
    decreases k - j
  {
    if j < k {
      DescAt(buf, ds, j);
      PosIncreases(ds, j, k);
      FindBehind(buf, ds, j + 1, k, number, alt, least);
    }
  }

  lemma FindHere(buf: seq<Byte>, ds: seq<seq<Byte>>, j: nat, number: nat, alt: nat, least: nat)
    requires Holds(buf, ds) && j < |ds| && |ds[j]| >= INTERFACE_SIZE > least && ds[j][1] == INTERFACE
    ensures FindAlt(buf, Pos(ds, j), number, alt, least) ==
            if ds[j][2] == number && ds[j][3] == alt then Some(Pos(ds, j))
            else FindAlt(buf, Pos(ds, j + 1), number, alt, least)
  {
    DescAt(buf, ds, j);
    DescBytes(buf, ds, j);
  }

  lemma FindInAlt(buf: seq<Byte>, ds: seq<seq<Byte>>, j: nat, a: RawAltsetting, number: nat, alt: nat, least: nat)
    requires Holds(buf, ds) && GoodAlt(a) && Sub(ds, j, OneAltDescs(a)) && least < INTERFACE_SIZE
    ensures FindAlt(buf, Pos(ds, j), number, alt, least) ==
            if a.raw[2] == number && a.raw[3] == alt then Some(Pos(ds, j))
            else FindAlt(buf, Pos(ds, j + |OneAltDescs(a)|), number, alt, least)
  {
    SubAt(ds, j, OneAltDescs(a), 0);
    FindHere(buf, ds, j, number, alt, least);
    NoneInEndpoints(ds, j, a);
    FindBehind(buf, ds, j + 1, j + |OneAltDescs(a)|, number, alt, least);
  }

  lemma {:induction false} FindInAlts(buf: seq<Byte>, ds: seq<seq<Byte>>, j: nat, alts: seq<RawAltsetting>,
                                      number: nat, alt: nat, least: nat)
    returns (a: Option<RawAltsetting>, e: nat)
    requires Holds(buf, ds) && Sub(ds, j, AltDescs(alts)) && least < INTERFACE_SIZE
    requires forall i :: 0 <= i < |alts| ==> GoodAlt(alts[i])
    ensures e <= |ds|
    ensures a.Some? ==> GoodAlt(a.value) && Sub(ds, e, OneAltDescs(a.value)) &&
                        FindAlt(buf, Pos(ds, j), number, alt, least) == Some(Pos(ds, e)) &&
                        LookupAlts(TreeOfAlts(alts), number, alt) == Some(TreeOfAlt(a.value))
    ensures a.None? ==> e == j + |AltDescs(alts)| && LookupAlts(TreeOfAlts(alts), number, alt) == None &&
                        FindAlt(buf, Pos(ds, j), number, alt, least) == FindAlt(buf, Pos(ds, e), number, alt, least)
    decreases |alts|
  {
    a, e := None, j;
    if alts != [] {
      var m := j + |OneAltDescs(alts[0])|;
      SubParts(ds, j, OneAltDescs(alts[0]), AltDescs(alts[1..]));
      FindInAlt(buf, ds, j, alts[0], number, alt, least);
      if alts[0].raw[2] == number && alts[0].raw[3] == alt {
        a := Some(alts[0]);
      } else {
        a, e := FindInAlts(buf, ds, m, alts[1..], number, alt, least);
      }
    }
  }

  lemma {:induction false} FindInInterfaces(buf: seq<Byte>, ds: seq<seq<Byte>>, j: nat, ifcs: seq<seq<RawAltsetting>>,
                                            number: nat, alt: nat, least: nat)
    returns (a: Option<RawAltsetting>, e: nat)
    requires Holds(buf, ds) && GoodInterfaces(ifcs) && Sub(ds, j, InterfaceDescs(ifcs)) && least < INTERFACE_SIZE
    requires j + |InterfaceDescs(ifcs)| == |ds|
    ensures e <= |ds|
    ensures a.Some? ==> GoodAlt(a.value) && Sub(ds, e, OneAltDescs(a.value)) &&
                        FindAlt(buf, Pos(ds, j), number, alt, least) == Some(Pos(ds, e)) &&
                        Lookup(TreeOfInterfaces(ifcs), number, alt) == Some(TreeOfAlt(a.value))
    ensures a.None? ==> FindAlt(buf, Pos(ds, j), number, alt, least) == None &&
                        Lookup(TreeOfInterfaces(ifcs), number, alt) == None
    decreases |ifcs|
  {
    if ifcs == [] {
      a, e := None, j;
      PosAtEnd(buf, ds);
    } else {
      SubParts(ds, j, AltDescs(ifcs[0]), InterfaceDescs(ifcs[1..]));
      assert GoodInterface(ifcs[0]);
      a, e := FindInAlts(buf, ds, j, ifcs[0], number, alt, least);
      if a.None? {
        a, e := FindInInterfaces(buf, ds, e, ifcs[1..], number, alt, least);
      }
    }
  }

  lemma FindInConfig(c: RawConfig, number: nat, alt: nat, least: nat) returns (a: Option<RawAltsetting>, e: nat)
    requires GoodConfig(c) && least < INTERFACE_SIZE
    ensures Holds(Print(c), ConfigDescs(c)) && |Print(c)| >= CONFIG_SIZE && e <= |ConfigDescs(c)|
    ensures var found, looked := FindAlt(Print(c), 0, number, alt, least), Lookup(TreeOf(c).interfaces, number, alt);
            match a
            case None => found == None && looked == None
            case Some(a) => GoodAlt(a) && Sub(ConfigDescs(c), e, OneAltDescs(a)) && looked == Some(TreeOfAlt(a)) &&
                            found == Some(Pos(ConfigDescs(c), e))
  {
    var buf, ds := Print(c), ConfigDescs(c);
    ConfigDescsGood(c);
    FlatHolds(ds);
    ConfigLaid(c);
    DescAt(buf, ds, 0);
    var j := 1 + |c.extras|;
    forall i | 0 <= i < j ensures ds[i][1] != INTERFACE {
      if i > 0 {
        SubAt(ds, 1, c.extras, i - 1);
      }
    }
    FindBehind(buf, ds, 0, j, number, alt, least);
    a, e := FindInInterfaces(buf, ds, j, c.interfaces, number, alt, least);
  }

  // ----- Interfaces -----

  /** On every configuration the scanner finds the descriptor of the alternate setting that the tree has,
      and nothing if it has none. */
  lemma InterfaceAgrees(c: RawConfig, number: nat, alt: nat)
    requires GoodConfig(c)
    ensures |Print(c)| >= CONFIG_SIZE
    ensures InterfaceDescAt(Print(c), FindAlt(Print(c), 0, number, alt, 3)) ==
            match Lookup(TreeOf(c).interfaces, number, alt)
            case Some(a) => Found(a.desc)
            case None => ParseError
  {
    var buf, ds := Print(c), ConfigDescs(c);
    var a, e := FindInConfig(c, number, alt, 3);
    if a.Some? {
      SubAt(ds, e, OneAltDescs(a.value), 0);
      DescAt(buf, ds, e);
      InterfaceFields(buf, ds, e);
    }
  }

  // ----- Endpoints -----

  lemma {:induction false} NthBehind(buf: seq<Byte>, ds: seq<seq<Byte>>, start: nat, j: nat, extras: seq<seq<Byte>>,
                                     i: nat, n: nat)
    requires Holds(buf, ds) && Sub(ds, j, extras) && GoodExtras(extras) && i <= |extras|
    ensures NthDesc(buf, start, Pos(ds, j + i), ENDPOINT, n, INTERFACE) ==
            NthDesc(buf, start, Pos(ds, j + |extras|), ENDPOINT, n, INTERFACE)
    decreases |extras| - i
  {
    if i < |extras| {
      SubAt(ds, j, extras, i);
      DescAt(buf, ds, j + i);
      NthBehind(buf, ds, start, j, extras, i + 1, n);
    }
  }

  lemma {:induction false} NthEndpoint(buf: seq<Byte>, ds: seq<seq<Byte>>, start: nat, j: nat, eps: seq<RawEndpoint>,
                                       n: nat)
    returns (e: nat)
    requires Holds(buf, ds) && GoodEndpoints(eps) && Sub(ds, j, EndpointDescs(eps)) && n < |eps|
    ensures e < |ds| && ds[e] == eps[n].raw
    ensures NthDesc(buf, start, Pos(ds, j), ENDPOINT, n, INTERFACE) == Some(Pos(ds, e))
    ensures TreeOfEndpoints(eps)[n] == TreeOfEndpoint(eps[n])
    decreases n
  {
    SubParts(ds, j, [eps[0].raw] + eps[0].extras, EndpointDescs(eps[1..]));
    EndpointLaid(ds, j, eps[0]);
    DescAt(buf, ds, j);
    e := j;
    if n > 0 {
      NthBehind(buf, ds, start, j + 1, eps[0].extras, 0, n - 1);
      e := NthEndpoint(buf, ds, start, j + 1 + |eps[0].extras|, eps[1..], n - 1);
    }
  }

  /** The search for an endpoint of an alternate setting, from its own descriptor on. */
  lemma {:induction false} NthOfAlt(buf: seq<Byte>, ds: seq<seq<Byte>>, e: nat, a: RawAltsetting, n: nat)
    returns (k: nat)
    requires Holds(buf, ds) && GoodAlt(a) && Sub(ds, e, OneAltDescs(a)) && n < |a.endpoints|
    ensures k < |ds| && ds[k] == a.endpoints[n].raw && TreeOfEndpoints(a.endpoints)[n] == TreeOfEndpoint(a.endpoints[n])
    ensures NthDesc(buf, Pos(ds, e), Pos(ds, e), ENDPOINT, n, INTERFACE) == Some(Pos(ds, k))
  {
    SubParts(ds, e, [a.raw] + a.extras, EndpointDescs(a.endpoints));
    SubParts(ds, e, [a.raw], a.extras);
    SubAt(ds, e, [a.raw], 0);
    DescAt(buf, ds, e);
    NthBehind(buf, ds, Pos(ds, e), e + 1, a.extras, 0, n);
    k := NthEndpoint(buf, ds, Pos(ds, e), e + 1 + |a.extras|, a.endpoints, n);
  }

  /** The scanner for endpoints from there on. */
  lemma EndpointOfAlt(buf: seq<Byte>, ds: seq<seq<Byte>>, e: nat, a: RawAltsetting, index: nat)
    requires Holds(buf, ds) && GoodAlt(a) && Sub(ds, e, OneAltDescs(a))
    ensures EndpointDescAt(buf, Some(Pos(ds, e)), index) ==
            if index < |a.endpoints| then Found(CommonOf(TreeOfEndpoints(a.endpoints)[index].desc)) else BadArg
  {
    SubAt(ds, e, OneAltDescs(a), 0);
    DescBytes(buf, ds, e);
    assert ds[e][4] == |a.endpoints|;
    if index < |a.endpoints| {
      var k := NthOfAlt(buf, ds, e, a, index);
      assert GoodEndpoint(a.endpoints[index]);
      DescAt(buf, ds, k);
      EndpointFields(buf, ds, k);
    }
  }

  /** The same for endpoints; an index the alternate setting does not have is a bad argument. */
  lemma EndpointAgrees(c: RawConfig, number: nat, alt: nat, index: nat)
    requires GoodConfig(c)
    ensures EndpointDescAt(Print(c), FindAlt(Print(c), 0, number, alt, 4), index) ==
            match Lookup(TreeOf(c).interfaces, number, alt)
            case None => ParseError
            case Some(a) => if index < |a.endpoints| then Found(CommonOf(a.endpoints[index].desc)) else BadArg
  {
    var a, e := FindInConfig(c, number, alt, 4);
    if a.Some? {
      EndpointOfAlt(Print(c), ConfigDescs(c), e, a.value, index);
    }
  }

  // ----- Every node is found -----

  /** No two alternate settings with the same interface and setting number. */
  ghost predicate DistinctPairs(ifcs: seq<Interface>) {
    forall i, j, k, l :: 0 <= i < |ifcs| && 0 <= j < |ifcs[i].altsettings| && 0 <= k < |ifcs| &&
                         0 <= l < |ifcs[k].altsettings| &&
                         ifcs[i].altsettings[j].desc.bInterfaceNumber == ifcs[k].altsettings[l].desc.bInterfaceNumber &&
                         ifcs[i].altsettings[j].desc.bAlternateSetting ==
                           ifcs[k].altsettings[l].desc.bAlternateSetting ==>
                         i == k && j == l
  }

  /** The lookup finds some alternate setting of the tree with the two numbers, if there is one. */
  lemma {:induction false} LookupFinds(ifcs: seq<Interface>, number: nat, alt: nat) returns (i: nat, j: nat)
    ensures Lookup(ifcs, number, alt).Some? ==>
              i < |ifcs| && j < |ifcs[i].altsettings| && Lookup(ifcs, number, alt) == Some(ifcs[i].altsettings[j]) &&
              ifcs[i].altsettings[j].desc.bInterfaceNumber == number &&
              ifcs[i].altsettings[j].desc.bAlternateSetting == alt
    ensures Lookup(ifcs, number, alt).None? ==>
              forall k, l :: 0 <= k < |ifcs| && 0 <= l < |ifcs[k].altsettings| ==>
                !(ifcs[k].altsettings[l].desc.bInterfaceNumber == number &&
                  ifcs[k].altsettings[l].desc.bAlternateSetting == alt)
  {
    i, j := 0, 0;
    if ifcs != [] {
      j := FoundIn(ifcs[0].altsettings, number, alt);
      if LookupAlts(ifcs[0].altsettings, number, alt).None? {
        i, j := LookupFinds(ifcs[1..], number, alt);
        i := i + 1;
      }
    }
  }

  lemma {:induction false} FoundIn(alts: seq<Altsetting>, number: nat, alt: nat) returns (j: nat)
    ensures LookupAlts(alts, number, alt).Some? ==>
              j < |alts| && LookupAlts(alts, number, alt) == Some(alts[j]) &&
              alts[j].desc.bInterfaceNumber == number && alts[j].desc.bAlternateSetting == alt
    ensures LookupAlts(alts, number, alt).None? ==>
              forall k :: 0 <= k < |alts| ==>
                !(alts[k].desc.bInterfaceNumber == number && alts[k].desc.bAlternateSetting == alt)
  {
    j := 0;
    if alts != [] && !(alts[0].desc.bInterfaceNumber == number && alts[0].desc.bAlternateSetting == alt) {
      j := FoundIn(alts[1..], number, alt);
      j := j + 1;
    }
  }

  /** With different pairs, the scanners return just the fields of each node of the tree. */
  lemma NodesFound(c: RawConfig, i: nat, j: nat)
    requires GoodConfig(c) && DistinctPairs(TreeOf(c).interfaces)
    requires i < |c.interfaces| && j < |TreeOf(c).interfaces[i].altsettings|
    ensures var buf, a := Print(c), TreeOf(c).interfaces[i].altsettings[j];
            var number, alt := a.desc.bInterfaceNumber, a.desc.bAlternateSetting;
            InterfaceDescAt(buf, FindAlt(buf, 0, number, alt, 3)) == Found(a.desc) &&
            forall n :: 0 <= n < |a.endpoints| ==>
              EndpointDescAt(buf, FindAlt(buf, 0, number, alt, 4), n) == Found(CommonOf(a.endpoints[n].desc))
  {
    var buf, a := Print(c), TreeOf(c).interfaces[i].altsettings[j];
    var number, alt := a.desc.bInterfaceNumber, a.desc.bAlternateSetting;
    var k, l := LookupFinds(TreeOf(c).interfaces, number, alt);
    InterfaceAgrees(c, number, alt);
    forall n | 0 <= n < |a.endpoints|
      ensures EndpointDescAt(buf, FindAlt(buf, 0, number, alt, 4), n) == Found(CommonOf(a.endpoints[n].desc)) {
      EndpointAgrees(c, number, alt, n);
    }
  }

  // ----- Counting alternate settings -----

  /** The alternate settings with a number before the first interface with a larger one. */
  function UpTo(ifcs: seq<seq<RawAltsetting>>, number: nat): nat
    requires GoodInterfaces(ifcs)
  {
    if ifcs == [] then 0
    else
      assert GoodInterface(ifcs[0]);
      if NumberOf(ifcs[0]) > number then 0
      else (if NumberOf(ifcs[0]) == number then |ifcs[0]| else 0) + UpTo(ifcs[1..], number)
  }

  lemma {:induction false} CountFromBehind(buf: seq<Byte>, ds: seq<seq<Byte>>, j: nat, k: nat, number: nat, count: nat)
    requires Holds(buf, ds) && j <= k <= |ds| && NoInterface(ds, j, k)
    ensures k < |ds| && |ds[k]| >= INTERFACE_SIZE ==>
              CountAltsFrom(buf, Pos(ds, j), number, count) == CountAltsFrom(buf, Pos(ds, k), number, count)
    ensures k == |ds| ==> CountAltsFrom(buf, Pos(ds, j), number, count) == Some(count)
    decreases k - j
  {
    if k == |ds| {
      PosAtEnd(buf, ds);
    }
    if j < k {
      DescAt(buf, ds, j);
      PosIncreases(ds, j, k);
      CountFromBehind(buf, ds, j + 1, k, number, count);
    }
    if k < |ds| {
      DescAt(buf, ds, k);
    }
  }

  /** The count with `total` interface descriptors seen. */
  function CountWith(buf: seq<Byte>, pos: nat, number: nat, total: nat): Option<nat> {
    CountAltsFrom(buf, pos, number, total % 256)
  }

  lemma CountFromHere(buf: seq<Byte>, ds: seq<seq<Byte>>, j: nat, number: nat, total: nat)
    requires Holds(buf, ds) && j < |ds| && |ds[j]| >= INTERFACE_SIZE && ds[j][1] == INTERFACE
    ensures CountWith(buf, Pos(ds, j), number, total) ==
            if ds[j][2] > number then Some(total % 256)
            else CountWith(buf, Pos(ds, j + 1), number, total + if ds[j][2] == number then 1 else 0)
  {
    DescAt(buf, ds, j);
    DescBytes(buf, ds, j);
  }

  lemma CountFromAlt(buf: seq<Byte>, ds: seq<seq<Byte>>, j: nat, a: RawAltsetting, number: nat, total: nat, m: nat)
    requires Holds(buf, ds) && GoodAlt(a) && Sub(ds, j, OneAltDescs(a)) && m == j + |OneAltDescs(a)| &&
             AtInterface(ds, m)
    requires a.raw[2] <= number
    ensures CountWith(buf, Pos(ds, j), number, total) ==
            CountWith(buf, Pos(ds, m), number, total + if a.raw[2] == number then 1 else 0)
  {
    var total' := total + if a.raw[2] == number then 1 else 0;
    SubAt(ds, j, OneAltDescs(a), 0);
    CountFromHere(buf, ds, j, number, total);
    NoneInEndpoints(ds, j, a);
    CountFromBehind(buf, ds, j + 1, m, number, total' % 256);
    if m == |ds| {
      CountFromBehind(buf, ds, m, m, number, total' % 256);
    }
  }

  lemma {:induction false} CountFromAlts(buf: seq<Byte>, ds: seq<seq<Byte>>, j: nat, alts: seq<RawAltsetting>,
                                         own: nat, number: nat,
                                         total: nat, k: nat)
    requires Holds(buf, ds) && Sub(ds, j, AltDescs(alts)) && k == j + |AltDescs(alts)| && AtInterface(ds, k)
    requires (forall i :: 0 <= i < |alts| ==> GoodAlt(alts[i]) && alts[i].raw[2] == own) && own <= number
    ensures CountWith(buf, Pos(ds, j), number, total) ==
            CountWith(buf, Pos(ds, k), number, total + if own == number then |alts| else 0)
    decreases |alts|
  {
    if alts != [] {
      var m := j + |OneAltDescs(alts[0])|;
      SubParts(ds, j, OneAltDescs(alts[0]), AltDescs(alts[1..]));
      AltDescsGood(alts[1..]);
      if alts[1..] != [] {
        SubAt(ds, m, AltDescs(alts[1..]), 0);
      }
      CountFromAlt(buf, ds, j, alts[0], number, total, m);
      CountFromAlts(buf, ds, m, alts[1..], own, number, total + if own == number then 1 else 0, k);
    }
  }

  lemma {:induction false} CountFromInterfaces(buf: seq<Byte>, ds: seq<seq<Byte>>, j: nat,
                                               ifcs: seq<seq<RawAltsetting>>, number: nat, total: nat)
    requires Holds(buf, ds) && GoodInterfaces(ifcs) && Sub(ds, j, InterfaceDescs(ifcs)) &&
             j + |InterfaceDescs(ifcs)| == |ds|
    ensures CountWith(buf, Pos(ds, j), number, total) == Some((total + UpTo(ifcs, number)) % 256)
    decreases |ifcs|
  {
    if ifcs == [] {
      PosAtEnd(buf, ds);
    } else {
      var m := FirstLaid(ds, j, ifcs);
      if NumberOf(ifcs[0]) > number {
        CountFromHere(buf, ds, j, number, total);
      } else {
        CountFromAlts(buf, ds, j, ifcs[0], NumberOf(ifcs[0]), number, total, m);
        var more := if NumberOf(ifcs[0]) == number then |ifcs[0]| else 0;
        CountFromInterfaces(buf, ds, m, ifcs[1..], number, total + more);
      }
    }
  }

  /** What usbi_get_num_altsettings counts on every configuration. */
  lemma AltsCounted(c: RawConfig, number: nat)
    requires GoodConfig(c)
    ensures CountAltsFrom(Print(c), 0, number, 0) == Some(UpTo(c.interfaces, number) % 256)
  {
    var buf, ds, j := Print(c), ConfigDescs(c), 1 + |c.extras|;
    ConfigDescsGood(c);
    FlatHolds(ds);
    ConfigLaid(c);
    forall i | 0 <= i < j ensures ds[i][1] != INTERFACE {
      if i > 0 {
        SubAt(ds, 1, c.extras, i - 1);
      }
    }
    if c.interfaces != [] {
      var m := FirstLaid(ds, j, c.interfaces);
    }
    CountFromBehind(buf, ds, 0, j, number, 0);
    CountFromInterfaces(buf, ds, j, c.interfaces, number, 0);
  }

  predicate NoLargerBefore(ifcs: seq<seq<RawAltsetting>>, i: nat)
    requires GoodInterfaces(ifcs) && i < |ifcs|
  {
    forall k :: 0 <= k < i ==> NumberOf(ifcs[k]) <= NumberOf(ifcs[i])
  }

  lemma {:induction false} UpToAt(ifcs: seq<seq<RawAltsetting>>, i: nat)
    requires GoodInterfaces(ifcs) && DistinctNumbers(ifcs) && i < |ifcs|
    ensures UpTo(ifcs, NumberOf(ifcs[i])) ==
            if NoLargerBefore(ifcs, i) then |ifcs[i]| else 0
  {
    assert GoodInterface(ifcs[0]) && GoodInterface(ifcs[i]);
    assert forall k :: 0 <= k < |ifcs| - 1 ==> ifcs[1..][k] == ifcs[k + 1];
    if i > 0 {
      UpToAt(ifcs[1..], i - 1);
      assert forall k :: 0 < k < i ==> ifcs[k] == ifcs[1..][k - 1];
    } else {
      NoneUpTo(ifcs[1..], NumberOf(ifcs[0]));
    }
  }

  lemma {:induction false} NoneUpTo(ifcs: seq<seq<RawAltsetting>>, number: nat)
    requires GoodInterfaces(ifcs) && forall i :: 0 <= i < |ifcs| ==> NumberOf(ifcs[i]) != number
    ensures UpTo(ifcs, number) == 0
  {
    if ifcs != [] {
      assert forall k :: 0 <= k < |ifcs| - 1 ==> ifcs[1..][k] == ifcs[k + 1];
      NoneUpTo(ifcs[1..], number);
    }
  }

  /** The result is the number of alternate settings of the tree's node if and only if there are at most 255
      and no interface with a larger number comes before. */
  lemma {:induction false} CountAgreesIff(c: RawConfig, i: nat)
    requires GoodConfig(c) && DistinctNumbers(c.interfaces) && i < |c.interfaces|
    ensures var n := NumberOf(c.interfaces[i]);
            CountAltsFrom(Print(c), 0, n, 0) == Some(|TreeOfAlts(c.interfaces[i])|) <==>
            |c.interfaces[i]| <= 255 && NoLargerBefore(c.interfaces, i)
  {
    AltsCounted(c, NumberOf(c.interfaces[i]));
    UpToAt(c.interfaces, i);
    OneByte(UpTo(c.interfaces, NumberOf(c.interfaces[i])), |c.interfaces[i]|, NoLargerBefore(c.interfaces, i));
  }

  lemma OneByte(counted: nat, size: nat, all: bool)
    requires size > 0 && counted == if all then size else 0
    ensures counted % 256 == size <==> size <= 255 && all
  {
  }
}
