/** The list of buses: `refresh_bus` reconciles it in place with what a back end reports. */
module BusRegistry {
  import opened Lists

  /** A bus as a back end reports it. */
  datatype Found = Found(busnum: nat, path: string)

  /** A bus on the global list. */
  datatype Bus = Bus(found: Found, busid: nat)

  predicate Matches(bus: Bus, f: Found) {
    bus.found.busnum == f.busnum || bus.found.path == f.path
  }

  function FirstMatch(bus: Bus, fs: seq<Found>): (i: Option<nat>)
    ensures i.Some? ==> i.value < |fs| && Matches(bus, fs[i.value])
    ensures i.None? ==> forall j :: 0 <= j < |fs| ==> !Matches(bus, fs[j])
  {
    if fs == [] then None
    else if Matches(bus, fs[0]) then Some(0)
    else match FirstMatch(bus, fs[1..])
         case None => None
         case Some(i) => Some(i + 1)
  }

  /** The known buses that stay, and the reported ones none of them took. */
  function Reconcile(buses: seq<Bus>, fs: seq<Found>): (seq<Bus>, seq<Found>) {
    if buses == [] then ([], fs)
    else match FirstMatch(buses[0], fs)
         case Some(i) => var (stay, left) := Reconcile(buses[1..], Without(fs, i)); ([buses[0]] + stay, left)
         case None => Reconcile(buses[1..], fs)
  }

  /** New buses get consecutive ids. */
  function Admit(fs: seq<Found>, id: nat): (buses: seq<Bus>)
    ensures |buses| == |fs|
  {
    seq(|fs|, i requires 0 <= i < |fs| => Bus(fs[i], id + i))
  }

  datatype State = State(buses: seq<Bus>, curBusId: nat)

  function Refreshed(s: State, fs: seq<Found>): State {
    var (stay, left) := Reconcile(s.buses, fs);
    State(stay + Admit(left, s.curBusId), s.curBusId + |left|)
  }

  /** `usbi_buses` and `cur_bus_id`. */
  class Registry {
    var buses: seq<Bus>
    var curBusId: nat

    constructor ()
      ensures View() == State([], 1)
    {
      buses, curBusId := [], 1;
    }

    ghost function View(): State
      reads this
    {
      State(buses, curBusId)
    }

    /** usbi_add_bus. */
    method AddBus(f: Found)
      modifies this
      ensures buses == old(buses) + [Bus(f, old(curBusId))] && curBusId == old(curBusId) + 1
    {
      buses := buses + [Bus(f, curBusId)];
      curBusId := curBusId + 1;
    }

    /** The first loop of refresh_bus: known buses that are not reported any more leave the list, and
        reported ones that are already known leave the report. */
    method Sweep(reported: seq<Found>) returns (busses: seq<Found>)
      modifies this`buses
      ensures (buses, busses) == Reconcile(old(buses), reported)
    {
      busses := reported;
      var i := 0;
      ghost var known := buses;
      while i < |buses|
        invariant i <= |buses| && known == buses[i..]
        invariant Reconcile(old(buses), reported).0 == buses[..i] + Reconcile(known, busses).0
        invariant Reconcile(old(buses), reported).1 == Reconcile(known, busses).1
        decreases |known|
      {
        var ibus := buses[i];
        var at := Search(ibus, busses);
        ghost var before := buses;
        if at.Some? {
          busses := Without(busses, at.value);
          i := i + 1;
          assert before[..i] + Reconcile(known[1..], busses).0 ==
                 before[..i - 1] + ([ibus] + Reconcile(known[1..], busses).0);
        } else {
          buses := Without(buses, i);
          assert buses[..i] == before[..i] && buses[i..] == before[i + 1..];
        }
        known := known[1..];
      }
      assert known == [] && buses[..i] + [] == buses;
    }

    /** refresh_bus. `reported` is what the back end found, or nothing if it cannot look or failed. */
    method RefreshBus(reported: Option<seq<Found>>)
      modifies this
      ensures View() == if reported.None? then old(View()) else Refreshed(old(View()), reported.value)
    {
      if reported.None? {
        return;
      }
      var busses := Sweep(reported.value);
      ghost var stay, id := buses, curBusId;
      for k := 0 to |busses|
        invariant buses == stay + Admit(busses, id)[..k] && curBusId == id + k
      {
        AddBus(busses[k]);
      }
    }

    /** The inner loop: the first reported bus with the number or the path of a known one. */
    method Search(bus: Bus, busses: seq<Found>) returns (at: Option<nat>)
      ensures at == FirstMatch(bus, busses)
    {
      for j := 0 to |busses|
        invariant forall l :: 0 <= l < j ==> !Matches(bus, busses[l])
        invariant FirstMatch(bus, busses) == Shift(FirstMatch(bus, busses[j..]), j)
      {
        assert busses[j..][1..] == busses[j + 1..];
        if bus.found.busnum == busses[j].busnum || bus.found.path == busses[j].path {
          return Some(j);
        }
      }
      return None;
    }
  }

  function Shift(i: Option<nat>, n: nat): Option<nat> {
    match i case None => None case Some(j) => Some(j + n)
  }

  // ----- What reconciliation does -----

  /** `pairing` gives every bus that stays, and every one left, its own reported bus; reported buses are named by
      `at`. */
  ghost predicate PairedOff(stay: seq<Bus>, left: seq<Found>, fs: seq<Found>, at: seq<nat>, pairing: seq<nat>) {
    |stay| + |left| == |fs| == |at| == |pairing| && Distinct(pairing) &&
    (forall k :: 0 <= k < |stay| ==> HasPartner(stay[k], fs, at, pairing[k])) &&
    (forall k :: |stay| <= k < |pairing| ==> IsPartner(left[k - |stay|], fs, at, pairing[k]))
  }

  predicate Names(fs: seq<Found>, at: seq<nat>, j: int, name: nat) {
    0 <= j < |fs| == |at| && at[j] == name
  }

  ghost predicate HasPartner(bus: Bus, fs: seq<Found>, at: seq<nat>, name: nat) {
    exists j :: Names(fs, at, j, name) && Matches(bus, fs[j])
  }

  ghost predicate IsPartner(f: Found, fs: seq<Found>, at: seq<nat>, name: nat) {
    exists j :: Names(fs, at, j, name) && f == fs[j]
  }

  lemma Renames(fs: seq<Found>, at: seq<nat>, i: nat, j: int, name: nat) returns (j': int)
    requires i < |fs| == |at| && Names(Without(fs, i), Without(at, i), j, name)
    ensures Names(fs, at, j', name) && fs[j'] == Without(fs, i)[j] && j' != i
  {
    j' := if j < i then j else j + 1;
  }

  lemma PartnerStays(bus: Bus, fs: seq<Found>, at: seq<nat>, i: nat, name: nat)
    requires i < |fs| == |at| && Distinct(at) && HasPartner(bus, Without(fs, i), Without(at, i), name)
    ensures HasPartner(bus, fs, at, name) && name != at[i]
  {
    var j :| Names(Without(fs, i), Without(at, i), j, name) && Matches(bus, Without(fs, i)[j]);
    var j' := Renames(fs, at, i, j, name);
  }

  lemma PartnerLeft(f: Found, fs: seq<Found>, at: seq<nat>, i: nat, name: nat)
    requires i < |fs| == |at| && Distinct(at) && IsPartner(f, Without(fs, i), Without(at, i), name)
    ensures IsPartner(f, fs, at, name) && name != at[i]
  {
    var j :| Names(Without(fs, i), Without(at, i), j, name) && f == Without(fs, i)[j];
    var j' := Renames(fs, at, i, j, name);
  }

  lemma PairedOffCons(bus: Bus, stay: seq<Bus>, left: seq<Found>, fs: seq<Found>, at: seq<nat>, i: nat, rest: seq<nat>)
    requires i < |fs| == |at| && Distinct(at) && Matches(bus, fs[i])
    requires PairedOff(stay, left, Without(fs, i), Without(at, i), rest)
    ensures PairedOff([bus] + stay, left, fs, at, [at[i]] + rest)
  {
    var stay', pairing := [bus] + stay, [at[i]] + rest;
    assert Names(fs, at, i, at[i]);
    forall k | 0 < k < |stay'| ensures HasPartner(stay'[k], fs, at, pairing[k]) && rest[k - 1] != at[i] {
      PartnerStays(stay'[k], fs, at, i, pairing[k]);
    }
    forall k | |stay'| <= k < |pairing|
      ensures IsPartner(left[k - |stay'|], fs, at, pairing[k]) && rest[k - 1] != at[i] {
      assert left[k - |stay'|] == left[(k - 1) - |stay|];
      PartnerLeft(left[k - |stay'|], fs, at, i, pairing[k]);
    }
    forall k | 0 <= k < |rest| ensures rest[k] != at[i] {
      assert rest[(k + 1) - 1] != at[i];
    }
    DistinctCons(at[i], rest);
  }

  lemma DistinctCons(x: nat, s: seq<nat>)
    requires Distinct(s) && x !in s
    ensures Distinct([x] + s)
  {
    assert forall i :: 0 < i <= |s| ==> ([x] + s)[i] == s[i - 1];
  }

  lemma {:induction false} ReconcilePairs(buses: seq<Bus>, fs: seq<Found>, at: seq<nat>) returns (pairing: seq<nat>)
    requires |at| == |fs| && Distinct(at)
    ensures PairedOff(Reconcile(buses, fs).0, Reconcile(buses, fs).1, fs, at, pairing)
  {
    if buses == [] {
      pairing := at;
      var (stay, left) := Reconcile(buses, fs);
      forall k | |stay| <= k < |pairing|
        ensures IsPartner(left[k - |stay|], fs, at, pairing[k])
      {
        assert Names(fs, at, k, pairing[k]) && left[k - |stay|] == fs[k];
      }
    } else {
      match FirstMatch(buses[0], fs) {
        case None =>
          pairing := ReconcilePairs(buses[1..], fs, at);
        case Some(i) =>
          var fs' := Without(fs, i);
          var rest := ReconcilePairs(buses[1..], fs', Without(at, i));
          pairing := [at[i]] + rest;
          PairedOffCons(buses[0], Reconcile(buses[1..], fs').0, Reconcile(buses[1..], fs').1, fs, at, i, rest);
      }
    }
  }

  function Identity(n: nat): (s: seq<nat>)
    ensures |s| == n && forall i :: 0 <= i < n ==> s[i] == i
  {
    seq(n, i => i)
  }

  /** `pairing` matches the entries of the list one to one with the reported buses: the first `kept`
      entries are known buses with a number or path in common with their partner, the others are
      their partners, with the next free ids. */
  ghost predicate Paired(buses: seq<Bus>, kept: nat, id: nat, fs: seq<Found>, pairing: seq<nat>) {
    |buses| == |fs| == |pairing| && kept <= |buses| && Distinct(pairing) &&
    forall k :: 0 <= k < |buses| ==>
      pairing[k] < |fs| &&
      var f := fs[pairing[k]];
      if k < kept then buses[k].found.busnum == f.busnum || buses[k].found.path == f.path
      else buses[k] == Bus(f, id + (k - kept))
  }

  /** After a refresh the list has exactly the buses the back end reported, each once. */
  lemma RefreshIsBijective(s: State, fs: seq<Found>) returns (pairing: seq<nat>)
    ensures Paired(Refreshed(s, fs).buses, |Reconcile(s.buses, fs).0|, s.curBusId, fs, pairing)
  {
    pairing := ReconcilePairs(s.buses, fs, Identity(|fs|));
    var (stay, left) := Reconcile(s.buses, fs);
    var buses := Refreshed(s, fs).buses;
    forall k | 0 <= k < |buses|
      ensures pairing[k] < |fs| &&
              if k < |stay| then Matches(buses[k], fs[pairing[k]])
              else buses[k] == Bus(fs[pairing[k]], s.curBusId + (k - |stay|))
    {
      if k < |stay| {
        assert HasPartner(stay[k], fs, Identity(|fs|), pairing[k]);
        var j :| Names(fs, Identity(|fs|), j, pairing[k]) && Matches(stay[k], fs[j]);
      } else {
        assert IsPartner(left[k - |stay|], fs, Identity(|fs|), pairing[k]);
        var j :| Names(fs, Identity(|fs|), j, pairing[k]) && left[k - |stay|] == fs[j];
        assert buses[k] == Bus(left[k - |stay|], s.curBusId + (k - |stay|));
      }
    }
  }

  /** The buses that stay are known ones, unchanged and in their order: `from` tells which. */
  lemma {:induction false} SurvivorsKeepOrder(buses: seq<Bus>, fs: seq<Found>) returns (from: seq<nat>)
    ensures var stay := Reconcile(buses, fs).0;
            |from| == |stay| && (forall k :: 0 <= k < |from| ==> from[k] < |buses| && stay[k] == buses[from[k]]) &&
            forall k, l :: 0 <= k < l < |from| ==> from[k] < from[l]
  {
    from := [];
    if buses != [] {
      match FirstMatch(buses[0], fs) {
        case None =>
          var rest := SurvivorsKeepOrder(buses[1..], fs);
          from := seq(|rest|, k requires 0 <= k < |rest| => rest[k] + 1);
        case Some(i) =>
          var rest := SurvivorsKeepOrder(buses[1..], Without(fs, i));
          from := [0] + seq(|rest|, k requires 0 <= k < |rest| => rest[k] + 1);
      }
    }
  }

  /** The list is ordered by id, and no id was given out that is not below the next one. */
  ghost predicate Ordered(s: State) {
    (forall i :: 0 <= i < |s.buses| ==> s.buses[i].busid < s.curBusId) &&
    forall i, j :: 0 <= i < j < |s.buses| ==> s.buses[i].busid < s.buses[j].busid
  }

  lemma OrderedRefresh(s: State, fs: seq<Found>)
    requires Ordered(s)
    ensures Ordered(Refreshed(s, fs)) && s.curBusId <= Refreshed(s, fs).curBusId
  {
    var from := SurvivorsKeepOrder(s.buses, fs);
    var (stay, left) := Reconcile(s.buses, fs);
    var s' := Refreshed(s, fs);
    assert forall i :: |stay| <= i < |s'.buses| ==> s'.buses[i].busid == s.curBusId + (i - |stay|);
    assert forall i :: 0 <= i < |stay| ==> s'.buses[i] == s.buses[from[i]];
  }

  /** The registry after a sequence of refreshes. */
  function AfterAll(s: State, reports: seq<seq<Found>>): State
    decreases |reports|
  {
    if reports == [] then s else AfterAll(Refreshed(s, reports[0]), reports[1..])
  }

  /** Over all runs the bus ids on the list are strictly increasing, so no id is ever used twice. */
  lemma {:induction false} IdsIncrease(s: State, reports: seq<seq<Found>>)
    requires Ordered(s)
    ensures Ordered(AfterAll(s, reports)) && s.curBusId <= AfterAll(s, reports).curBusId
    decreases |reports|
  {
    if reports != [] {
      OrderedRefresh(s, reports[0]);
      IdsIncrease(Refreshed(s, reports[0]), reports[1..]);
    }
  }

  /** No two known buses match the same reported one. */
  ghost predicate Unambiguous(buses: seq<Bus>, fs: seq<Found>) {
    forall a, b, f :: 0 <= a < b < |buses| && f in fs ==> !(Matches(buses[a], f) && Matches(buses[b], f))
  }

  /** If known buses do not compete for a reported one, a bus stays if and only if the back end still reports it. */
  lemma {:induction false} StaysIffReported(buses: seq<Bus>, fs: seq<Found>, b: nat)
    requires Unambiguous(buses, fs) && b < |buses| && Distinct(buses)
    ensures buses[b] in Reconcile(buses, fs).0 <==>
            exists j :: 0 <= j < |fs| && (buses[b].found.busnum == fs[j].busnum || buses[b].found.path == fs[j].path)
  {
    var m := FirstMatch(buses[0], fs);
    var fs' := if m.Some? then Without(fs, m.value) else fs;
    if b == 0 {
      var from := SurvivorsKeepOrder(buses[1..], fs');
    } else {
      assert forall j :: 0 <= j < |fs'| ==> fs'[j] in fs;
      StaysIffReported(buses[1..], fs', b - 1);
      assert buses[1..][b - 1] == buses[b] != buses[0];
      if j :| 0 <= j < |fs| && Matches(buses[b], fs[j]) {
        if m.Some? {
          assert fs[m.value] in fs && j != m.value;
          assert fs'[if j < m.value then j else j - 1] == fs[j];
        }
      }
    }
  }

  /** The list is shared by all back ends, but a refresh leaves as many buses as its own back end reported, each with
      a number or path of one of them: whatever another back end had put there and this one does not report is gone. */
  lemma SecondBackEndEvicts(s: State, fs: seq<Found>)
    ensures |Refreshed(s, fs).buses| == |fs|
    ensures forall b :: b in Refreshed(s, fs).buses ==> exists j :: 0 <= j < |fs| && Matches(b, fs[j])
  {
    var buses := Refreshed(s, fs).buses;
    var pairing := RefreshIsBijective(s, fs);
    forall b | b in buses ensures exists j :: 0 <= j < |fs| && Matches(b, fs[j]) {
      var k :| 0 <= k < |buses| && buses[k] == b;
      assert Matches(b, fs[pairing[k]]);
    }
  }

  /** With nothing in common between two back ends, a refresh of the second leaves its own buses only, all new. */
  lemma {:induction false} NothingInCommon(buses: seq<Bus>, fs: seq<Found>, id: nat)
    requires forall k, j :: 0 <= k < |buses| && 0 <= j < |fs| ==> !Matches(buses[k], fs[j])
    ensures Reconcile(buses, fs) == ([], fs) && Refreshed(State(buses, id), fs) == State(Admit(fs, id), id + |fs|)
  {
    if buses != [] {
      NothingInCommon(buses[1..], fs, id);
    }
    assert [] + Admit(fs, id) == Admit(fs, id);
  }
}
