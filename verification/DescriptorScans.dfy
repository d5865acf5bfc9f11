/** What the scanners find in any bytes, well-formed or not: they visit the places that length bytes lead to. */
module DescriptorScans {
  import opened Lists
  import opened Descriptors
  import opened DescriptorScanners

  /** The place after `i` steps from `start`; none when a length byte is 0 or leads behind the end. */
  function Place(buf: seq<Byte>, start: nat, i: nat): Option<nat> {
    if i == 0 then Some(start)
    else match Place(buf, start, i - 1)
         case None => None
         case Some(p) => if p < |buf| && buf[p] > 0 && p + buf[p] <= |buf| then Some(p + buf[p]) else None
  }

  lemma {:induction false} NoPlaceBehind(buf: seq<Byte>, start: nat, i: nat, j: nat)
    requires i <= j && Place(buf, start, i).None?
    ensures Place(buf, start, j).None?
  {
    if i < j {
      NoPlaceBehind(buf, start, i, j - 1);
    }
  }

  lemma {:induction false} PlacesGrow(buf: seq<Byte>, start: nat, i: nat, j: nat)
    requires i <= j && Place(buf, start, j).Some?
    ensures Place(buf, start, i).Some? && Place(buf, start, i).value + (j - i) <= Place(buf, start, j).value
  {
    if i < j {
      PlacesGrow(buf, start, i, j - 1);
    }
  }

  predicate IsKind(buf: seq<Byte>, p: nat, kind: nat) {
    p + 1 < |buf| && buf[p + 1] == kind
  }

  // ----- Interfaces -----

  predicate AltHere(buf: seq<Byte>, p: nat, number: nat, alt: nat) {
    p + 3 < |buf| && buf[p + 1] == INTERFACE && buf[p + 2] == number && buf[p + 3] == alt
  }

  ghost predicate NoAltBefore(buf: seq<Byte>, i: nat, k: nat, number: nat, alt: nat) {
    forall j, q :: i <= j < k && Place(buf, 0, j) == Some(q) ==> !AltHere(buf, q, number, alt)
  }

  ghost predicate NoAltBehind(buf: seq<Byte>, i: nat, number: nat, alt: nat, least: nat) {
    forall j, q :: i <= j && Place(buf, 0, j) == Some(q) && q + least < |buf| ==> !AltHere(buf, q, number, alt)
  }

  /** The first place visited that has the two numbers, after `k` steps, with more than `least` bytes left. */
  ghost predicate FirstAlt(buf: seq<Byte>, k: nat, p: nat, number: nat, alt: nat, least: nat) {
    Place(buf, 0, k) == Some(p) && p + least < |buf| && AltHere(buf, p, number, alt) &&
    NoAltBefore(buf, 0, k, number, alt)
  }

  lemma {:induction false} FindAltFrom(buf: seq<Byte>, pos: nat, i: nat, number: nat, alt: nat, least: nat)
    returns (k: nat)
    requires Place(buf, 0, i) == Some(pos) && least >= 3
    ensures match FindAlt(buf, pos, number, alt, least)
            case Some(p) =>
              i <= k && Place(buf, 0, k) == Some(p) && p + least < |buf| && AltHere(buf, p, number, alt) &&
              NoAltBefore(buf, i, k, number, alt)
            case None => NoAltBehind(buf, i, number, alt, least)
    decreases |buf| - pos
  {
    k := i;
    if pos + least >= |buf| {
      forall j, q | i <= j && Place(buf, 0, j) == Some(q) && q + least < |buf| ensures false {
        PlacesGrow(buf, 0, i, j);
      }
    } else if !AltHere(buf, pos, number, alt) {
      if CanStep(buf, pos) {
        k := FindAltFrom(buf, pos + buf[pos], i + 1, number, alt, least);
      } else {
        forall j, q | i <= j && Place(buf, 0, j) == Some(q) && q + least < |buf|
          ensures !AltHere(buf, q, number, alt)
        {
          if j > i {
            NoPlaceBehind(buf, 0, i + 1, j);
          }
        }
      }
    }
  }

  lemma OneFirst(buf: seq<Byte>, k: nat, p: nat, l: nat, q: nat, number: nat, alt: nat, least: nat)
    requires FirstAlt(buf, k, p, number, alt, least) && FirstAlt(buf, l, q, number, alt, least)
    ensures k == l && p == q
  {
  }

  /** The scan comes to the first place with the two numbers, if there is one. */
  lemma FindAltIff(buf: seq<Byte>, number: nat, alt: nat, least: nat)
    requires least >= 3
    ensures forall p: nat :: FindAlt(buf, 0, number, alt, least) == Some(p) <==>
                        exists k: nat :: FirstAlt(buf, k, p, number, alt, least)
  {
    var r := FindAlt(buf, 0, number, alt, least);
    var k := FindAltFrom(buf, 0, 0, number, alt, least);
    if r.Some? {
      assert FirstAlt(buf, k, r.value, number, alt, least);
    }
    forall p: nat, l: nat | FirstAlt(buf, l, p, number, alt, least) ensures r == Some(p) {
      if r.Some? {
        OneFirst(buf, k, r.value, l, p, number, alt, least);
      }
    }
  }

  /** The scan for an interface on any buffer of at least 9 bytes: what it reports for the first place with the two
      numbers, and a parse error if and only if there is none. */
  lemma InterfaceScan(buf: seq<Byte>, number: nat, alt: nat)
    ensures var r := InterfaceDescAt(buf, FindAlt(buf, 0, number, alt, 3));
            (r == ParseError <==> forall k: nat, p: nat :: !FirstAlt(buf, k, p, number, alt, 3)) &&
            forall k: nat, p: nat :: FirstAlt(buf, k, p, number, alt, 3) ==>
              r == if p + 9 <= |buf| then Found(InterfaceOf(buf, p)) else NoResources
  {
    FindAltIff(buf, number, alt, 3);
    var r := FindAlt(buf, 0, number, alt, 3);
    if r.Some? {
      var k: nat :| FirstAlt(buf, k, r.value, number, alt, 3);
    }
  }

  // ----- Endpoints -----

  /** How many of the first `k` places are of the type. */
  function Kinds(buf: seq<Byte>, start: nat, k: nat, kind: nat): nat {
    if k == 0 then 0
    else Kinds(buf, start, k - 1, kind) +
         match Place(buf, start, k - 1)
         case Some(p) => if IsKind(buf, p, kind) then 1 else 0
         case None => 0
  }

  ghost predicate NoStop(buf: seq<Byte>, start: nat, i: nat, k: nat, stop: nat) {
    forall j, q :: i <= j <= k && 0 < j && Place(buf, start, j) == Some(q) ==> !IsKind(buf, q, stop)
  }

  /** The place after `k` steps is the `n`-th of its type, with no descriptor of the type `stop` behind the start. */
  ghost predicate IsNth(buf: seq<Byte>, start: nat, k: nat, p: nat, kind: nat, n: nat, stop: nat) {
    Place(buf, start, k) == Some(p) && IsKind(buf, p, kind) && Kinds(buf, start, k, kind) == n &&
    NoStop(buf, start, 0, k, stop)
  }

  lemma {:induction false} KindsGrow(buf: seq<Byte>, start: nat, i: nat, j: nat, kind: nat)
    requires i <= j
    ensures Kinds(buf, start, i, kind) <= Kinds(buf, start, j, kind)
  {
    if i < j {
      KindsGrow(buf, start, i, j - 1, kind);
    }
  }

  lemma OneNth(buf: seq<Byte>, start: nat, k: nat, p: nat, l: nat, q: nat, kind: nat, n: nat, stop: nat)
    requires IsNth(buf, start, k, p, kind, n, stop) && IsNth(buf, start, l, q, kind, n, stop)
    ensures k == l && p == q
  {
    if k < l {
      KindsGrow(buf, start, k + 1, l, kind);
    } else if l < k {
      KindsGrow(buf, start, l + 1, k, kind);
    }
  }

  /** The `n`-th of its type from the place after `i` steps on. */
  ghost predicate NthBehind(buf: seq<Byte>, start: nat, i: nat, k: nat, p: nat, kind: nat, n: nat, stop: nat) {
    i <= k && Place(buf, start, k) == Some(p) && IsKind(buf, p, kind) && NoStop(buf, start, i, k, stop) &&
    Kinds(buf, start, k, kind) == Kinds(buf, start, i, kind) + n
  }

  lemma {:induction false} NthFrom(buf: seq<Byte>, start: nat, pos: nat, i: nat, kind: nat, n: nat, stop: nat)
    returns (k: nat)
    requires Place(buf, start, i) == Some(pos) && (pos == start <==> i == 0)
    ensures match NthDesc(buf, start, pos, kind, n, stop)
            case Some(p) => NthBehind(buf, start, i, k, p, kind, n, stop)
            case None => forall l: nat, q: nat :: !NthBehind(buf, start, i, l, q, kind, n, stop)
    decreases |buf| - pos
  {
    k := i;
    if pos + 2 > |buf| || (i > 0 && buf[pos + 1] == stop) {
      NthStopped(buf, start, pos, i, kind, n, stop);
    } else if buf[pos + 1] != kind || n > 0 {
      if CanStep(buf, pos) {
        var n' := if buf[pos + 1] == kind then n - 1 else n;
        PlacesGrow(buf, start, 0, i + 1);
        k := NthFrom(buf, start, pos + buf[pos], i + 1, kind, n', stop);
        NthLater(buf, start, pos, i, kind, n, n', stop);
      } else {
        NthStuck(buf, start, pos, i, kind, n, stop);
      }
    }
  }

  lemma NthStopped(buf: seq<Byte>, start: nat, pos: nat, i: nat, kind: nat, n: nat, stop: nat)
    requires Place(buf, start, i) == Some(pos) && (pos + 2 > |buf| || (i > 0 && IsKind(buf, pos, stop)))
    ensures forall l: nat, q: nat :: !NthBehind(buf, start, i, l, q, kind, n, stop)
  {
    forall l: nat, q: nat | NthBehind(buf, start, i, l, q, kind, n, stop) ensures false {
      PlacesGrow(buf, start, i, l);
    }
  }

  lemma NthStuck(buf: seq<Byte>, start: nat, pos: nat, i: nat, kind: nat, n: nat, stop: nat)
    requires Place(buf, start, i) == Some(pos) && !CanStep(buf, pos) && (IsKind(buf, pos, kind) ==> n > 0)
    ensures forall l: nat, q: nat :: !NthBehind(buf, start, i, l, q, kind, n, stop)
  {
    forall l: nat, q: nat | NthBehind(buf, start, i, l, q, kind, n, stop) ensures false {
      if l > i {
        NoPlaceBehind(buf, start, i + 1, l);
      }
    }
  }

  lemma NthLater(buf: seq<Byte>, start: nat, pos: nat, i: nat, kind: nat, n: nat, n': nat, stop: nat)
    requires Place(buf, start, i) == Some(pos) && (i > 0 ==> !IsKind(buf, pos, stop))
    requires if IsKind(buf, pos, kind) then n == n' + 1 else n == n'
    ensures forall l: nat, q: nat ::
              NthBehind(buf, start, i, l, q, kind, n, stop) <==> NthBehind(buf, start, i + 1, l, q, kind, n', stop)
  {
    forall l: nat, q: nat
      ensures NthBehind(buf, start, i, l, q, kind, n, stop) <==> NthBehind(buf, start, i + 1, l, q, kind, n', stop)
    {
      if NthBehind(buf, start, i + 1, l, q, kind, n', stop) {
        assert NoStop(buf, start, i, l, stop);
      }
    }
  }

  lemma NthIff(buf: seq<Byte>, start: nat, kind: nat, n: nat, stop: nat)
    ensures forall p: nat :: NthDesc(buf, start, start, kind, n, stop) == Some(p) <==>
                        exists k: nat :: IsNth(buf, start, k, p, kind, n, stop)
  {
    var r := NthDesc(buf, start, start, kind, n, stop);
    var k := NthFrom(buf, start, start, 0, kind, n, stop);
    if r.Some? {
      assert IsNth(buf, start, k, r.value, kind, n, stop);
    }
    assert forall l: nat, q: nat ::
      NthBehind(buf, start, 0, l, q, kind, n, stop) <==> IsNth(buf, start, l, q, kind, n, stop);
    forall p: nat, l: nat | IsNth(buf, start, l, p, kind, n, stop) ensures r == Some(p) {
      if r.Some? {
        OneNth(buf, start, k, r.value, l, p, kind, n, stop);
      }
    }
  }

  lemma EndpointAt(buf: seq<Byte>, p: nat, index: nat)
    requires p + 4 < |buf|
    ensures var r := EndpointDescAt(buf, Some(p), index);
            (r == BadArg <==> index >= buf[p + 4]) &&
            (index < buf[p + 4] ==>
              (r == ParseError <==> forall l: nat, e: nat :: !IsNth(buf, p, l, e, ENDPOINT, index, INTERFACE)) &&
              forall l: nat, e: nat :: IsNth(buf, p, l, e, ENDPOINT, index, INTERFACE) ==>
                r == if e + 7 <= |buf| then Found(CommonOf(EndpointOf(buf, e))) else NoResources)
  {
    NthIff(buf, p, ENDPOINT, index, INTERFACE);
    var e := NthDesc(buf, p, p, ENDPOINT, index, INTERFACE);
    if e.Some? {
      var l: nat :| IsNth(buf, p, l, e.value, ENDPOINT, index, INTERFACE);
    }
  }

  /** The scan for an endpoint on any buffer of at least 9 bytes looks behind the first place with the two numbers, and
      `EndpointAt` says what it finds there; without such a place it is a parse error. */
  lemma EndpointScan(buf: seq<Byte>, number: nat, alt: nat, index: nat)
    ensures var r := EndpointDescAt(buf, FindAlt(buf, 0, number, alt, 4), index);
            ((forall k: nat, p: nat :: !FirstAlt(buf, k, p, number, alt, 4)) ==> r == ParseError) &&
            forall k: nat, p: nat :: FirstAlt(buf, k, p, number, alt, 4) ==> r == EndpointDescAt(buf, Some(p), index)
  {
    FindAltIff(buf, number, alt, 4);
    var r := FindAlt(buf, 0, number, alt, 4);
    if r.Some? {
      var k: nat :| FirstAlt(buf, k, r.value, number, alt, 4);
    }
  }

  // ----- Counting -----

  /** The count ends here: too few bytes are left, or an interface has a larger number. */
  predicate Ends(buf: seq<Byte>, p: nat, number: nat) {
    p + 3 > |buf| || (buf[p + 1] == INTERFACE && buf[p + 2] > number)
  }

  /** How many of the first `k` places are interfaces with the number. */
  function Numbered(buf: seq<Byte>, k: nat, number: nat): nat {
    if k == 0 then 0
    else Numbered(buf, k - 1, number) +
         match Place(buf, 0, k - 1)
         case Some(p) => if p + 2 < |buf| && buf[p + 1] == INTERFACE && buf[p + 2] == number then 1 else 0
         case None => 0
  }

  ghost predicate FirstEnd(buf: seq<Byte>, i: nat, k: nat, number: nat) {
    i <= k && Place(buf, 0, k).Some? && Ends(buf, Place(buf, 0, k).value, number) &&
    forall j, q :: i <= j < k && Place(buf, 0, j) == Some(q) ==> !Ends(buf, q, number)
  }

  lemma {:induction false} CountFrom(buf: seq<Byte>, pos: nat, i: nat, number: nat, count: nat) returns (k: nat)
    requires Place(buf, 0, i) == Some(pos) && count == Numbered(buf, i, number) % 256
    ensures match CountAltsFrom(buf, pos, number, count)
            case Some(n) => FirstEnd(buf, i, k, number) && n == Numbered(buf, k, number) % 256
            case None => forall l: nat :: !FirstEnd(buf, i, l, number)
    decreases |buf| - pos
  {
    k := i;
    if !Ends(buf, pos, number) {
      if CanStep(buf, pos) {
        var count' := if buf[pos + 1] == INTERFACE && buf[pos + 2] == number then (count + 1) % 256 else count;
        NumberedMore(buf, pos, i, number, count, count');
        k := CountFrom(buf, pos + buf[pos], i + 1, number, count');
        LaterEnds(buf, i, number);
      } else {
        StuckBeforeEnd(buf, pos, i, number);
      }
    }
  }

  lemma NumberedMore(buf: seq<Byte>, pos: nat, i: nat, number: nat, count: nat, count': nat)
    requires Place(buf, 0, i) == Some(pos) && pos + 2 < |buf| && count == Numbered(buf, i, number) % 256
    requires count' == if buf[pos + 1] == INTERFACE && buf[pos + 2] == number then (count + 1) % 256 else count
    ensures count' == Numbered(buf, i + 1, number) % 256
  {
  }

  lemma StuckBeforeEnd(buf: seq<Byte>, pos: nat, i: nat, number: nat)
    requires Place(buf, 0, i) == Some(pos) && !Ends(buf, pos, number) && !CanStep(buf, pos)
    ensures forall l: nat :: !FirstEnd(buf, i, l, number)
  {
    forall l: nat ensures !FirstEnd(buf, i, l, number) {
      if l > i {
        NoPlaceBehind(buf, 0, i + 1, l);
      }
    }
  }

  lemma LaterEnds(buf: seq<Byte>, i: nat, number: nat)
    requires Place(buf, 0, i).Some? && !Ends(buf, Place(buf, 0, i).value, number)
    ensures forall l: nat :: FirstEnd(buf, i, l, number) <==> FirstEnd(buf, i + 1, l, number)
  {
  }

  lemma OneEnd(buf: seq<Byte>, k: nat, l: nat, number: nat)
    requires FirstEnd(buf, 0, k, number) && FirstEnd(buf, 0, l, number)
    ensures k == l
  {
  }

  /** The count on any buffer: modulo 256, of the interfaces with the number before the first place where it ends; it
      fails if and only if there is no such place. */
  lemma CountScan(buf: seq<Byte>, number: nat)
    ensures var r := CountAltsFrom(buf, 0, number, 0);
            (r.None? <==> forall k: nat :: !FirstEnd(buf, 0, k, number)) &&
            forall k: nat :: FirstEnd(buf, 0, k, number) ==> r == Some(Numbered(buf, k, number) % 256)
  {
    var k := CountFrom(buf, 0, 0, number, 0);
    forall l: nat | FirstEnd(buf, 0, l, number)
      ensures CountAltsFrom(buf, 0, number, 0) == Some(Numbered(buf, l, number) % 256)
    {
      OneEnd(buf, k, l, number);
    }
  }
}
