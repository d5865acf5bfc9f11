/** Isochronous transfers of the Linux back end: packing packets into URBs of at most 32 KB, in two
    passes, and unpacking the results of the URBs as they come back in order. */
module Isoc {
  import opened Counting

  /** The largest URB usbfs takes for an isochronous transfer. */
  const MAX_ISOC: nat := 32768

  /** `x` as the C comparison with an unsigned operand sees it. */
  function Unsigned(x: int): nat {
    x % U32
  }

  /** A signed 32-bit value. */
  function Signed(x: int): int {
    (x + 0x8000_0000) % U32 - 0x8000_0000
  }

  // ----- Packing -----

  /** URBs opened by the counting pass from packet `i` on, with `used` bytes already in the current one. */
  function Opened(lens: seq<nat>, i: nat, used: int): nat
    requires i <= |lens|
    decreases |lens| - i
  {
    if i == |lens| then 0
    else if lens[i] > Unsigned(MAX_ISOC - used) then 1 + Opened(lens, i + 1, Signed(lens[i]))
    else Opened(lens, i + 1, Signed(used + lens[i]))
  }

  function NumUrbs(lens: seq<nat>): nat {
    1 + Opened(lens, 0, 0)
  }

  /** End of the packets, from `i` on, that fit into `space` bytes. */
  function Fit(lens: seq<nat>, i: nat, space: nat): (end: nat)
    requires i <= |lens|
    ensures i <= end <= |lens|
    decreases |lens| - i
  {
    if i < |lens| && lens[i] <= space then Fit(lens, i + 1, space - lens[i]) else i
  }

  /** The filling pass: where each of `n` URBs ends. */
  function Ends(lens: seq<nat>, i: nat, n: nat): (ends: seq<nat>)
    requires i <= |lens|
    ensures |ends| == n && (forall u :: 0 <= u < n ==> i <= ends[u] <= |lens|)
    ensures forall u, v :: 0 <= u <= v < n ==> ends[u] <= ends[v]
    decreases n
  {
    if n == 0 then [] else var e := Fit(lens, i, MAX_ISOC); [e] + Ends(lens, e, n - 1)
  }

  function Total(lens: seq<nat>, lo: nat, hi: nat): nat
    requires hi <= |lens|
    decreases hi - lo
  {
    if lo >= hi then 0 else lens[lo] + Total(lens, lo + 1, hi)
  }

  predicate Packable(lens: seq<nat>) {
    forall i :: 0 <= i < |lens| ==> lens[i] <= MAX_ISOC
  }

  /** The packets before each cut, and after the one before it, fit into one URB; the last cut is the end. */
  predicate Partition(lens: seq<nat>, i: nat, cuts: seq<nat>)
    requires i <= |lens|
    decreases |cuts|
  {
    if cuts == [] then i == |lens|
    else i <= cuts[0] <= |lens| && Total(lens, i, cuts[0]) <= MAX_ISOC && Partition(lens, cuts[0], cuts[1..])
  }

  lemma {:induction false} FitIsMaximal(lens: seq<nat>, i: nat, space: nat, c: nat)
    requires i <= c <= |lens|
    ensures Total(lens, i, Fit(lens, i, space)) <= space
    ensures Total(lens, i, c) <= space ==> c <= Fit(lens, i, space)
    decreases |lens| - i
  {
    if i < |lens| && lens[i] <= space {
      if i < c {
        FitIsMaximal(lens, i + 1, space - lens[i], c);
      } else {
        FitIsMaximal(lens, i + 1, space - lens[i], i + 1);
      }
    }
  }

  /** The counting pass without the machine arithmetic. */
  function Splits(lens: seq<nat>, i: nat, used: nat): nat
    requires i <= |lens|
    decreases |lens| - i
  {
    if i == |lens| then 0
    else if used + lens[i] > MAX_ISOC then 1 + Splits(lens, i + 1, lens[i])
    else Splits(lens, i + 1, used + lens[i])
  }

  lemma SmallArithmetic(used: nat, len: nat)
    requires used <= MAX_ISOC && len <= MAX_ISOC
    ensures Unsigned(MAX_ISOC - used) == MAX_ISOC - used && Signed(len) == len && Signed(used + len) == used + len
  {
  }

  lemma {:induction false} OpenedIsSplits(lens: seq<nat>, i: nat, used: nat)
    requires i <= |lens| && Packable(lens) && used <= MAX_ISOC
    ensures Opened(lens, i, used) == Splits(lens, i, used)
    decreases |lens| - i
  {
    if i < |lens| {
      SmallArithmetic(used, lens[i]);
      OpenedIsSplits(lens, i + 1, if used + lens[i] > MAX_ISOC then lens[i] else used + lens[i]);
    }
  }

  /** The counting pass opens a new URB exactly where the filling pass runs out of space. */
  lemma {:induction false} SplitsAtFit(lens: seq<nat>, i: nat, used: nat)
    requires i <= |lens| && Packable(lens) && used <= MAX_ISOC
    ensures var e := Fit(lens, i, MAX_ISOC - used);
            Splits(lens, i, used) == if e == |lens| then 0 else 1 + Splits(lens, e, 0)
    decreases |lens| - i
  {
    if i < |lens| && lens[i] <= MAX_ISOC - used {
      SplitsAtFit(lens, i + 1, used + lens[i]);
    }
  }

  lemma {:induction false} EndsPartition(lens: seq<nat>, i: nat)
    requires i <= |lens| && Packable(lens)
    ensures Partition(lens, i, Ends(lens, i, 1 + Splits(lens, i, 0)))
    decreases |lens| - i
  {
    var e := Fit(lens, i, MAX_ISOC);
    SplitsAtFit(lens, i, 0);
    FitIsMaximal(lens, i, MAX_ISOC, i);
    if e < |lens| {
      EndsPartition(lens, e);
    } else {
      assert Ends(lens, i, 1) == [e] + Ends(lens, e, 0);
    }
  }

  /** The fuller the current URB, the more URBs are opened later, but never more than one more. */
  lemma {:induction false} SplitsMonotone(lens: seq<nat>, i: nat, used: nat, used': nat)
    requires i <= |lens| && Packable(lens) && used <= used' <= MAX_ISOC
    ensures Splits(lens, i, used) <= Splits(lens, i, used') <= 1 + Splits(lens, i, 0)
    decreases |lens| - i
  {
    if i < |lens| {
      SplitsMonotone(lens, i + 1, lens[i], lens[i]);
      SplitsMonotone(lens, i + 1, 0, lens[i]);
      if used' + lens[i] <= MAX_ISOC {
        SplitsMonotone(lens, i + 1, used + lens[i], used' + lens[i]);
      } else if used + lens[i] <= MAX_ISOC {
        SplitsMonotone(lens, i + 1, used + lens[i], used + lens[i]);
      }
    }
  }

  lemma {:induction false} SplitsLater(lens: seq<nat>, i: nat, j: nat)
    requires i <= j <= |lens| && Packable(lens)
    ensures Splits(lens, j, 0) <= Splits(lens, i, 0)
    decreases j - i
  {
    if i < j {
      SplitsMonotone(lens, i + 1, 0, lens[i]);
      SplitsLater(lens, i + 1, j);
    }
  }

  lemma {:induction false} NoFewer(lens: seq<nat>, i: nat, cuts: seq<nat>)
    requires i <= |lens| && Packable(lens) && Partition(lens, i, cuts) && cuts != []
    ensures 1 + Splits(lens, i, 0) <= |cuts|
    decreases |cuts|
  {
    var e := Fit(lens, i, MAX_ISOC);
    FitIsMaximal(lens, i, MAX_ISOC, cuts[0]);
    SplitsAtFit(lens, i, 0);
    if e < |lens| {
      NoFewer(lens, cuts[0], cuts[1..]);
      SplitsLater(lens, cuts[0], e);
    }
  }

  /** If every packet fits into an URB, the two passes agree: the URBs counted take all packets, in
      order and without exceeding 32 KB, and no order-preserving packing needs fewer of them. */
  lemma PackingIsOptimal(lens: seq<nat>, cuts: seq<nat>)
    requires Packable(lens)
    ensures |Ends(lens, 0, NumUrbs(lens))| == NumUrbs(lens) && Partition(lens, 0, Ends(lens, 0, NumUrbs(lens)))
    ensures Partition(lens, 0, cuts) && cuts != [] ==> NumUrbs(lens) <= |cuts|
  {
    OpenedIsSplits(lens, 0, 0);
    EndsPartition(lens, 0);
    if Partition(lens, 0, cuts) && cuts != [] {
      NoFewer(lens, 0, cuts);
    }
  }

  lemma {:induction false} EndsStop(lens: seq<nat>, i: nat, n: nat, big: nat)
    requires i <= big < |lens| && lens[big] > MAX_ISOC
    ensures forall u :: 0 <= u < n ==> Ends(lens, i, n)[u] <= big
    decreases n
  {
    if n > 0 {
      FitStops(lens, i, MAX_ISOC, big);
      EndsStop(lens, Fit(lens, i, MAX_ISOC), n - 1, big);
    }
  }

  lemma {:induction false} FitStops(lens: seq<nat>, i: nat, space: nat, big: nat)
    requires i <= big < |lens| && lens[big] > space
    ensures Fit(lens, i, space) <= big
    decreases |lens| - i
  {
    if lens[i] <= space {
      FitStops(lens, i + 1, space - lens[i], big);
    }
  }

  lemma {:induction false} LastCut(lens: seq<nat>, i: nat, cuts: seq<nat>)
    requires i <= |lens| && Partition(lens, i, cuts) && cuts != []
    ensures cuts[|cuts| - 1] == |lens|
    decreases |cuts|
  {
    if |cuts| > 1 {
      LastCut(lens, cuts[0], cuts[1..]);
    }
  }

  /** The URBs take every packet if and only if no single packet is above 32 KB. */
  lemma AllPacketsPlaced(lens: seq<nat>)
    ensures var n := NumUrbs(lens); Ends(lens, 0, n)[n - 1] == |lens| <==> Packable(lens)
  {
    var n := NumUrbs(lens);
    if Packable(lens) {
      OpenedIsSplits(lens, 0, 0);
      EndsPartition(lens, 0);
      LastCut(lens, 0, Ends(lens, 0, n));
    } else {
      var big :| 0 <= big < |lens| && lens[big] > MAX_ISOC;
      EndsStop(lens, 0, n, big);
    }
  }

  // ----- The packing code -----

  type Byte = int

  datatype Packet = Packet(length: nat, payload: seq<Byte>)

  /** One isochronous URB: the length of each of its packets and their common buffer. */
  datatype IsoUrb = IsoUrb(lengths: seq<nat>, buffer: seq<Byte>)

  function Lengths(packets: seq<Packet>): (lens: seq<nat>)
    ensures |lens| == |packets|
  {
    seq(|packets|, i requires 0 <= i < |packets| => packets[i].length)
  }

  predicate WellSized(packets: seq<Packet>) {
    forall i :: 0 <= i < |packets| ==> |packets[i].payload| == packets[i].length < U32
  }

  /** The payloads of packets `lo..hi`, one behind the other. */
  function Joined(packets: seq<Packet>, lo: nat, hi: nat): seq<Byte>
    requires hi <= |packets|
    decreases hi
  {
    if lo >= hi then [] else Joined(packets, lo, hi - 1) + packets[hi - 1].payload
  }

  method CountUrbs(packets: seq<Packet>) returns (numUrbs: nat)
    requires WellSized(packets)
    ensures numUrbs == NumUrbs(Lengths(packets))
  {
    var lens := Lengths(packets);
    numUrbs := 1;
    var thisUrbLen := 0;
    for i := 0 to |packets|
      invariant numUrbs + Opened(lens, i, thisUrbLen) == NumUrbs(lens)
    {
      var space := MAX_ISOC - thisUrbLen;
      var packetLen := packets[i].length;
      if packetLen > Unsigned(space) {
        numUrbs := numUrbs + 1;
        thisUrbLen := Signed(packetLen);
      } else {
        thisUrbLen := Signed(thisUrbLen + packetLen);
      }
    }
  }

  /** Packs the packets from `start` on into one URB, as many as fit. */
  method FillUrb(packets: seq<Packet>, start: nat, dirOut: bool) returns (urb: IsoUrb, end: nat)
    requires WellSized(packets) && start <= |packets|
    ensures start <= end == Fit(Lengths(packets), start, MAX_ISOC) <= |packets|
    ensures urb.lengths == Lengths(packets)[start..end]
    ensures |urb.buffer| == |Joined(packets, start, end)|
    ensures dirOut ==> urb.buffer == Joined(packets, start, end)
  {
    var lens := Lengths(packets);
    var space := MAX_ISOC;
    end := start;
    while end < |packets| && packets[end].length <= space
      invariant start <= end <= |packets| && 0 <= space
      invariant Fit(lens, end, space) == Fit(lens, start, MAX_ISOC)
    {
      space := space - packets[end].length;
      end := end + 1;
    }
    var lengths, buffer := [], [];
    var k := start;
    while k < end
      invariant start <= k <= end
      invariant lengths == lens[start..k]
      invariant |buffer| == |Joined(packets, start, k)|
      invariant dirOut ==> buffer == Joined(packets, start, k)
    {
      lengths := lengths + [packets[k].length];
      buffer := buffer + if dirOut then packets[k].payload else seq(packets[k].length, i => 0);
      k := k + 1;
    }
    urb := IsoUrb(lengths, buffer);
  }

  /** Where URB `u` of a packing begins. */
  function StartOf(ends: seq<nat>, u: nat): nat
    requires u <= |ends|
  {
    if u == 0 then 0 else ends[u - 1]
  }

  lemma {:induction false} EndsAt(lens: seq<nat>, i: nat, n: nat, u: nat)
    requires i <= |lens| && u < n
    ensures var ends := Ends(lens, i, n); ends[u] == Fit(lens, if u == 0 then i else ends[u - 1], MAX_ISOC)
    decreases n
  {
    if u > 0 {
      EndsAt(lens, Fit(lens, i, MAX_ISOC), n - 1, u - 1);
    }
  }

  /** URB `u` holds the packets between the ends of its predecessor and its own. */
  ghost predicate Holds(packets: seq<Packet>, ends: seq<nat>, u: nat, urb: IsoUrb, dirOut: bool)
    requires u < |ends|
  {
    StartOf(ends, u) <= ends[u] <= |packets| &&
    urb.lengths == Lengths(packets)[StartOf(ends, u)..ends[u]] &&
    (dirOut ==> urb.buffer == Joined(packets, StartOf(ends, u), ends[u]))
  }

  method FillUrbs(packets: seq<Packet>, numUrbs: nat, dirOut: bool) returns (urbs: seq<IsoUrb>)
    requires WellSized(packets)
    ensures |urbs| == numUrbs
    ensures forall u {:trigger urbs[u]} :: 0 <= u < numUrbs ==>
            Holds(packets, Ends(Lengths(packets), 0, numUrbs), u, urbs[u], dirOut)
  {
    ghost var ends := Ends(Lengths(packets), 0, numUrbs);
    urbs := [];
    var packetOffset := 0;
    for i := 0 to numUrbs
      invariant |urbs| == i && packetOffset == StartOf(ends, i) <= |packets|
      invariant forall u {:trigger urbs[u]} :: 0 <= u < i ==> Holds(packets, ends, u, urbs[u], dirOut)
    {
      EndsAt(Lengths(packets), 0, numUrbs, i);
      var urb, end := FillUrb(packets, packetOffset, dirOut);
      urbs := urbs + [urb];
      packetOffset := end;
    }
  }

  /** In the buffer of an outgoing URB packet `p` lies where the lengths of the packets before it say. */
  lemma {:induction false} PayloadInBuffer(packets: seq<Packet>, lo: nat, p: nat, hi: nat)
    requires WellSized(packets) && lo <= p < hi <= |packets|
    ensures var at := Total(Lengths(packets), lo, p);
            at + packets[p].length <= |Joined(packets, lo, hi)| &&
            Joined(packets, lo, hi)[at..at + packets[p].length] == packets[p].payload
    decreases hi
  {
    if hi == p + 1 {
      JoinedLength(packets, lo, p);
    } else {
      PayloadInBuffer(packets, lo, p, hi - 1);
    }
  }

  lemma {:induction false} TotalSnoc(lens: seq<nat>, lo: nat, hi: nat)
    requires lo <= hi < |lens|
    ensures Total(lens, lo, hi + 1) == Total(lens, lo, hi) + lens[hi]
    decreases hi - lo
  {
    if lo < hi {
      TotalSnoc(lens, lo + 1, hi);
    }
  }

  lemma {:induction false} JoinedLength(packets: seq<Packet>, lo: nat, hi: nat)
    requires WellSized(packets) && lo <= hi <= |packets|
    ensures |Joined(packets, lo, hi)| == Total(Lengths(packets), lo, hi)
    decreases hi
  {
    if lo < hi {
      JoinedLength(packets, lo, hi - 1);
      TotalSnoc(Lengths(packets), lo, hi - 1);
    }
  }
}