/** Isochronous results: as the URBs of a request come back in order, what they report about each
    packet is stored under the packet's own index. */
module IsocResults {
  import opened Counting
  import opened Isoc

  /** The values of the C type `uint32_t`. */
  type Word = x: nat | x < U32

  /** `x + n` on `uint32_t` values. */
  function Plus(x: Word, n: Word): Word {
    if x + n < U32 then x + n else x + n - U32
  }

  lemma PlusIsModulo(x: nat, n: Word, sum: Word)
    requires sum == x % U32
    ensures Plus(sum, n) == (x + n) % U32
  {
  }

  /** What the kernel reports about one packet. */
  datatype Frame = Frame(errno: nat, actual: Word)

  /** Where a payload was filled from: `len` bytes of the buffer of URB `urb`, from `at` on. */
  datatype Payload = Untouched | Copied(urb: nat, at: nat, len: nat)

  datatype PacketResult = PacketResult(errno: nat, transferred: Word)

  /** The results of a request so far; each completion carries the byte count it reported. */
  datatype Progress = Progress(
    results: seq<PacketResult>,
    payloads: seq<Payload>,
    offset: nat,
    bytes: Word,
    completions: seq<Word>)

  /** Where the handler reads the data of packet `j` of an URB: behind what the packets before it brought. */
  function ReadAt(frames: seq<Frame>, j: nat): nat
    requires j <= |frames|
  {
    if j == 0 then 0 else ReadAt(frames, j - 1) + frames[j - 1].actual
  }

  /** The URB's packets are packets of the request, from the next one on. */
  predicate Fits(s: Progress, frames: seq<Frame>) {
    s.offset + |frames| <= |s.results| == |s.payloads|
  }

  /** A status is only written when it is an error. */
  function Stored(before: PacketResult, f: Frame): PacketResult {
    PacketResult(if f.errno != 0 then f.errno else before.errno, f.actual)
  }

  /** The request after the first `n` packets of URB `urb` were stored. */
  function StoredUpTo(s: Progress, urb: nat, frames: seq<Frame>, dirIn: bool, n: nat): (t: Progress)
    requires Fits(s, frames) && n <= |frames|
    ensures |t.results| == |s.results| == |t.payloads| && t.offset == s.offset + n && t.completions == s.completions
  {
    if n == 0 then s
    else
      var t, f, p := StoredUpTo(s, urb, frames, dirIn, n - 1), frames[n - 1], s.offset + n - 1;
      t.(results := t.results[p := Stored(t.results[p], f)],
         payloads := if dirIn then t.payloads[p := Copied(urb, ReadAt(frames, n - 1), f.actual)] else t.payloads,
         offset := p + 1,
         bytes := Plus(t.bytes, f.actual))
  }

  /** Each packet of the URB is stored once, under its own index, and nothing else is touched. */
  lemma {:induction false} StoredAt(s: Progress, urb: nat, frames: seq<Frame>, dirIn: bool, n: nat, p: nat)
    requires Fits(s, frames) && n <= |frames| && p < |s.results|
    ensures var t := StoredUpTo(s, urb, frames, dirIn, n);
            if s.offset <= p < s.offset + n then
              var j := p - s.offset;
              t.results[p].transferred == frames[j].actual &&
              t.results[p].errno == (if frames[j].errno != 0 then frames[j].errno else s.results[p].errno) &&
              t.payloads[p] == if dirIn then Copied(urb, ReadAt(frames, j), frames[j].actual) else s.payloads[p]
            else t.results[p] == s.results[p] && t.payloads[p] == s.payloads[p]
  {
    if n > 0 {
      StoredAt(s, urb, frames, dirIn, n - 1, p);
    }
  }

  lemma {:induction false} StoredBytes(s: Progress, urb: nat, frames: seq<Frame>, dirIn: bool, n: nat, brought: nat)
    requires Fits(s, frames) && n <= |frames| && s.bytes == brought % U32
    ensures StoredUpTo(s, urb, frames, dirIn, n).bytes == (brought + ReadAt(frames, n)) % U32
  {
    if n > 0 {
      StoredBytes(s, urb, frames, dirIn, n - 1, brought);
      PlusIsModulo(brought + ReadAt(frames, n - 1), frames[n - 1].actual,
                   StoredUpTo(s, urb, frames, dirIn, n - 1).bytes);
    }
  }

  function Handled(s: Progress, urb: nat, frames: seq<Frame>, dirIn: bool, last: bool): Progress
    requires Fits(s, frames)
  {
    var t := StoredUpTo(s, urb, frames, dirIn, |frames|);
    if last then t.(completions := t.completions + [t.bytes]) else t
  }

  /** The part of a request that `handle_isoc_complete` updates. */
  class IsocIo {
    var results: array<PacketResult>
    var payloads: array<Payload>
    var isocPacketOffset: nat
    var bytesTransferred: Word
    var completions: seq<Word>

    ghost function View(): Progress
      reads this, results, payloads
    {
      Progress(results[..], payloads[..], isocPacketOffset, bytesTransferred, completions)
    }

    constructor (numPackets: nat)
      ensures fresh(results) && fresh(payloads)
      ensures View() == Progress(seq(numPackets, i => PacketResult(0, 0)), seq(numPackets, i => Untouched), 0, 0, [])
    {
      results := new PacketResult[numPackets](_ => PacketResult(0, 0));
      payloads := new Payload[numPackets](_ => Untouched);
      isocPacketOffset, bytesTransferred, completions := 0, 0, [];
    }

    /** Stores the result of the next packet, and what its payload holds now. */
    method StoreFrame(f: Frame, payload: Payload)
      requires isocPacketOffset < results.Length == payloads.Length
      modifies this`isocPacketOffset, this`bytesTransferred, results, payloads
      ensures var p := old(isocPacketOffset);
              results[..] == old(results[..])[p := Stored(old(results[p]), f)] &&
              payloads[..] == old(payloads[..])[p := payload] &&
              isocPacketOffset == p + 1 && bytesTransferred == Plus(old(bytesTransferred), f.actual)
    {
      var p := isocPacketOffset;
      if f.errno != 0 {
        results[p] := results[p].(errno := f.errno);
      }
      results[p] := results[p].(transferred := f.actual);
      payloads[p] := payload;
      bytesTransferred := Plus(bytesTransferred, f.actual);
      isocPacketOffset := isocPacketOffset + 1;
    }

    /** handle_isoc_complete for URB `urb`, back with status 0, of a request that was not cancelled. */
    method HandleComplete(urb: nat, frames: seq<Frame>, dirIn: bool, last: bool)
      requires Fits(View(), frames)
      modifies this, results, payloads
      ensures results == old(results) && payloads == old(payloads)
      ensures View() == Handled(old(View()), urb, frames, dirIn, last)
    {
      ghost var s := View();
      var i, urbBuffer := 0, 0;
      while i < |frames|
        invariant 0 <= i <= |frames| && (dirIn ==> urbBuffer == ReadAt(frames, i))
        invariant results == old(results) && payloads == old(payloads)
        invariant View() == StoredUpTo(s, urb, frames, dirIn, i)
      {
        if dirIn {
          StoreFrame(frames[i], Copied(urb, urbBuffer, frames[i].actual));
          urbBuffer := urbBuffer + frames[i].actual;
        } else {
          StoreFrame(frames[i], payloads[isocPacketOffset]);
        }
        i := i + 1;
      }
      if last {
        completions := completions + [bytesTransferred];
      }
    }
  }

  // ----- The whole request -----

  /** The URBs of a request packed with these ends, all back with status 0: URB `u` reports on its own packets. */
  ghost predicate Reported(lens: seq<nat>, ends: seq<nat>, reports: seq<seq<Frame>>) {
    |reports| == |ends| && Ascending(ends) &&
    forall u {:trigger reports[u]} :: 0 <= u < |reports| ==> StartOf(ends, u) + |reports[u]| == ends[u] <= |lens|
  }

  ghost predicate Ascending(ends: seq<nat>) {
    forall a, b :: 0 <= a <= b < |ends| ==> ends[a] <= ends[b]
  }

  /** The request after its first `u` URBs came back in order. */
  function After(s: Progress, reports: seq<seq<Frame>>, dirIn: bool, u: nat): Progress
    requires u <= |reports|
  {
    if u == 0 then s
    else
      var t := After(s, reports, dirIn, u - 1);
      if Fits(t, reports[u - 1]) then Handled(t, u - 1, reports[u - 1], dirIn, u == |reports|) else t
  }

  lemma {:induction false} AfterFits(lens: seq<nat>, ends: seq<nat>, s: Progress, reports: seq<seq<Frame>>,
                                     dirIn: bool, u: nat)
    requires |s.results| == |s.payloads| == |lens| && s.offset == 0 && Reported(lens, ends, reports) && u <= |reports|
    ensures var t := After(s, reports, dirIn, u);
            |t.results| == |t.payloads| == |lens| && t.offset == StartOf(ends, u) &&
            (u < |reports| ==> Fits(t, reports[u]))
  {
    if u > 0 {
      AfterFits(lens, ends, s, reports, dirIn, u - 1);
    }
    if u < |reports| {
      assert StartOf(ends, u) + |reports[u]| == ends[u];
    }
  }

  /** Packet `j` of URB `v`, which begins at packet `start`, has its own report and, for an IN request, the data read
      for it. */
  ghost predicate Delivered(s: Progress, t: Progress, reports: seq<seq<Frame>>, dirIn: bool, v: nat, start: nat,
                            j: int) {
    v < |reports| && 0 <= j < |reports[v]| && start + j < |s.results| == |t.results| == |s.payloads| == |t.payloads| &&
    t.results[start + j].transferred == reports[v][j].actual &&
    t.results[start + j].errno ==
      (if reports[v][j].errno != 0 then reports[v][j].errno else s.results[start + j].errno) &&
    t.payloads[start + j] ==
      if dirIn then Copied(v, ReadAt(reports[v], j), reports[v][j].actual) else s.payloads[start + j]
  }

  /** Packet `p` of URB `v` is untouched until URB `v` comes back. */
  lemma {:induction false} AfterUntouched(lens: seq<nat>, ends: seq<nat>, s: Progress, reports: seq<seq<Frame>>,
                                          dirIn: bool, u: nat, p: nat)
    requires |s.results| == |s.payloads| == |lens| && s.offset == 0 && Reported(lens, ends, reports) && u <= |reports|
    requires StartOf(ends, u) <= p < |lens|
    ensures var t := After(s, reports, dirIn, u);
            |t.results| == |t.payloads| == |lens| && t.results[p] == s.results[p] && t.payloads[p] == s.payloads[p]
  {
    if u > 0 {
      AfterFits(lens, ends, s, reports, dirIn, u - 1);
      AfterUntouched(lens, ends, s, reports, dirIn, u - 1, p);
      StoredAt(After(s, reports, dirIn, u - 1), u - 1, reports[u - 1], dirIn, |reports[u - 1]|, p);
    }
  }

  lemma {:induction false} AfterAt(lens: seq<nat>, ends: seq<nat>, s: Progress, reports: seq<seq<Frame>>,
                                   dirIn: bool, u: nat, v: nat, j: nat)
    requires |s.results| == |s.payloads| == |lens| && s.offset == 0 && Reported(lens, ends, reports) && u <= |reports|
    requires v < u && j < |reports[v]|
    ensures Delivered(s, After(s, reports, dirIn, u), reports, dirIn, v, StartOf(ends, v), j)
  {
    var t, start := After(s, reports, dirIn, u - 1), StartOf(ends, v);
    assert start + |reports[v]| == ends[v] <= |lens|;
    AfterFits(lens, ends, s, reports, dirIn, u - 1);
    if v < u - 1 {
      AfterAt(lens, ends, s, reports, dirIn, u - 1, v, j);
      KeepsOthers(s, reports, dirIn, u, t, v, start, j);
    } else {
      AfterUntouched(lens, ends, s, reports, dirIn, v, start + j);
      DeliversOwn(s, reports, dirIn, v, t, j);
    }
  }

  /** An URB leaves alone what others delivered. */
  lemma KeepsOthers(s: Progress, reports: seq<seq<Frame>>, dirIn: bool, u: nat, t: Progress, v: nat, start: nat, j: nat)
    requires 0 < u <= |reports| && t == After(s, reports, dirIn, u - 1) && Fits(t, reports[u - 1])
    requires Delivered(s, t, reports, dirIn, v, start, j) && start + j < t.offset
    ensures Delivered(s, After(s, reports, dirIn, u), reports, dirIn, v, start, j)
  {
    StoredAt(t, u - 1, reports[u - 1], dirIn, |reports[u - 1]|, start + j);
  }

  lemma DeliversOwn(s: Progress, reports: seq<seq<Frame>>, dirIn: bool, v: nat, t: Progress, j: nat)
    requires v < |reports| && t == After(s, reports, dirIn, v) && Fits(t, reports[v])
    requires |s.results| == |s.payloads| == |t.results| && j < |reports[v]|
    requires t.results[t.offset + j] == s.results[t.offset + j] && t.payloads[t.offset + j] == s.payloads[t.offset + j]
    ensures Delivered(s, After(s, reports, dirIn, v + 1), reports, dirIn, v, t.offset, j)
  {
    StoredAt(t, v, reports[v], dirIn, |reports[v]|, t.offset + j);
  }

  function Brought(reports: seq<seq<Frame>>, u: nat): nat
    requires u <= |reports|
  {
    if u == 0 then 0 else Brought(reports, u - 1) + ReadAt(reports[u - 1], |reports[u - 1]|)
  }

  lemma {:induction false} HandledCounts(s: Progress, urb: nat, frames: seq<Frame>, dirIn: bool, last: bool,
                                         brought: nat)
    requires Fits(s, frames) && s.bytes == brought % U32
    ensures Handled(s, urb, frames, dirIn, last).bytes == (brought + ReadAt(frames, |frames|)) % U32
  {
    StoredBytes(s, urb, frames, dirIn, |frames|, brought);
  }

  lemma HandledCompletes(s: Progress, urb: nat, frames: seq<Frame>, dirIn: bool, last: bool)
    requires Fits(s, frames)
    ensures var t := Handled(s, urb, frames, dirIn, last);
            t.completions == if last then s.completions + [t.bytes] else s.completions
  {
  }

  lemma {:induction false} AfterCounts(lens: seq<nat>, ends: seq<nat>, s: Progress, reports: seq<seq<Frame>>,
                                       dirIn: bool, u: nat)
    requires |s.results| == |s.payloads| == |lens| && s.offset == 0 && s.bytes == 0 && s.completions == []
    requires Reported(lens, ends, reports) && u <= |reports| && reports != []
    ensures var t := After(s, reports, dirIn, u);
            t.bytes == Brought(reports, u) % U32 && t.completions == if u == |reports| then [t.bytes] else []
  {
    if u > 0 {
      AfterCounts(lens, ends, s, reports, dirIn, u - 1);
      AfterFits(lens, ends, s, reports, dirIn, u - 1);
      AfterOne(s, reports, dirIn, u, Brought(reports, u - 1), Brought(reports, u));
    }
  }

  lemma AfterOne(s: Progress, reports: seq<seq<Frame>>, dirIn: bool, u: nat, brought: nat, total: nat)
    requires 0 < u <= |reports| && total == brought + ReadAt(reports[u - 1], |reports[u - 1]|)
    requires var t := After(s, reports, dirIn, u - 1);
             Fits(t, reports[u - 1]) && t.bytes == brought % U32 && t.completions == []
    ensures var t := After(s, reports, dirIn, u);
            t.bytes == total % U32 && t.completions == if u == |reports| then [t.bytes] else []
  {
    HandledOne(After(s, reports, dirIn, u - 1), u - 1, reports[u - 1], dirIn, u == |reports|, brought, total);
  }

  lemma HandledOne(s: Progress, urb: nat, frames: seq<Frame>, dirIn: bool, last: bool, brought: nat, total: nat)
    requires Fits(s, frames) && s.bytes == brought % U32 && s.completions == [] &&
             total == brought + ReadAt(frames, |frames|)
    ensures var t := Handled(s, urb, frames, dirIn, last);
            t.bytes == total % U32 && t.completions == if last then [t.bytes] else []
  {
    HandledCounts(s, urb, frames, dirIn, last, brought);
    HandledCompletes(s, urb, frames, dirIn, last);
  }

  /** When all URBs of a packed request have come back in order with status 0, every packet has its own
      report and, for an IN request, data from its own URB; the packet offset is the number of packets,
      the byte count is the sum of what came, and the request was completed once, with that count. */
  lemma {:induction false} RoundTrip(lens: seq<nat>, s: Progress, reports: seq<seq<Frame>>, dirIn: bool)
    requires Packable(lens) && |s.results| == |s.payloads| == |lens| && s.offset == 0 && s.bytes == 0 &&
             s.completions == []
    requires Reported(lens, Ends(lens, 0, NumUrbs(lens)), reports)
    ensures var t := After(s, reports, dirIn, |reports|);
            t.offset == |lens| && t.bytes == Brought(reports, |reports|) % U32 && t.completions == [t.bytes]
    ensures var t, ends := After(s, reports, dirIn, |reports|), Ends(lens, 0, NumUrbs(lens));
            forall u, j :: 0 <= u < |reports| && 0 <= j < |reports[u]| ==>
              Delivered(s, t, reports, dirIn, u, StartOf(ends, u), j)
  {
    var t, ends := After(s, reports, dirIn, |reports|), Ends(lens, 0, NumUrbs(lens));
    AfterCounts(lens, ends, s, reports, dirIn, |reports|);
    AfterFits(lens, ends, s, reports, dirIn, |reports|);
    AllPacketsPlaced(lens);
    forall u, j | 0 <= u < |reports| && 0 <= j < |reports[u]|
      ensures Delivered(s, t, reports, dirIn, u, StartOf(ends, u), j)
    {
      AfterAt(lens, ends, s, reports, dirIn, |reports|, u, j);
    }
  }

  /** The data of packet `j` of an URB is read from where the kernel put it, at the sum of the lengths
      before it, if and only if every packet before it in the URB came full. */
  lemma {:induction false} ReadsOwnSlice(lens: seq<nat>, start: nat, frames: seq<Frame>, j: nat)
    requires j <= |frames| && start + |frames| <= |lens|
    requires forall i {:trigger frames[i]} :: 0 <= i < |frames| ==> frames[i].actual <= lens[start + i]
    ensures ReadAt(frames, j) <= Total(lens, start, start + j)
    ensures ReadAt(frames, j) == Total(lens, start, start + j) <==>
            forall i {:trigger frames[i]} :: 0 <= i < j ==> frames[i].actual == lens[start + i]
  {
    if j > 0 {
      ReadsOwnSlice(lens, start, frames, j - 1);
      TotalSnoc(lens, start, start + j - 1);
    }
  }
}
