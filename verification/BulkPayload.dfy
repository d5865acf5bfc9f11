/** Where the bytes of a bulk or interrupt request go: the URB buffers tile the payload, the byte
    count is the sum of what came back, and when a short read leaves a prefix of the payload. */
module BulkPayload {
  import opened Counting
  import opened BulkEngine
  import opened BulkRuns
  import opened BulkCompletion
  import opened BulkExactlyOnce

  // ----- The buffers -----

  /** The buffers lie one behind the other, from the start of the payload to its end, none above 16 KB. */
  ghost predicate Tiles(urbs: seq<Urb>, length: nat) {
    |urbs| > 0 && urbs[0].offset == 0 && urbs[|urbs| - 1].offset + urbs[|urbs| - 1].length == length &&
    (forall i :: 0 <= i < |urbs| - 1 ==> urbs[i].offset + urbs[i].length == urbs[i + 1].offset) &&
    forall i :: 0 <= i < |urbs| ==> 1 <= urbs[i].length <= MAX_XFER
  }

  /** The 32-bit product that places the buffers is right for every request of up to 2^31 bytes, and for none above. */
  lemma BuffersTile(length: nat, dirIn: bool, supported: bool)
    requires 0 < length < U32
    ensures Tiles(Prepared(length, dirIn, supported, NumUrbs(length)).urbs, length) <==> length <= 0x8000_0000
  {
    var n := NumUrbs(length);
    var urbs := Prepared(length, dirIn, supported, n).urbs;
    if length <= 0x8000_0000 {
      assert forall i: nat :: i < n ==> Offset(i) == i * MAX_XFER;
    } else {
      assert n > 131072 && Offset(131072) == -0x8000_0000 && Offset(131071) == 131071 * MAX_XFER;
      assert urbs[131071].offset + urbs[131071].length != urbs[131071 + 1].offset;
    }
  }

  /** At every boundary between two URBs of a request that usbfs can handle so, the second is flagged as its
      continuation and, of a read, the first must not come back short; no other URB has a flag. */
  lemma FlagsAtBoundaries(length: nat, dirIn: bool, supported: bool)
    requires 0 < length < U32
    ensures var urbs := Prepared(length, dirIn, supported, NumUrbs(length)).urbs;
            (forall i, j :: 0 <= i < |urbs| - 1 && j == i + 1 ==>
              (urbs[i].shortNotOk <==> supported && dirIn) && (urbs[j].continuation <==> supported)) &&
            !urbs[0].continuation && !urbs[|urbs| - 1].shortNotOk
  {
    assert NumUrbs(length) > 0;
  }

  // ----- The byte count -----

  predicate CountedStatus(status: Status) {
    status == Zero || status == RemoteIo
  }

  /** Bytes reported by the first `hi` URBs, as far as they ended well or short. */
  function Moved(k: seq<KernelUrb>, hi: nat): nat {
    if hi == 0 then 0
    else Moved(k, hi - 1) +
         if hi <= |k| && Back(k[hi - 1]) && CountedStatus(k[hi - 1].out.status) then k[hi - 1].out.actual else 0
  }

  ghost predicate WithinBuffers(w: World) {
    |w.e.urbs| == |w.k| && forall i :: 0 <= i < |w.k| && Back(w.k[i]) ==> w.k[i].out.actual <= w.e.urbs[i].length
  }

  lemma {:induction false} MovedSame(k: seq<KernelUrb>, k': seq<KernelUrb>, hi: nat)
    requires |k| == |k'| && hi <= |k|
    requires forall i :: 0 <= i < hi ==> Back(k[i]) && Back(k'[i]) && k[i].out == k'[i].out
    ensures Moved(k, hi) == Moved(k', hi)
  {
    if hi > 0 {
      MovedSame(k, k', hi - 1);
    }
  }

  lemma {:induction false} MovedBound(w: World, length: nat, dirIn: bool, supported: bool, hi: nat)
    requires w.e.urbs == Prepared(length, dirIn, supported, NumUrbs(length)).urbs && WithinBuffers(w) && hi <= |w.k|
    ensures Moved(w.k, hi) <= if hi == |w.k| then length else hi * MAX_XFER
  {
    if hi > 0 {
      MovedBound(w, length, dirIn, supported, hi - 1);
    }
  }

  /** The engine's byte count is that of the URBs reaped. */
  ghost predicate Accounted(w: World) {
    w.next <= |w.k| && WithinBuffers(w) && (forall i :: 0 <= i < w.next ==> w.k[i].Reaped?) &&
    w.e.bytes == Moved(w.k, w.next)
  }

  lemma DiscardedWithin(urbs: seq<Urb>, k: seq<KernelUrb>, trustKernel: bool, lo: nat)
    requires |urbs| == |k| && forall i :: 0 <= i < |k| && Back(k[i]) ==> k[i].out.actual <= urbs[i].length
    ensures var d := Discarded(urbs, k, trustKernel, lo, |k|);
            forall i :: 0 <= i < |k| && Back(d[i]) ==> d[i].out.actual <= urbs[i].length
  {
  }

  /** A reap counts its own URB and leaves the states of those reaped before. */
  lemma ReapAdds(w: World)
    requires Enabled(w, Reap) && WithinBuffers(w) && forall i :: 0 <= i < w.next ==> w.k[i].Reaped?
    ensures var w' := Step(w, Reap);
            w'.e.bytes == Received(w.e, w.k[w.next].out).bytes && w'.e.urbs == w.e.urbs &&
            w'.next == w.next + 1 && |w'.k| == |w.k| && WithinBuffers(w') &&
            (forall i :: 0 <= i < w.next ==> w'.k[i] == w.k[i]) && w'.k[w.next] == Reaped(w.k[w.next].out)
  {
    var k := w.k[w.next := Reaped(w.k[w.next].out)];
    if w.e.action == Normal { ReapNormal(w); } else { ReapWindingUp(w); }
    DiscardedWithin(w.e.urbs, k, true, w.next + 1);
  }

  lemma {:induction false} AccountedNext(w: World, w': World, out: Outcome, length: nat, dirIn: bool, supported: bool)
    requires 0 < length < U32 && w.e.urbs == Prepared(length, dirIn, supported, NumUrbs(length)).urbs
    requires Accounted(w) && w.next < |w.k| && w'.next == w.next + 1 && |w'.k| == |w.k| && w'.e.urbs == w.e.urbs
    requires WithinBuffers(w') && w'.e.bytes == Received(w.e, out).bytes && w'.k[w.next] == Reaped(out)
    requires forall i :: 0 <= i < w.next ==> w'.k[i] == w.k[i]
    ensures Accounted(w')
  {
    MovedSame(w.k, w'.k, w.next);
    MovedSmall(w', length, dirIn, supported, w'.next);
    AddsUp(w.e, out, Moved(w'.k, w'.next));
  }

  lemma MovedSmall(w: World, length: nat, dirIn: bool, supported: bool, hi: nat)
    requires 0 < length < U32 && w.e.urbs == Prepared(length, dirIn, supported, NumUrbs(length)).urbs
    requires WithinBuffers(w) && hi <= |w.k|
    ensures Moved(w.k, hi) < U32
  {
    MovedBound(w, length, dirIn, supported, hi);
  }

  lemma AddsUp(e: Engine, out: Outcome, total: nat)
    requires total == e.bytes + (if CountedStatus(out.status) then out.actual else 0) && total < U32
    ensures Received(e, out).bytes == total
  {
  }

  lemma AccountedStep(w: World, length: nat, dirIn: bool, supported: bool, ev: Event)
    requires 0 < length < U32 && w.e.urbs == Prepared(length, dirIn, supported, NumUrbs(length)).urbs
    requires Accounted(w) && Enabled(w, ev)
    ensures Accounted(Step(w, ev))
  {
    match ev {
      case Finish(i, out) =>
        MovedSame(w.k, Step(w, ev).k, w.next);
      case Discard(action) =>
        DiscardedWithin(w.e.urbs, w.k, false, 0);
        MovedSame(w.k, Step(w, ev).k, w.next);
      case Reap =>
        ReapAdds(w);
        AccountedNext(w, Step(w, ev), w.k[w.next].out, length, dirIn, supported);
    }
  }

  lemma {:induction false} AccountedRun(w: World, length: nat, dirIn: bool, supported: bool, evs: seq<Event>, w': World)
    requires 0 < length < U32 && w.e.urbs == Prepared(length, dirIn, supported, NumUrbs(length)).urbs
    requires Accounted(w) && Run(w, evs, w')
    ensures Accounted(w') && w'.e.urbs == w.e.urbs
    decreases |evs|
  {
    if evs != [] {
      AccountedStep(w, length, dirIn, supported, evs[0]);
      StepKeeps(w, evs[0]);
      AccountedRun(Step(w, evs[0]), length, dirIn, supported, evs[1..], w');
    }
  }

  /** In every run, whatever the kernel answers, `bytes_transferred` is the sum of the lengths of the
      URBs reaped well or short; it never wraps and never exceeds the length of the request. */
  lemma BytesAreTheSum(w: World, length: nat, dirIn: bool, supported: bool, evs: seq<Event>, w': World)
    requires Submitted(w, length, dirIn, supported) && Run(w, evs, w')
    ensures w'.next <= |w'.k| && w'.e.bytes == Moved(w'.k, w'.next) <= length
  {
    AccountedRun(w, length, dirIn, supported, evs, w');
    MovedBound(w', length, dirIn, supported, w'.next);
  }

  // ----- Short reads -----

  /** The first `p` URBs filled their buffers and URB `p` came back too, possibly short. */
  ghost predicate Filled(w: World, p: nat)
    requires |w.e.urbs| == |w.k|
  {
    p < |w.k| &&
    forall i :: 0 <= i <= p ==>
      w.k[i].Reaped? && CountedStatus(w.k[i].out.status) && (i < p ==> w.k[i].out.actual >= w.e.urbs[i].length)
  }

  /** Where a request that was never discarded stands, as far as it can still be reported successful. */
  ghost predicate OnTrack(w: World) {
    |w.e.urbs| == |w.k| && w.next <= |w.k| &&
    match w.e.action
    case Normal =>
      if w.next < |w.k| then w.e.completions == [] && (w.next > 0 ==>
        Filled(w, w.next - 1) && w.k[w.next - 1].out.actual >= w.e.urbs[w.next - 1].length)
      else w.next > 0 && Filled(w, w.next - 1) && w.e.completions == [Completion(Success, w.e.bytes)]
    case CompletedEarly =>
      (exists p :: 0 <= p < w.next && Filled(w, p) && w.k[p].out.actual < w.e.urbs[p].length) &&
      (w.e.completions == [] || w.e.completions == [Completion(Success, w.e.bytes)])
    case _ => forall c :: c in w.e.completions ==> c.reply != Success
  }

  lemma FilledKeeps(w: World, w': World, p: nat)
    requires |w.e.urbs| == |w.k| == |w'.k| && w'.e.urbs == w.e.urbs && Filled(w, p)
    requires forall i :: 0 <= i <= p ==> w'.k[i] == w.k[i]
    ensures Filled(w', p)
  {
  }

  lemma {:induction false} OnTrackReapNormal(w: World, n: nat)
    requires Sound(w, n, n) && OnTrack(w) && Enabled(w, Reap) && WithinBuffers(w) && w.e.action == Normal
    ensures OnTrack(Step(w, Reap))
  {
    var w', out := Step(w, Reap), w.k[w.next].out;
    ReapNormal(w);
    ReapAdds(w);
    var a := Leaving(w, out);
    if a == Normal || a == CompletedEarly {
      assert CountedStatus(out.status);
      if w.next > 0 {
        FilledKeeps(w, w', w.next - 1);
      }
      assert Filled(w', w.next);
    }
  }

  lemma {:induction false} OnTrackReapWindingUp(w: World, n: nat)
    requires Sound(w, n, n) && OnTrack(w) && Enabled(w, Reap) && WithinBuffers(w) && w.e.action != Normal
    ensures OnTrack(Step(w, Reap))
  {
    if w.e.action == CompletedEarly {
      OnTrackReapEarly(w, n);
    } else {
      FailingReap(w);
    }
  }

  lemma FailingReap(w: World)
    requires Enabled(w, Reap) && w.e.action != Normal && w.e.action != CompletedEarly
    requires forall c :: c in w.e.completions ==> c.reply != Success
    ensures var w' := Step(w, Reap);
            |w'.e.urbs| == |w'.k| && w'.next <= |w'.k| && w'.e.action == w.e.action &&
            forall c :: c in w'.e.completions ==> c.reply != Success
  {
    ReapWindingUp(w);
  }

  lemma OnTrackReapEarly(w: World, n: nat)
    requires Sound(w, n, n) && OnTrack(w) && Enabled(w, Reap) && w.e.action == CompletedEarly
    ensures OnTrack(Step(w, Reap))
  {
    EarlyReap(w);
    var p :| 0 <= p < w.next && Filled(w, p) && w.k[p].out.actual < w.e.urbs[p].length;
    FilledKeeps(w, Step(w, Reap), p);
  }

  lemma EarlyReap(w: World)
    requires Enabled(w, Reap) && w.e.action == CompletedEarly && w.e.completions == []
    ensures var w' := Step(w, Reap);
            w'.e.urbs == w.e.urbs && |w'.k| == |w.k| && w'.next == w.next + 1 && w'.e.action == CompletedEarly &&
            (forall i :: 0 <= i < w.next ==> w'.k[i] == w.k[i]) &&
            (w'.e.completions == [] || w'.e.completions == [Completion(Success, w'.e.bytes)])
  {
    ReapWindingUp(w);
  }

  lemma OnTrackFinish(w: World, i: nat, out: Outcome)
    requires OnTrack(w) && Enabled(w, Finish(i, out))
    ensures OnTrack(Step(w, Finish(i, out)))
  {
    var w' := Step(w, Finish(i, out));
    if w.e.action == Normal && w.next > 0 {
      FilledKeeps(w, w', w.next - 1);
    } else if w.e.action == CompletedEarly {
      var p :| 0 <= p < w.next && Filled(w, p) && w.k[p].out.actual < w.e.urbs[p].length;
      FilledKeeps(w, w', p);
    }
  }

  lemma {:induction false} OnTrackRun(w: World, n: nat, evs: seq<Event>, w': World)
    requires Sound(w, n, n) && n == |w.k| && OnTrack(w) && WithinBuffers(w)
    requires NoDiscard(evs) && Run(w, evs, w')
    ensures |w'.k| == n && Sound(w', n, n) && OnTrack(w') && WithinBuffers(w') && w'.e.urbs == w.e.urbs
    decreases |evs|
  {
    if evs != [] {
      SoundStep(w, n, n, evs[0]);
      match evs[0] {
        case Finish(i, out) => OnTrackFinish(w, i, out);
        case Reap =>
          ReapAdds(w);
          if w.e.action == Normal { OnTrackReapNormal(w, n); } else { OnTrackReapWindingUp(w, n); }
      }
      OnTrackRun(Step(w, evs[0]), n, evs[1..], w');
    }
  }

  /** Byte `x` of the payload was written by the device. */
  ghost predicate Written(w: World, x: int)
    requires |w.e.urbs| == |w.k|
  {
    exists i :: 0 <= i < |w.k| && Back(w.k[i]) && w.e.urbs[i].offset <= x < w.e.urbs[i].offset + w.k[i].out.actual
  }

  /** No URB behind a short one moved any data. */
  ghost predicate NothingBehindShort(w: World)
    requires |w.e.urbs| == |w.k|
  {
    forall i, j :: 0 <= i < j < |w.k| && Back(w.k[i]) && Back(w.k[j]) && w.k[i].out.actual < w.e.urbs[i].length ==>
      w.k[j].out.actual == 0
  }

  /** The bytes reported are exactly the bytes the device wrote, and these are a prefix of the payload. */
  ghost predicate Prefix(w: World)
    requires |w.e.urbs| == |w.k|
  {
    forall x :: Written(w, x) <==> 0 <= x < w.e.bytes
  }

  /** The buffers as `BuffersTile` places them: 16 KB apart and full-sized up to the last. */
  ghost predicate Grid(urbs: seq<Urb>) {
    forall i :: 0 <= i < |urbs| ==>
      urbs[i].offset == i * MAX_XFER && 0 < urbs[i].length <= MAX_XFER &&
      (i + 1 < |urbs| ==> urbs[i].length == MAX_XFER)
  }

  lemma PreparedGrid(length: nat, dirIn: bool, supported: bool)
    requires 0 < length <= 0x8000_0000
    ensures Grid(Prepared(length, dirIn, supported, NumUrbs(length)).urbs)
  {
    assert forall i: nat :: i < NumUrbs(length) ==> Offset(i) == i * MAX_XFER;
  }

  lemma {:induction false} MovedFull(w: World, p: nat)
    requires |w.e.urbs| == |w.k| && Grid(w.e.urbs) && WithinBuffers(w) && p < |w.k|
    requires forall i :: 0 <= i < p ==>
               Back(w.k[i]) && CountedStatus(w.k[i].out.status) && w.k[i].out.actual >= w.e.urbs[i].length
    ensures Moved(w.k, p) == p * MAX_XFER
  {
    if p > 0 {
      MovedFull(w, p - 1);
    }
  }

  lemma {:induction false} MovedNothing(k: seq<KernelUrb>, lo: nat, hi: nat)
    requires lo <= hi <= |k| && forall i :: lo <= i < hi ==> Back(k[i]) && k[i].out.actual == 0
    ensures Moved(k, hi) == Moved(k, lo)
  {
    if lo < hi {
      MovedNothing(k, lo, hi - 1);
    }
  }

  /** All URBs of the request are back and the first `p` filled their buffers; URB `p` is short or the last. */
  ghost predicate ShortAt(w: World, p: nat) {
    Grid(w.e.urbs) && WithinBuffers(w) && Filled(w, p) && w.e.bytes == Moved(w.k, |w.k|) &&
    (forall i :: 0 <= i < |w.k| ==> Back(w.k[i])) &&
    (p + 1 == |w.k| || w.k[p].out.actual < w.e.urbs[p].length)
  }

  lemma PrefixIfNothingBehind(w: World, p: nat)
    requires ShortAt(w, p) && NothingBehindShort(w)
    ensures Prefix(w)
  {
    MovedFull(w, p);
    MovedNothing(w.k, p + 1, |w.k|);
    assert w.e.bytes == p * MAX_XFER + w.k[p].out.actual;
    forall x | 0 <= x < w.e.bytes
      ensures Written(w, x)
    {
      var i := if x >= p * MAX_XFER then p else x / MAX_XFER;
      assert i * MAX_XFER <= x < i * MAX_XFER + w.k[i].out.actual;
    }
    forall x | Written(w, x)
      ensures 0 <= x < w.e.bytes
    {
      var i :| 0 <= i < |w.k| && Back(w.k[i]) && w.e.urbs[i].offset <= x < w.e.urbs[i].offset + w.k[i].out.actual;
      assert i <= p;
    }
  }

  lemma NothingBehindIfPrefix(w: World, p: nat)
    requires ShortAt(w, p) && Prefix(w)
    ensures NothingBehindShort(w)
  {
    forall j | p < j < |w.k|
      ensures w.k[j].out.actual == 0
    {
      if w.k[j].out.actual > 0 {
        HoleBehindShort(w, p, j);
      }
    }
  }

  /** Data behind a short URB leaves a byte unwritten before it. */
  lemma HoleBehindShort(w: World, p: nat, j: nat)
    requires ShortAt(w, p) && p < j < |w.k| && w.k[j].out.actual > 0
    ensures !Prefix(w)
  {
    var hole := p * MAX_XFER + w.k[p].out.actual;
    assert w.e.urbs[j].offset <= j * MAX_XFER < w.e.urbs[j].offset + w.k[j].out.actual;
    assert Written(w, j * MAX_XFER);
    assert hole < j * MAX_XFER;
    assert !Written(w, hole);
  }

  /** When a request that was never discarded is reported successful, the reported bytes are exactly
      the prefix of the payload the device wrote if and only if no URB behind a short one moved data. */
  lemma ShortReadPrefix(w: World, length: nat, dirIn: bool, supported: bool, evs: seq<Event>, w': World)
    requires Submitted(w, length, dirIn, supported) && length <= 0x8000_0000
    requires NoDiscard(evs) && Run(w, evs, w')
    requires w'.e.completions != [] && w'.e.completions[0].reply == Success
    ensures |w'.e.urbs| == |w'.k|
    ensures w'.e.completions == [Completion(Success, w'.e.bytes)]
    ensures Prefix(w') <==> NothingBehindShort(w')
  {
    SoundStart(w, length, dirIn, supported);
    OnTrackRun(w, |w.k|, evs, w');
    AccountedRun(w, length, dirIn, supported, evs, w');
    PreparedGrid(length, dirIn, supported);
    var p := SuccessShortAt(w', |w.k|);
    if NothingBehindShort(w') {
      PrefixIfNothingBehind(w', p);
    }
    if Prefix(w') {
      NothingBehindIfPrefix(w', p);
    }
  }

  lemma SuccessShortAt(w: World, n: nat) returns (p: nat)
    requires Sound(w, n, n) && n == |w.k| && OnTrack(w) && Accounted(w) && Grid(w.e.urbs)
    requires w.e.completions != [] && w.e.completions[0].reply == Success
    ensures ShortAt(w, p) && w.e.completions == [Completion(Success, w.e.bytes)]
  {
    if w.e.action == Normal {
      p := n - 1;
    } else {
      assert w.e.action == CompletedEarly by {
        assert w.e.completions[0] in w.e.completions;
      }
      p :| 0 <= p < w.next && Filled(w, p) && w.k[p].out.actual < w.e.urbs[p].length;
    }
  }

  // ----- Continuation flags -----

  ghost predicate AllPlain(w: World) {
    |w.e.urbs| == |w.k| && forall i :: 0 <= i < |w.k| && Back(w.k[i]) ==> Plain(w.e.urbs, w.k, i, w.k[i].out)
  }

  ghost predicate Continued(urbs: seq<Urb>) {
    forall i :: 1 <= i < |urbs| ==> urbs[i].continuation
  }

  lemma AllPlainSame(w: World, w': World)
    requires AllPlain(w) && w'.e.urbs == w.e.urbs && |w'.k| == |w.k|
    requires forall i :: 0 <= i < |w.k| ==>
               Back(w.k[i]) == Back(w'.k[i]) && (Back(w.k[i]) ==> w.k[i].out == w'.k[i].out)
    ensures AllPlain(w')
  {
    forall i | 0 <= i < |w.k|
      ensures ShortBefore(w.k, i) == ShortBefore(w'.k, i)
    {
      ShortBeforeSame(w.k, w'.k, i);
    }
  }

  lemma AllPlainFinish(w: World, i: nat, out: Outcome)
    requires AllPlain(w) && Ordered(w, |w.k|) && Orderly(w, Finish(i, out))
    ensures AllPlain(Step(w, Finish(i, out)))
  {
    var k := w.k[i := Done(out)];
    forall j | 0 <= j <= i
      ensures ShortBefore(w.k, j) == ShortBefore(k, j)
    {
      ShortBeforeSame(w.k, k, j);
    }
  }

  lemma {:induction false} AllPlainReap(w: World)
    requires AllPlain(w) && Tame(w, |w.k|) && Continued(w.e.urbs) && Enabled(w, Reap)
    ensures AllPlain(Step(w, Reap))
  {
    var k := w.k[w.next := Reaped(w.k[w.next].out)];
    if w.e.action == Normal {
      ReapNormal(w);
      assert Discarded(w.e.urbs, k, true, w.next + 1, |k|) == k;
    } else {
      ReapWindingUp(w);
    }
    AllPlainSame(w, Step(w, Reap));
  }

  lemma {:induction false} AllPlainRun(w: World, evs: seq<Event>, w': World)
    requires AllPlain(w) && Tame(w, |w.k|) && Continued(w.e.urbs) && NoDiscard(evs) && OrderlyRun(w, evs, w')
    ensures AllPlain(w') && w'.e.urbs == w.e.urbs && Run(w, evs, w')
    decreases |evs|
  {
    if evs != [] {
      var w1 := Step(w, evs[0]);
      StepKeeps(w, evs[0]);
      assert OrderlyRun(w, [evs[0]], w1) by { assert OrderlyRun(w1, [], w1); }
      TameRun(w, |w.k|, [evs[0]], w1);
      match evs[0] {
        case Finish(i, out) => AllPlainFinish(w, i, out);
        case Reap => AllPlainReap(w);
      }
      AllPlainRun(w1, evs[1..], w');
    }
  }

  /** With continuation flags and a kernel that keeps their contract, every request reported
      successful was filled with exactly the first `bytes_transferred` bytes. */
  lemma ContinuationGivesPrefix(w: World, length: nat, dirIn: bool, evs: seq<Event>, w': World)
    requires Submitted(w, length, dirIn, true) && length <= 0x8000_0000
    requires NoDiscard(evs) && OrderlyRun(w, evs, w')
    requires w'.e.completions != [] && w'.e.completions[0].reply == Success
    ensures |w'.e.urbs| == |w'.k| && w'.e.completions == [Completion(Success, w'.e.bytes)] && Prefix(w')
  {
    TameStart(w, length, dirIn, true);
    AllPlainRun(w, evs, w');
    TameRun(w, |w.k|, evs, w');
    ShortReadPrefix(w, length, dirIn, true, evs, w');
    forall i, j | 0 <= i < j < |w'.k| && Back(w'.k[i]) && Back(w'.k[j]) && w'.k[i].out.actual < w'.e.urbs[i].length
      ensures w'.k[j].out.actual == 0
    {
      assert Plain(w'.e.urbs, w'.k, i, w'.k[i].out) && Plain(w'.e.urbs, w'.k, j, w'.k[j].out);
      assert w'.e.urbs[i + 1].continuation;
      assert ShortBefore(w'.k, j);
    }
  }

  lemma {:induction false} HoleReaped(w: World) returns (w': World)
    requires w == World(Prepared(32768, true, false, 2), [Done(Outcome(Zero, 100)), Done(Outcome(Zero, 16384))], 0)
    ensures OrderlyRun(w, [Reap, Reap], w') && w'.k == [Reaped(Outcome(Zero, 100)), Reaped(Outcome(Zero, 16384))]
    ensures w'.e.urbs == w.e.urbs && w'.e.bytes == 16484 && w'.e.completions == [Completion(Success, 16484)]
  {
    ReapNormal(w);
    var p := Expecting(w.e.urbs, w.k[0 := Reaped(w.k[0].out)], true);
    assert Count(1, 2, p) == 0 by { assert Count(2, 2, p) == 0; }
    var w1 := Step(w, Reap);
    ReapWindingUp(w1);
    w' := Step(w1, Reap);
    assert OrderlyRun(w1, [Reap], w') by { assert OrderlyRun(w', [], w'); }
    assert [Reap, Reap][1..] == [Reap];
  }

  /** Without continuation flags it can go wrong: of two 16 KB URBs the first comes back with 100
      bytes and the second full, and the request is reported successful with a hole in its data. */
  lemma {:induction false} ShortReadHole() returns (w: World, evs: seq<Event>, w': World)
    ensures Submitted(w, 32768, true, false) && NoDiscard(evs) && OrderlyRun(w, evs, w')
    ensures |w'.e.urbs| == |w'.k| && w'.e.completions == [Completion(Success, 16484)] && !Prefix(w')
  {
    w := World(Prepared(32768, true, false, 2), [InFlight, InFlight], 0);
    var w1 := Step(w, Finish(0, Outcome(Zero, 100)));
    var w2 := Step(w1, Finish(1, Outcome(Zero, 16384)));
    assert w2.k == [Done(Outcome(Zero, 100)), Done(Outcome(Zero, 16384))];
    w' := HoleReaped(w2);
    evs := [Finish(0, Outcome(Zero, 100)), Finish(1, Outcome(Zero, 16384)), Reap, Reap];
    assert OrderlyRun(w1, evs[1..], w') by { assert evs[1..][1..] == [Reap, Reap]; }
    Hole(w');
  }

  lemma Hole(w: World)
    requires w.e.urbs == Prepared(32768, true, false, 2).urbs && w.e.bytes == 16484
    requires w.k == [Reaped(Outcome(Zero, 100)), Reaped(Outcome(Zero, 16384))]
    ensures |w.e.urbs| == |w.k| && !Prefix(w)
  {
    assert !Written(w, 100);
  }
}
