/** When a bulk or interrupt request is reported complete: never twice, and exactly under which
    kernel answers at all. */
module BulkCompletion {
  import opened Counting
  import opened BulkEngine
  import opened BulkRuns

  // ----- At most once -----

  lemma SoundStart(w: World, length: nat, dirIn: bool, supported: bool)
    requires Started(w, length, dirIn, supported)
    ensures Sound(w, |w.k|, |w.k|)
  {
  }

  lemma SoundStartPartly(w: World, length: nat, dirIn: bool, supported: bool, accepted: nat, seen: seq<KernelUrb>)
    requires StartedPartly(w, length, dirIn, supported, accepted, seen)
    ensures Sound(w, accepted, |w.k|)
  {
    var e := Prepared(length, dirIn, supported, accepted + 1);
    ChargeSum(e, seen, false, 0, accepted, SubmitFailed);
    assert Quiet(w.k);
  }

  /** Whatever the kernel answers and however often the request is discarded, it is completed at most once, its URB
      array is freed exactly then, and, stalls aside, only when no URB of it is left with the kernel. */
  lemma {:induction false} AtMostOnce(w: World, length: nat, dirIn: bool, supported: bool, m: nat,
                                      seen: seq<KernelUrb>, evs: seq<Event>, w': World)
    requires (Started(w, length, dirIn, supported) && m == |w.k|) || StartedPartly(w, length, dirIn, supported, m, seen)
    requires Run(w, evs, w') && Credit(|w.k|, |w.k|, evs) < U32
    ensures |w'.e.completions| <= 1 && (w'.e.freed <==> w'.e.completions != [])
    ensures w'.e.completions != [] && w'.e.action != Stall ==>
              forall i :: 0 <= i < |w'.k| ==> !w'.k[i].InFlight? && !w'.k[i].Done?
  {
    if Started(w, length, dirIn, supported) && m == |w.k| {
      SoundStart(w, length, dirIn, supported);
    } else {
      SoundStartPartly(w, length, dirIn, supported, m, seen);
    }
    SoundRun(w, m, |w.k|, evs, w');
  }

  /** A request of length 0 has no URB: whatever happens, it is never completed. */
  lemma {:induction false} ZeroLengthNeverCompletes(w: World, evs: seq<Event>, w': World)
    requires |w.e.urbs| == 0 && w.k == [] && w.e.completions == [] && Run(w, evs, w')
    ensures w'.e.completions == []
    ensures NumUrbs(0) == 0
    decreases |evs|
  {
    if evs != [] {
      ZeroLengthNeverCompletes(Step(w, evs[0]), evs[1..], w');
    }
  }

  /** The next URB to be reaped came back short, with others behind it. */
  predicate CutsShort(w: World) {
    |w.e.urbs| == |w.k| && w.next + 1 < |w.k| && Back(w.k[w.next]) &&
    (w.k[w.next].out.status == Zero || w.k[w.next].out.status == RemoteIo) &&
    w.k[w.next].out.actual < w.e.urbs[w.next].length
  }

  /** It came back with an error other than a stall. */
  predicate FailsUnknown(w: World) {
    w.next < |w.k| && Back(w.k[w.next]) &&
    (w.k[w.next].out.status == NoEntry || w.k[w.next].out.status == ConnReset || w.k[w.next].out.status == OtherError)
  }

  /** In NORMAL any other URB but a stalled one is only reaped; the last completes the request successfully. */
  lemma OthersGoOn(w: World, m: nat, credit: nat)
    requires Sound(w, m, credit) && w.e.action == Normal && Enabled(w, Reap)
    requires !CutsShort(w) && !FailsUnknown(w) && w.k[w.next].out.status != BrokenPipe
    ensures var w' := Step(w, Reap);
            w'.k == w.k[w.next := Reaped(w.k[w.next].out)] && w'.e.urbs == w.e.urbs && w'.e.action == Normal &&
            w'.e.completions == if w.next + 1 == |w.k| then [Completion(Success, w'.e.bytes)] else []
  {
    ReapNormal(w);
  }

  /** A stalled URB completes the request at once and frees its URB array, although every URB
      submitted after it is still with the kernel. */
  lemma StallFreesEarly(w: World, m: nat, credit: nat)
    requires Sound(w, m, credit) && w.e.action == Normal && Enabled(w, Reap)
    requires w.k[w.next].out.status == BrokenPipe
    ensures var w' := Step(w, Reap);
            w'.e.completions == [Completion(IoStall, w.e.bytes)] && w'.e.freed &&
            forall i :: w.next < i < |w.k| ==> w'.k[i].InFlight? || w'.k[i].Done?
  {
    ReapNormal(w);
    SoundReapNormal(w, m, credit);
  }

  // ----- Exactly when -----

  predicate NoDiscard(evs: seq<Event>) {
    forall ev :: ev in evs ==> !ev.Discard?
  }

  /** URB `i` came back in a way that lowers `urbs_to_cancel`. */
  predicate CancelKind(urbs: seq<Urb>, k: seq<KernelUrb>, i: nat)
    requires |urbs| == |k|
  {
    i < |k| && Back(k[i]) && (k[i].out.status == NoEntry || (k[i].out.status == ConnReset && urbs[i].continuation))
  }

  predicate ZeroKind(k: seq<KernelUrb>, i: nat) {
    i < |k| && Back(k[i]) && k[i].out.status == Zero
  }

  function CancelKinds(urbs: seq<Urb>, k: seq<KernelUrb>): nat -> bool
    requires |urbs| == |k|
  {
    (i: nat) => CancelKind(urbs, k, i)
  }

  function ZeroKinds(k: seq<KernelUrb>): nat -> bool {
    (i: nat) => ZeroKind(k, i)
  }

  function Cancels(urbs: seq<Urb>, k: seq<KernelUrb>, lo: nat, m: nat): nat
    requires |urbs| == |k|
  {
    Count(lo, m, CancelKinds(urbs, k))
  }

  function Zeros(k: seq<KernelUrb>, lo: nat, m: nat): nat {
    Count(lo, m, ZeroKinds(k))
  }

  /** While a request is being wound up a counter only falls, by one for an URB that came back in its way; only the
      counter of cancelled URBs may wrap around, when usbfs cancelled a continuation that was not expected. */
  lemma CountersFall(w: World)
    requires Enabled(w, Reap) && w.e.action != Normal
    ensures var e, e', out := w.e, Step(w, Reap).e, w.k[w.next].out;
            var cancelled := out.status == NoEntry || (out.status == ConnReset && e.urbs[w.next].continuation);
            (e'.toReap == e.toReap || (out.status == Zero && e'.toReap == e.toReap - 1)) &&
            (out.status == Zero && e.toReap > 0 ==> e'.toReap < e.toReap) &&
            (e'.toCancel == e.toCancel || (cancelled && e'.toCancel == e.toCancel - 1) ||
             (e.toCancel == 0 && out.status == ConnReset && cancelled && e'.toCancel == U32 - 1)) &&
            (cancelled && e.toCancel > 0 ==> e'.toCancel < e.toCancel)
  {
    ReapWindingUp(w);
  }

  /** What came back stays what it is, and the URBs never change. */
  ghost predicate Keeps(w: World, w': World) {
    |w.e.urbs| == |w.k| == |w'.k| && w'.e.urbs == w.e.urbs &&
    (forall i :: 0 <= i < |w.k| && Back(w.k[i]) ==> Back(w'.k[i]) && w'.k[i].out == w.k[i].out)
  }

  lemma StepKeeps(w: World, ev: Event)
    requires Enabled(w, ev)
    ensures Keeps(w, Step(w, ev))
  {
    if ev == Reap {
      if w.e.action == Normal { ReapNormal(w); } else { ReapWindingUp(w); }
    }
  }

  lemma {:induction false} RunKeeps(w: World, evs: seq<Event>, w': World)
    requires |w.e.urbs| == |w.k| && Run(w, evs, w')
    ensures Keeps(w, w')
    decreases |evs|
  {
    if evs != [] {
      StepKeeps(w, evs[0]);
      RunKeeps(Step(w, evs[0]), evs[1..], w');
    }
  }

  /** Nothing happens to a request once it is complete and all of its URBs are back. */
  lemma {:induction false} Finished(w: World, m: nat, credit: nat, evs: seq<Event>, w': World)
    requires Sound(w, m, credit) && w.e.completions != [] && w.next == m && Run(w, evs, w')
    ensures w'.e == w.e
    decreases |evs|
  {
    if evs != [] {
      assert evs[0].Finish?;
      SoundStep(w, m, credit, evs[0]);
      Finished(Step(w, evs[0]), m, credit, evs[1..], w');
    }
  }

  /** The counters foresee what comes back in `lo..m`. */
  predicate Foresees(e: Engine, k: seq<KernelUrb>, lo: nat, m: nat)
    requires |e.urbs| == |k|
  {
    lo < m && e.toCancel == Cancels(e.urbs, k, lo, m) && e.toReap == Zeros(k, lo, m)
  }

  /** One URB back: the counters foresaw it and the rest, or this was the last one and both are zero. */
  lemma ForeseesStep(w: World, m: nat, credit: nat, k: seq<KernelUrb>)
    requires |k| == |w.k| == |w.e.urbs| && w.next < m <= |k| <= credit < U32 && Covered(w, m, credit)
    requires w.e.toCancel < U32 && w.e.toReap < U32 && Back(k[w.next])
    ensures var t := Tally(w.e, w.next, k[w.next].out.status);
            Foresees(w.e, k, w.next, m) <==>
              if t.toCancel == 0 && t.toReap == 0 then w.next + 1 == m else Foresees(t, k, w.next + 1, m)
  {
    var lo, urbs := w.next, w.e.urbs;
    assert Cancels(urbs, k, lo, m) == Cancels(urbs, k, lo + 1, m) + if CancelKind(urbs, k, lo) then 1 else 0;
    assert Zeros(k, lo, m) == Zeros(k, lo + 1, m) + if ZeroKind(k, lo) then 1 else 0;
    Disjoint(urbs, k, lo + 1, m);
    assert Tally(w.e, lo, k[lo].out.status).urbs == urbs;
  }

  lemma Disjoint(urbs: seq<Urb>, k: seq<KernelUrb>, lo: nat, m: nat)
    requires |urbs| == |k| && lo <= m
    ensures Cancels(urbs, k, lo, m) + Zeros(k, lo, m) <= m - lo
  {
    CountUnion(lo, m, CancelKinds(urbs, k), ZeroKinds(k), (i: nat) => CancelKind(urbs, k, i) || ZeroKind(k, i));
  }

  lemma ReapMarks(w: World)
    requires Enabled(w, Reap)
    ensures var w' := Step(w, Reap);
            |w'.k| == |w.k| && w'.k[w.next] == Reaped(w.k[w.next].out) && w'.next == w.next + 1
  {
    if w.e.action == Normal { ReapNormal(w); } else { ReapWindingUp(w); }
  }

  /** One step of winding up, judged by the URB states `k` of a later moment. */
  lemma {:induction false} DrainReap(w: World, m: nat, credit: nat, k: seq<KernelUrb>)
    requires Sound(w, m, credit) && w.e.action != Normal && w.e.action != Stall && w.e.completions == []
    requires Enabled(w, Reap) && |k| == |w.k| && Back(k[w.next]) && k[w.next].out == w.k[w.next].out
    ensures var w1 := Step(w, Reap);
            w1.e.action == w.e.action && |w1.e.urbs| == |k| &&
            if w1.e.completions == [] then Foresees(w.e, k, w.next, m) == Foresees(w1.e, k, w1.next, m)
            else Foresees(w.e, k, w.next, m) && w1.next == m &&
                 w1.e.completions == [Completion(FinalReply(w.e.action), w1.e.bytes)]
  {
    var out := w.k[w.next].out;
    ReapWindingUp(w);
    WindUpEnds(Received(w.e, out), w.next, out.status);
    SoundReapWindingUp(w, m, credit);
    ForeseesStep(w.(e := Received(w.e, out)), m, credit, k);
  }

  /** Winding up updates the counters and completes the request when both are zero. */
  lemma WindUpEnds(e: Engine, i: nat, status: Status)
    requires i < |e.urbs| && e.completions == [] && e.action != Stall
    ensures var t, w := Tally(e, i, status), WindUp(e, i, status);
            w.action == e.action && w.urbs == t.urbs == e.urbs && w.bytes == e.bytes &&
            w.toCancel == t.toCancel && w.toReap == t.toReap &&
            w.completions ==
              if t.toCancel == 0 && t.toReap == 0 then [Completion(FinalReply(e.action), e.bytes)] else []
  {
  }

  /** A request being wound up completes if and only if the URBs still out come back exactly as the
      counters expect: as many cancelled and as many successful ones. */
  lemma {:induction false} DrainExact(w: World, m: nat, credit: nat, evs: seq<Event>, w': World)
    requires Sound(w, m, credit) && w.e.action != Normal && w.e.action != Stall && w.e.completions == []
    requires NoDiscard(evs) && Run(w, evs, w') && w'.next == m
    ensures |w'.e.urbs| == |w'.k| == |w.e.urbs|
    ensures w'.e.completions != [] <==> Foresees(w.e, w'.k, w.next, m)
    ensures w'.e.completions != [] ==> w'.e.completions == [Completion(FinalReply(w.e.action), w'.e.bytes)]
    decreases |evs|
  {
    RunKeeps(w, evs, w');
    if evs != [] {
      var w1 := Step(w, evs[0]);
      SoundStep(w, m, credit, evs[0]);
      RunKeeps(w1, evs[1..], w');
      match evs[0] {
        case Finish(_, _) =>
          DrainExact(w1, m, credit, evs[1..], w');
        case Reap =>
          ReapMarks(w);
          DrainReap(w, m, credit, w'.k);
          if w1.e.completions == [] {
            DrainExact(w1, m, credit, evs[1..], w');
          } else {
            Finished(w1, m, credit, evs[1..], w');
          }
      }
    }
  }

  // ----- What that means for each way a request leaves NORMAL -----

  /** `k` are the URB states after `lo..m` of `k0` were discarded and everything came back. */
  ghost predicate CameBack(k0: seq<KernelUrb>, k: seq<KernelUrb>, lo: nat, m: nat) {
    lo <= m <= |k0| == |k| &&
    forall i :: lo <= i < m ==>
      Back(k[i]) && if k0[i].InFlight? then k[i].out.status == NoEntry else Back(k0[i]) && k[i].out == k0[i].out
  }

  /** Every URB of `lo..m` that had come back by the time of the discard had succeeded. */
  ghost predicate LosersSucceeded(k0: seq<KernelUrb>, lo: nat, m: nat)
    requires m <= |k0|
  {
    forall i :: lo <= i < m && Back(k0[i]) ==> k0[i].out.status == Zero
  }

  lemma ForeseesDiscarded(e: Engine, k0: seq<KernelUrb>, k: seq<KernelUrb>, lo: nat, m: nat)
    requires |e.urbs| == |k| && CameBack(k0, k, lo, m)
    requires e.toCancel == Count(lo, m, Expecting(e.urbs, k0, false))
    requires e.toCancel + e.toReap == m - lo
    ensures Foresees(e, k, lo, m) <==> lo < m && LosersSucceeded(k0, lo, m)
  {
    var inFlight := Expecting(e.urbs, k0, false);
    var settled := (i: nat) => !inFlight(i);
    var zero := ZeroKinds(k);
    var any := (i: nat) => true;
    CountFull(lo, m, any);
    CountUnion(lo, m, inFlight, settled, any);
    CountSub(lo, m, zero, settled);
    forall i | lo <= i < m
      ensures Back(k0[i]) && k0[i].out.status != Zero <==> settled(i) && !zero(i)
    {
    }
    if LosersSucceeded(k0, lo, m) {
      CountCong(lo, m, inFlight, CancelKinds(e.urbs, k));
    }
  }

  lemma RunBrings(w: World, m: nat, credit: nat, evs: seq<Event>, w': World)
    requires Sound(w, m, credit) && Credit(|w.k|, credit, evs) < U32 && Run(w, evs, w') && w'.next == m
    ensures |w'.k| == |w.k| && Keeps(w, w') && forall i :: 0 <= i < m ==> Back(w'.k[i])
  {
    SoundRun(w, m, credit, evs, w');
    RunKeeps(w, evs, w');
  }

  lemma {:induction false} NoCredit(n: nat, credit: nat, evs: seq<Event>)
    requires NoDiscard(evs)
    ensures Credit(n, credit, evs) == credit
    decreases |evs|
  {
    if evs != [] {
      NoCredit(n, credit, evs[1..]);
    }
  }

  /** What a run without discards makes of a request being wound up. */
  lemma {:induction false} WoundUp(w: World, m: nat, credit: nat, evs: seq<Event>, w': World)
    requires Sound(w, m, credit) && w.e.action != Normal && w.e.action != Stall && w.e.completions == []
    requires NoDiscard(evs) && Run(w, evs, w') && w'.next == m
    ensures |w'.e.urbs| == |w'.k| == |w.k| == |w.e.urbs| && w'.e.urbs == w.e.urbs && w.next <= m <= |w.k|
    ensures Keeps(w, w') && forall i :: 0 <= i < m ==> Back(w'.k[i])
    ensures w'.e.completions != [] <==> Foresees(w.e, w'.k, w.next, m)
    ensures w'.e.completions != [] ==> w'.e.completions == [Completion(FinalReply(w.e.action), w'.e.bytes)]
  {
    NoCredit(|w.k|, credit, evs);
    RunBrings(w, m, credit, evs, w');
    DrainExact(w, m, credit, evs, w');
  }

  /** The request after a timeout or a cancel that hit it in NORMAL completes if and only if no URB
      of it had been reaped before and every URB that had finished by then had finished successfully.
      (`discard_urbs` charges reaped URBs too, and a loser that did not succeed is never counted off.) */
  lemma {:induction false} DiscardExact(w: World, credit: nat, action: Action, evs: seq<Event>, w': World)
    requires Sound(w, |w.k|, credit) && credit + |w.k| < U32
    requires w.e.action == Normal && Enabled(w, Discard(action))
    requires NoDiscard(evs) && Run(Step(w, Discard(action)), evs, w') && w'.next == |w.k|
    ensures w'.e.completions != [] <==> w.next == 0 && LosersSucceeded(w.k, 0, |w.k|)
    ensures w'.e.completions != [] ==>
              w'.e.completions == [Completion(if action == Canceled then IoCanceled else IoTimeout, w'.e.bytes)]
  {
    var n, w1 := |w.k|, Step(w, Discard(action));
    if w.next == 0 {
      SoundDiscard(w, n, credit, action);
      WholeTail(w.e, w.k, n, action, w1, credit + n, evs, w');
    } else {
      NoCredit(n, credit + n, evs);
      LateDiscard(w, n, credit, action, evs, w');
    }
  }

  /** The counters expect more than the `m` URBs submitted can still bring. */
  predicate Overcharged(w: World, m: nat) {
    w.e.action != Normal && w.e.action != Stall && w.e.completions == [] && w.e.toCancel + w.e.toReap + w.next > m
  }

  lemma OverchargedReap(w: World, m: nat, credit: nat)
    requires Sound(w, m, credit) && Overcharged(w, m) && Enabled(w, Reap)
    ensures Overcharged(Step(w, Reap), m)
  {
    ReapWindingUp(w);
  }

  lemma OverchargedStep(w: World, m: nat, credit: nat, ev: Event)
    requires Sound(w, m, credit) && Overcharged(w, m) && Enabled(w, ev) && (ev.Discard? ==> credit + |w.k| < U32)
    ensures Overcharged(Step(w, ev), m)
  {
    match ev {
      case Finish(i, out) =>
      case Reap => OverchargedReap(w, m, credit);
      case Discard(action) => DiscardAdds(w, m, credit, action);
    }
  }

  lemma {:induction false} OverchargedRun(w: World, m: nat, credit: nat, evs: seq<Event>, w': World)
    requires Sound(w, m, credit) && Overcharged(w, m) && Run(w, evs, w') && Credit(|w.k|, credit, evs) < U32
    ensures w'.e.completions == []
    decreases |evs|
  {
    if evs != [] {
      SoundStep(w, m, credit, evs[0]);
      OverchargedStep(w, m, credit, evs[0]);
      OverchargedRun(Step(w, evs[0]), m, if evs[0].Discard? then credit + |w.k| else credit, evs[1..], w');
    }
  }

  /** A cancel or timeout that hits a request after a reap, or while it is being wound up, charges more URBs than can
      come back: whatever happens then, the request never completes. */
  lemma LateDiscard(w: World, m: nat, credit: nat, action: Action, evs: seq<Event>, w': World)
    requires Sound(w, m, credit) && |w.k| > 0 && (w.e.action == Normal ==> w.next > 0)
    requires Enabled(w, Discard(action)) && Run(Step(w, Discard(action)), evs, w')
    requires Credit(|w.k|, credit + |w.k|, evs) < U32
    ensures w'.e.completions == []
  {
    var w1 := Step(w, Discard(action));
    DiscardAdds(w, m, credit, action);
    SoundDiscard(w, m, credit, action);
    assert w1.e.toCancel + w1.e.toReap == w.e.toCancel + w.e.toReap + |w.k|;
    OverchargedRun(w1, m, credit + |w.k|, evs, w');
  }

  /** A request of which an URB after the first was refused is reported as a failure if and only if
      every URB that had finished before the refusal had finished successfully. */
  lemma PartialSubmitExact(w: World, length: nat, dirIn: bool, supported: bool, accepted: nat, seen: seq<KernelUrb>,
                           evs: seq<Event>, w': World)
    requires StartedPartly(w, length, dirIn, supported, accepted, seen)
    requires NoDiscard(evs) && Run(w, evs, w') && w'.next == accepted
    ensures w'.e.completions != [] <==> LosersSucceeded(seen, 0, accepted)
    ensures w'.e.completions != [] ==> w'.e.completions == [Completion(SysFuncFailure, w'.e.bytes)]
  {
    SoundStartPartly(w, length, dirIn, supported, accepted, seen);
    WholeTail(Prepared(length, dirIn, supported, accepted + 1), seen, accepted, SubmitFailed, w, |w.k|, evs, w');
  }

  /** What follows a discard of all URBs submitted. */
  lemma WholeTail(e: Engine, seen: seq<KernelUrb>, m: nat, action: Action, w: World, credit: nat, evs: seq<Event>,
                  w': World)
    requires |e.urbs| == |seen| && 0 < m < U32 && e.toCancel == e.toReap == 0 && Holds(seen, m)
    requires w == World(Charge(e, seen, false, 0, m, action), Discarded(e.urbs, seen, false, 0, m), 0)
    requires Sound(w, m, credit) && w.e.completions == [] && action != Normal && action != Stall
    requires NoDiscard(evs) && Run(w, evs, w') && w'.next == m
    ensures w'.e.completions != [] <==> LosersSucceeded(seen, 0, m)
    ensures w'.e.completions != [] ==> w'.e.completions == [Completion(FinalReply(action), w'.e.bytes)]
  {
    WoundUp(w, m, credit, evs, w');
    WholeForesees(e, seen, m, action, w'.k);
  }

  lemma WholeForesees(e: Engine, seen: seq<KernelUrb>, m: nat, action: Action, k: seq<KernelUrb>)
    requires |e.urbs| == |seen| == |k| && 0 < m < U32 && e.toCancel == e.toReap == 0
    requires Holds(seen, m)
    requires var d := Discarded(e.urbs, seen, false, 0, m);
             forall i :: 0 <= i < m ==> Back(k[i]) && (Back(d[i]) ==> k[i].out == d[i].out)
    ensures Foresees(Charge(e, seen, false, 0, m, action), k, 0, m) <==> LosersSucceeded(seen, 0, m)
  {
    var charged := Charge(e, seen, false, 0, m, action);
    ChargeSum(e, seen, false, 0, m, action);
    ForeseesDiscarded(charged, seen, k, 0, m);
  }

  /** Every URB of `lo..m` came back as one usbfs or a discard cancelled. */
  ghost predicate AllCancelled(urbs: seq<Urb>, k: seq<KernelUrb>, lo: nat, m: nat)
    requires |urbs| == |k|
  {
    forall i :: lo <= i < m ==> CancelKind(urbs, k, i)
  }

  /** A request that leaves NORMAL because an URB came back short or with an unknown error completes
      if and only if there are URBs behind that one and: with continuation flags, all of them come
      back cancelled; without, each of them that had already finished had finished successfully.
      In particular an unknown error on the last URB is never reported. A short URB is reported as a
      success, an unknown error as a system failure. */
  lemma LeavingExact(w: World, credit: nat, evs: seq<Event>, w': World)
    requires Sound(w, |w.k|, credit) && w.e.action == Normal && Enabled(w, Reap)
    requires CutsShort(w) || FailsUnknown(w)
    requires NoDiscard(evs) && Run(Step(w, Reap), evs, w') && w'.next == |w.k|
    ensures |w'.e.urbs| == |w'.k|
    ensures var first := w.next + 1;
            w'.e.completions != [] <==>
            first < |w.k| &&
            if w.e.urbs[first].continuation then AllCancelled(w'.e.urbs, w'.k, first, |w.k|)
            else LosersSucceeded(w.k, first, |w.k|)
    ensures w'.e.completions != [] ==>
            w'.e.completions == [Completion(if CutsShort(w) then Success else SysFuncFailure, w'.e.bytes)]
  {
    var out := w.k[w.next].out;
    LeavingStep(w, credit);
    var k := w.k[w.next := Reaped(out)];
    assert forall i :: w.next < i < |k| ==> k[i] == w.k[i];
    LeavingTail(Received(w.e, out), k, w.next + 1, Leaving(w, out), Step(w, Reap), credit, evs, w');
  }

  lemma LeavingTail(e: Engine, k: seq<KernelUrb>, first: nat, a: Action, w1: World, credit: nat, evs: seq<Event>,
                    w': World)
    requires |e.urbs| == |k| < U32 && 1 <= first <= |k| && Uniform(e.urbs) && e.toCancel == e.toReap == 0
    requires a == CompletedEarly || a == UnknownFailure
    requires forall i :: first <= i < |k| ==> k[i].InFlight? || k[i].Done?
    requires w1 == World(Charge(e, k, true, first, |k|, a), Discarded(e.urbs, k, true, first, |k|), first)
    requires Sound(w1, |k|, credit) && w1.e.completions == []
    requires NoDiscard(evs) && Run(w1, evs, w') && w'.next == |k|
    ensures |w'.e.urbs| == |w'.k| == |k| && w'.e.urbs == e.urbs
    ensures w'.e.completions != [] <==>
            first < |k| &&
            if e.urbs[first].continuation then AllCancelled(e.urbs, w'.k, first, |k|)
            else LosersSucceeded(k, first, |k|)
    ensures w'.e.completions != [] ==> w'.e.completions == [Completion(FinalReply(a), w'.e.bytes)]
  {
    WoundUp(w1, |k|, credit, evs, w');
    if first < |k| {
      LeavingForesees(e, k, first, a, w'.k);
    }
  }

  lemma LeavingStep(w: World, credit: nat)
    requires Sound(w, |w.k|, credit) && w.e.action == Normal && Enabled(w, Reap)
    requires var a := Leaving(w, w.k[w.next].out); a == CompletedEarly || a == UnknownFailure
    ensures var out := w.k[w.next].out;
            var e, k, a, w1 := Received(w.e, out), w.k[w.next := Reaped(out)], Leaving(w, out), Step(w, Reap);
            Sound(w1, |w.k|, credit) && w1.e.completions == [] && w1.e.action == a && w1.next == w.next + 1 &&
            Uniform(e.urbs) && e.toCancel == e.toReap == 0 && |e.urbs| == |k| < U32 &&
            (forall i :: w1.next <= i < |k| ==> k[i].InFlight? || k[i].Done?) &&
            w1.e == Charge(e, k, true, w1.next, |k|, a) && w1.k == Discarded(e.urbs, k, true, w1.next, |k|)
  {
    ReapNormal(w);
    SoundReapNormal(w, |w.k|, credit);
  }

  lemma LeavingForesees(e: Engine, k: seq<KernelUrb>, first: nat, action: Action, k': seq<KernelUrb>)
    requires |e.urbs| == |k| == |k'| && 1 <= first < |k| < U32 && Uniform(e.urbs) && e.toCancel == e.toReap == 0
    requires forall i :: first <= i < |k| ==> k[i].InFlight? || k[i].Done?
    requires var d := Discarded(e.urbs, k, true, first, |k|);
             forall i :: 0 <= i < |k| ==> Back(k'[i]) && (Back(d[i]) ==> k'[i].out == d[i].out)
    ensures Foresees(Charge(e, k, true, first, |k|, action), k', first, |k|) <==>
            if e.urbs[first].continuation then AllCancelled(e.urbs, k', first, |k|) else LosersSucceeded(k, first, |k|)
  {
    var n := |k|;
    var charged := Charge(e, k, true, first, n, action);
    var expected := Expecting(e.urbs, k, true);
    ChargeSum(e, k, true, first, n, action);
    if e.urbs[first].continuation {
      ForeseesAll(charged, k', first, n, expected);
    } else {
      CountCong(first, n, expected, Expecting(e.urbs, k, false));
      ForeseesDiscarded(charged, k, k', first, n);
    }
  }

  /** With continuation flags the counters expect every URB left to come back cancelled. */
  lemma ForeseesAll(e: Engine, k: seq<KernelUrb>, lo: nat, m: nat, expected: nat -> bool)
    requires |e.urbs| == |k| && lo < m && e.toCancel + e.toReap == m - lo
    requires e.toCancel == Count(lo, m, expected) && forall i :: lo <= i < m ==> expected(i)
    ensures Foresees(e, k, lo, m) <==> AllCancelled(e.urbs, k, lo, m)
  {
    CountFull(lo, m, expected);
    CountFull(lo, m, CancelKinds(e.urbs, k));
    assert forall i :: lo <= i < m ==> CancelKinds(e.urbs, k)(i) == CancelKind(e.urbs, k, i);
    Disjoint(e.urbs, k, lo, m);
  }
}
