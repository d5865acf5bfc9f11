/** With a kernel that keeps the usbfs contract, a request that was started is completed exactly
    once, with its last URB, and the counters are exact at every moment before that. */
module BulkExactlyOnce {
  import opened Counting
  import opened BulkEngine
  import opened BulkRuns
  import opened BulkCompletion

  // ----- The usbfs contract -----

  /** An URB before `i` came back short where that was not allowed, so usbfs cancels its continuations. */
  ghost predicate ShortBefore(k: seq<KernelUrb>, i: nat) {
    exists j :: 0 <= j < i && j < |k| && Back(k[j]) && k[j].out.status == RemoteIo
  }

  /** What URB `i` may come back with, given the URBs before it. */
  ghost predicate Plain(urbs: seq<Urb>, k: seq<KernelUrb>, i: nat, out: Outcome)
    requires i < |urbs| == |k|
  {
    if urbs[i].continuation && ShortBefore(k, i) then out == Outcome(ConnReset, 0)
    else if out.status == RemoteIo then urbs[i].shortNotOk && out.actual < urbs[i].length
    else out.status == Zero && (out.actual == urbs[i].length || i + 1 == |k| || !urbs[i + 1].continuation)
  }

  /** The endpoint works through its URBs in order, cancels continuations of a short one, and does
      not stall; only a request none of whose URBs was reaped yet is discarded, and only once. */
  ghost predicate Orderly(w: World, ev: Event) {
    Enabled(w, ev) &&
    match ev
    case Finish(i, out) => (forall j :: 0 <= j < i ==> !w.k[j].InFlight?) && Plain(w.e.urbs, w.k, i, out)
    case Reap => true
    case Discard(_) => w.next == 0 && w.e.action == Normal && LosersSucceeded(w.k, 0, |w.k|)
  }

  ghost predicate OrderlyRun(w: World, evs: seq<Event>, w': World)
    decreases |evs|
  {
    if evs == [] then w == w' else Orderly(w, evs[0]) && OrderlyRun(Step(w, evs[0]), evs[1..], w')
  }

  // ----- The invariant -----

  /** URB `i` is going to lower `urbs_to_cancel`. */
  predicate Due(urbs: seq<Urb>, k: seq<KernelUrb>, i: nat)
    requires |urbs| == |k|
  {
    i < |k| && (k[i].InFlight? || CancelKind(urbs, k, i))
  }

  function Dues(urbs: seq<Urb>, k: seq<KernelUrb>): nat -> bool
    requires |urbs| == |k|
  {
    (i: nat) => Due(urbs, k, i)
  }

  /** The counters say how many of the `m` URBs submitted that are still out will come back cancelled and how many
      successful. */
  ghost predicate Exact(w: World, m: nat)
    requires |w.e.urbs| == |w.k| && w.next <= m <= |w.k|
  {
    w.e.toCancel == Count(w.next, m, Dues(w.e.urbs, w.k)) &&
    w.e.toReap == Count(w.next, m, ZeroKinds(w.k)) &&
    forall i :: w.next <= i < m ==> Due(w.e.urbs, w.k, i) || ZeroKind(w.k, i)
  }

  ghost predicate Flags(urbs: seq<Urb>) {
    Uniform(urbs) && forall i :: 0 <= i < |urbs| && urbs[i].shortNotOk ==> i + 1 < |urbs| && urbs[i + 1].continuation
  }

  function OrderlyReply(a: Action): Reply {
    if a == Normal then Success else FinalReply(a)
  }

  ghost predicate Ordered(w: World, m: nat) {
    InOrder(w, m) && |w.k| < U32 &&
    forall i, j :: 0 <= i < j < m && w.k[i].InFlight? ==> w.k[j].InFlight?
  }

  /** `m` URBs were submitted: all of the request, unless one was refused. */
  ghost predicate Tame(w: World, m: nat) {
    Ordered(w, m) && (w.e.action != SubmitFailed ==> m == |w.k| && Flags(w.e.urbs)) &&
    if w.e.completions != [] then
      w.next == m && w.e.completions == [Completion(OrderlyReply(w.e.action), w.e.bytes)] &&
      w.e.action in {Normal, CompletedEarly, Canceled, TimedOut, SubmitFailed}
    else
      w.next < m &&
      match w.e.action
      case Normal =>
        w.e.toCancel == w.e.toReap == 0 &&
        (forall i :: 0 <= i < w.next ==> w.k[i].out.status == Zero) &&
        forall i :: 0 <= i < |w.k| && Back(w.k[i]) ==> Plain(w.e.urbs, w.k, i, w.k[i].out)
      case CompletedEarly =>
        Exact(w, m) &&
        forall i :: w.next <= i < m && w.k[i].InFlight? ==> w.e.urbs[i].continuation && ShortBefore(w.k, w.next)
      case Canceled => Exact(w, m) && Quiet(w.k)
      case TimedOut => Exact(w, m) && Quiet(w.k)
      case SubmitFailed => Exact(w, m) && Quiet(w.k)
      case _ => false
  }

  lemma ShortBeforeSame(k: seq<KernelUrb>, k': seq<KernelUrb>, i: nat)
    requires |k| == |k'|
    requires forall j :: 0 <= j < i && j < |k| ==> Back(k[j]) == Back(k'[j]) && (Back(k[j]) ==> k[j].out == k'[j].out)
    ensures ShortBefore(k, i) == ShortBefore(k', i)
  {
    if j :| 0 <= j < i && j < |k| && Back(k[j]) && k[j].out.status == RemoteIo {
      assert Back(k'[j]) && k'[j].out.status == RemoteIo;
    }
    if j :| 0 <= j < i && j < |k| && Back(k'[j]) && k'[j].out.status == RemoteIo {
      assert Back(k[j]) && k[j].out.status == RemoteIo;
    }
  }

  lemma TameFinishEarly(w: World, i: nat, out: Outcome)
    requires Tame(w, |w.k|) && Orderly(w, Finish(i, out)) && w.e.action == CompletedEarly && w.e.completions == []
    ensures Tame(Step(w, Finish(i, out)), |w.k|)
  {
    var k := w.k[i := Done(out)];
    assert Ordered(Step(w, Finish(i, out)), |w.k|);
    assert w.next <= i && ShortBefore(w.k, i);
    ShortBeforeSame(w.k, k, w.next);
    CountCong(w.next, |k|, Dues(w.e.urbs, w.k), Dues(w.e.urbs, k));
    CountCong(w.next, |k|, ZeroKinds(w.k), ZeroKinds(k));
    assert forall j :: 0 <= j < |k| && j != i ==> k[j] == w.k[j];
    assert Due(w.e.urbs, k, i);
    assert forall j :: w.next <= j < |k| && j != i ==>
      Due(w.e.urbs, k, j) == Due(w.e.urbs, w.k, j) && ZeroKind(k, j) == ZeroKind(w.k, j);
  }

  lemma TameFinish(w: World, i: nat, out: Outcome)
    requires Tame(w, |w.k|) && Orderly(w, Finish(i, out))
    ensures Tame(Step(w, Finish(i, out)), |w.k|)
  {
    var k := w.k[i := Done(out)];
    if w.e.action == Normal {
      assert Ordered(Step(w, Finish(i, out)), |w.k|);
      forall j | 0 <= j <= i
        ensures ShortBefore(w.k, j) == ShortBefore(k, j)
      {
        ShortBeforeSame(w.k, k, j);
      }
    } else {
      TameFinishEarly(w, i, out);
    }
  }

  lemma TameDiscard(w: World, action: Action)
    requires Tame(w, |w.k|) && Orderly(w, Discard(action))
    ensures Tame(Step(w, Discard(action)), |w.k|)
  {
    var n, w' := |w.k|, Step(w, Discard(action));
    InOrderDiscard(w, n, action);
    ChargeSum(w.e, w.k, false, 0, n, action);
    CountCong(0, n, Expecting(w.e.urbs, w.k, false), Dues(w'.e.urbs, w'.k));
    CountFull(0, n, (i: nat) => true);
    CountUnion(0, n, Dues(w'.e.urbs, w'.k), ZeroKinds(w'.k), (i: nat) => true);
  }

  lemma OrderedReap(w: World, m: nat, e: Engine)
    requires Ordered(w, m) && Enabled(w, Reap) && e.urbs == w.e.urbs
    ensures Ordered(World(e, w.k[w.next := Reaped(w.k[w.next].out)], w.next + 1), m)
  {
    InOrderReap(w, m, e);
  }

  /** The URB being reaped in NORMAL was short or complete, and its state in the kernel is all that changes. */
  lemma ReapKeepsPlain(w: World, k: seq<KernelUrb>)
    requires Tame(w, |w.k|) && Enabled(w, Reap) && w.e.action == Normal && w.e.completions == []
    requires k == w.k[w.next := Reaped(w.k[w.next].out)]
    ensures var out := w.k[w.next].out;
            (out.status == Zero || out.status == RemoteIo) && (Leaving(w, out) == Normal ==> out.status == Zero) &&
            (Leaving(w, out) == Normal || Leaving(w, out) == CompletedEarly) &&
            (forall i :: 0 <= i < |k| && Back(k[i]) ==> Plain(w.e.urbs, k, i, k[i].out)) &&
            (Leaving(w, out) == CompletedEarly && w.e.urbs[w.next + 1].continuation ==> ShortBefore(k, w.next + 1))
  {
    assert !ShortBefore(w.k, w.next);
    assert Plain(w.e.urbs, w.k, w.next, w.k[w.next].out);
    forall i | 0 <= i < |k|
      ensures ShortBefore(w.k, i) == ShortBefore(k, i)
    {
      ShortBeforeSame(w.k, k, i);
    }
  }

  lemma {:induction false} TameReapNormal(w: World)
    requires Tame(w, |w.k|) && Orderly(w, Reap) && w.e.action == Normal && w.e.completions == []
    ensures Tame(Step(w, Reap), |w.k|)
  {
    var out := w.k[w.next].out;
    var e, k, first := Received(w.e, out), w.k[w.next := Reaped(out)], w.next + 1;
    ReapNormal(w);
    OrderedReap(w, |w.k|, e);
    ReapKeepsPlain(w, k);
    if Leaving(w, out) == CompletedEarly {
      TameLeave(e, k, first);
      assert Step(w, Reap) ==
             World(Charge(e, k, true, first, |k|, CompletedEarly), Discarded(e.urbs, k, true, first, |k|), first);
    } else {
      TameOnward(w, e, k);
      assert Step(w, Reap) == World(if w.next == |k| - 1 then Complete(e, Success) else e, k, first);
    }
  }

  lemma TameOnward(w: World, e: Engine, k: seq<KernelUrb>)
    requires Tame(w, |w.k|) && w.e.action == Normal && w.e.completions == [] && w.k[w.next].Done?
    requires k == w.k[w.next := Reaped(w.k[w.next].out)] && e == w.e.(bytes := e.bytes)
    requires w.k[w.next].out.status == Zero && Ordered(World(e, k, w.next + 1), |k|)
    requires forall i :: 0 <= i < |k| && Back(k[i]) ==> Plain(w.e.urbs, k, i, k[i].out)
    ensures Tame(World(if w.next == |k| - 1 then Complete(e, Success) else e, k, w.next + 1), |k|)
  {
  }

  lemma {:induction false} TameLeave(e: Engine, k: seq<KernelUrb>, first: nat)
    requires e.toCancel == e.toReap == 0 && e.completions == [] && 1 <= first < |k| < U32 &&
             Ordered(World(e, k, first), |k|)
    requires forall i :: 0 <= i < |k| && Back(k[i]) ==> Plain(e.urbs, k, i, k[i].out)
    requires Flags(e.urbs) && (e.urbs[first].continuation ==> ShortBefore(k, first)) && e.action == Normal
    ensures Tame(World(Charge(e, k, true, first, |k|, CompletedEarly), Discarded(e.urbs, k, true, first, |k|), first),
                 |k|)
  {
    var n := |k|;
    var w' := World(Charge(e, k, true, first, n, CompletedEarly), Discarded(e.urbs, k, true, first, n), first);
    var p := Expecting(e.urbs, k, true);
    ChargeSum(e, k, true, first, n, CompletedEarly);
    if e.urbs[first].continuation {
      assert w'.k == k;
      assert forall i :: first <= i < n ==> ShortBefore(k, i);
    }
    forall i | first <= i < n
      ensures k[i].InFlight? || k[i].Done?
      ensures !e.urbs[first].continuation && k[i].Done? ==> k[i].out.status == Zero
    {
      assert e.urbs[i].continuation == e.urbs[first].continuation;
      if k[i].Done? && k[i].out.status == RemoteIo {
        assert e.urbs[i + 1].continuation == e.urbs[first].continuation;
      }
    }
    forall i | first <= i < n
      ensures p(i) == Due(e.urbs, w'.k, i) && ZeroKind(w'.k, i) == !Due(e.urbs, w'.k, i)
    {
    }
    CountCong(first, n, p, Dues(e.urbs, w'.k));
    CountFull(first, n, (i: nat) => true);
    CountUnion(first, n, Dues(e.urbs, w'.k), ZeroKinds(w'.k), (i: nat) => true);
  }

  /** Exact counters stay exact, and are zero exactly when the last URB is back. */
  lemma ExactReap(w: World, m: nat, k: seq<KernelUrb>)
    requires |w.e.urbs| == |w.k| == |k| < U32 && w.next < m <= |k| && Exact(w, m)
    requires w.k[w.next].Done? && k == w.k[w.next := Reaped(w.k[w.next].out)]
    ensures var t := Tally(w.e, w.next, w.k[w.next].out.status);
            t.urbs == w.e.urbs && Exact(World(t, k, w.next + 1), m) &&
            (t.toCancel == 0 && t.toReap == 0 <==> w.next + 1 == m)
  {
    var urbs := w.e.urbs;
    var t := Tally(w.e, w.next, w.k[w.next].out.status);
    forall i | w.next < i < m
      ensures Due(urbs, k, i) == Due(urbs, w.k, i) && ZeroKind(k, i) == ZeroKind(w.k, i)
    {
    }
    CountCong(w.next + 1, m, Dues(urbs, w.k), Dues(urbs, k));
    CountCong(w.next + 1, m, ZeroKinds(w.k), ZeroKinds(k));
    CountNone(w.next + 1, m, Dues(urbs, k));
    CountNone(w.next + 1, m, ZeroKinds(k));
    assert Due(urbs, w.k, w.next) || ZeroKind(w.k, w.next);
    if w.next + 1 < m {
      assert Due(urbs, k, w.next + 1) || ZeroKind(k, w.next + 1);
      assert Dues(urbs, k)(w.next + 1) || ZeroKinds(k)(w.next + 1);
    }
  }

  lemma TameWindUp(w: World, m: nat, k: seq<KernelUrb>, t: Engine)
    requires Tame(w, m) && w.e.action != Normal && w.e.completions == [] && w.k[w.next].Done?
    requires k == w.k[w.next := Reaped(w.k[w.next].out)] && Ordered(World(t, k, w.next + 1), m)
    requires t.action == w.e.action && t.completions == [] && t.urbs == w.e.urbs && Exact(World(t, k, w.next + 1), m)
    requires t.toCancel == 0 && t.toReap == 0 <==> w.next + 1 == m
    ensures Tame(World(if w.next + 1 == m then Complete(t, FinalReply(t.action)) else t, k, w.next + 1), m)
  {
    assert forall i :: w.next < i < |k| ==> k[i] == w.k[i];
    ShortBeforeSame(w.k, k, w.next);
  }

  lemma TameReapWindingUp(w: World, m: nat)
    requires Tame(w, m) && Orderly(w, Reap) && w.e.action != Normal && w.e.completions == []
    ensures Tame(Step(w, Reap), m)
  {
    var out := w.k[w.next].out;
    var k := w.k[w.next := Reaped(out)];
    var e := Received(w.e, out);
    var t := Tally(e, w.next, out.status);
    ReapWindingUp(w);
    ExactReap(w.(e := e), m, k);
    OrderedReap(w, m, t);
    TameWindUp(w, m, k, t);
  }

  lemma {:induction false} TameRun(w: World, m: nat, evs: seq<Event>, w': World)
    requires Tame(w, m) && OrderlyRun(w, evs, w')
    ensures Tame(w', m) && |w'.k| == |w.k|
    decreases |evs|
  {
    if evs != [] {
      match evs[0] {
        case Finish(i, out) => TameFinish(w, i, out);
        case Discard(action) => TameDiscard(w, action);
        case Reap =>
          assert w.e.completions == [];
          if w.e.action == Normal { TameReapNormal(w); } else { TameReapWindingUp(w, m); }
      }
      StepKeeps(w, evs[0]);
      TameRun(Step(w, evs[0]), m, evs[1..], w');
    }
  }

  // ----- Main results -----

  /** A request the kernel took whole and has not begun to work on. */
  ghost predicate Submitted(w: World, length: nat, dirIn: bool, supported: bool) {
    Started(w, length, dirIn, supported) && forall i :: 0 <= i < |w.k| ==> w.k[i].InFlight?
  }

  lemma TameStart(w: World, length: nat, dirIn: bool, supported: bool)
    requires Submitted(w, length, dirIn, supported)
    ensures Tame(w, |w.k|)
  {
  }

  /** A request of which the kernel took the first `m` URBs: all of them and it has not begun to work on them, or not
      all and those finished before the next was refused had succeeded. */
  ghost predicate Begun(w: World, length: nat, dirIn: bool, supported: bool, m: nat, seen: seq<KernelUrb>) {
    (Submitted(w, length, dirIn, supported) && m == |w.k|) ||
    (StartedPartly(w, length, dirIn, supported, m, seen) && LosersSucceeded(seen, 0, m))
  }

  lemma TameRefused(w: World, length: nat, dirIn: bool, supported: bool, m: nat, seen: seq<KernelUrb>)
    requires StartedPartly(w, length, dirIn, supported, m, seen) && LosersSucceeded(seen, 0, m)
    ensures Tame(w, m)
  {
    var e := Prepared(length, dirIn, supported, m + 1);
    SoundStartPartly(w, length, dirIn, supported, m, seen);
    ChargeSum(e, seen, false, 0, m, SubmitFailed);
    ExactRefused(e, seen, m, w);
  }

  /** The counters after a refused submission. */
  lemma ExactRefused(e: Engine, seen: seq<KernelUrb>, m: nat, w: World)
    requires |e.urbs| == |seen| && 0 < m <= |seen| && m < U32 && e.toCancel == e.toReap == 0 && Holds(seen, m) &&
             LosersSucceeded(seen, 0, m)
    requires w == World(Charge(e, seen, false, 0, m, SubmitFailed), Discarded(e.urbs, seen, false, 0, m), 0)
    ensures Exact(w, m)
  {
    ChargeSum(e, seen, false, 0, m, SubmitFailed);
    forall i | 0 <= i < m
      ensures Due(w.e.urbs, w.k, i) == Expecting(e.urbs, seen, false)(i) && ZeroKind(w.k, i) == !Due(w.e.urbs, w.k, i)
    {
    }
    CountCong(0, m, Expecting(e.urbs, seen, false), Dues(w.e.urbs, w.k));
    CountFull(0, m, (i: nat) => true);
    CountUnion(0, m, Dues(w.e.urbs, w.k), ZeroKinds(w.k), (i: nat) => true);
  }

  lemma TameBegun(w: World, length: nat, dirIn: bool, supported: bool, m: nat, seen: seq<KernelUrb>)
    requires Begun(w, length, dirIn, supported, m, seen)
    ensures Tame(w, m)
  {
    if Submitted(w, length, dirIn, supported) && m == |w.k| {
      TameStart(w, length, dirIn, supported);
    } else {
      TameRefused(w, length, dirIn, supported, m, seen);
    }
  }

  /** At every moment of an orderly run at which a request is being wound up, for whatever reason, the counters add up
      to the URBs submitted and not yet reaped, and foresee how these come back. */
  lemma CountersExact(w: World, length: nat, dirIn: bool, supported: bool, m: nat, seen: seq<KernelUrb>,
                      evs: seq<Event>, w': World)
    requires Begun(w, length, dirIn, supported, m, seen) && OrderlyRun(w, evs, w')
    requires w'.e.action != Normal && w'.e.completions == []
    ensures |w'.e.urbs| == |w'.k| == |w.k| && w'.next < m <= |w.k| && Exact(w', m)
    ensures w'.e.toCancel + w'.e.toReap == m - w'.next
  {
    TameBegun(w, length, dirIn, supported, m, seen);
    TameRun(w, m, evs, w');
    CountFull(w'.next, m, (i: nat) => true);
    CountUnion(w'.next, m, Dues(w'.e.urbs, w'.k), ZeroKinds(w'.k), (i: nat) => true);
  }

  /** In an orderly run the request is complete if and only if the last URB submitted was reaped, and then it was
      completed once: successfully, unless it was cancelled or timed out or an URB had been refused. */
  lemma ExactlyOnce(w: World, length: nat, dirIn: bool, supported: bool, m: nat, seen: seq<KernelUrb>,
                    evs: seq<Event>, w': World)
    requires Begun(w, length, dirIn, supported, m, seen) && OrderlyRun(w, evs, w')
    ensures |w'.k| == |w.k|
    ensures w'.e.completions != [] <==> w'.next == m
    ensures w'.e.completions != [] ==>
              |w'.e.completions| == 1 &&
              w'.e.completions[0].reply == match w'.e.action
                                           case Normal => Success
                                           case CompletedEarly => Success
                                           case Canceled => IoCanceled
                                           case TimedOut => IoTimeout
                                           case _ => SysFuncFailure
    ensures m < |w.k| ==> w'.e.action == SubmitFailed
  {
    TameBegun(w, length, dirIn, supported, m, seen);
    TameRun(w, m, evs, w');
  }
}
