/** Runs of one bulk or interrupt request: the kernel finishes URBs, the io thread reaps them in
    submission order, and timeouts and cancels discard them. Every step is atomic under the
    device lock; an URB that finishes in the middle of a discard loop has finished before it. */
module BulkRuns {
  import opened Counting
  import opened BulkEngine

  /** A request together with its URBs in the kernel; the first `next` were reaped. */
  datatype World = World(e: Engine, k: seq<KernelUrb>, next: nat)

  datatype Event =
    | Finish(i: nat, out: Outcome)
    | Reap
    | Discard(action: Action)

  predicate Enabled(w: World, ev: Event) {
    |w.e.urbs| == |w.k| &&
    match ev
    case Finish(i, out) => i < |w.k| && w.k[i].InFlight? && out.actual <= w.e.urbs[i].length
    case Reap => w.next < |w.k| && w.k[w.next].Done?
    case Discard(action) => (action == Canceled || action == TimedOut) && w.e.completions == []
  }

  function Step(w: World, ev: Event): World
    requires Enabled(w, ev)
  {
    match ev
    case Finish(i, out) => w.(k := w.k[i := Done(out)])
    case Reap =>
      var out := w.k[w.next].out;
      var (e, k) := Handle(w.e, w.k[w.next := Reaped(out)], w.next, out);
      World(e, k, w.next + 1)
    case Discard(action) =>
      World(Charge(w.e, w.k, false, 0, |w.k|, action), Discarded(w.e.urbs, w.k, false, 0, |w.k|), w.next)
  }

  ghost predicate Run(w: World, evs: seq<Event>, w': World)
    decreases |evs|
  {
    if evs == [] then w == w' else Enabled(w, evs[0]) && Run(Step(w, evs[0]), evs[1..], w')
  }

  /** A request all of whose URBs the kernel took. */
  ghost predicate Started(w: World, length: nat, dirIn: bool, supported: bool) {
    0 < length < U32 &&
    w.e == Prepared(length, dirIn, supported, NumUrbs(length)) &&
    |w.k| == NumUrbs(length) && Holds(w.k, |w.k|) && w.next == 0
  }

  /** A request of which the kernel took only the first `accepted` URBs; `seen` is the kernel at the refusal. */
  ghost predicate StartedPartly(w: World, length: nat, dirIn: bool, supported: bool, accepted: nat,
                                seen: seq<KernelUrb>) {
    0 < length < U32 && 0 < accepted < NumUrbs(length) == |seen| &&
    Holds(seen, accepted) && (w.e, w.k) == Refused(length, dirIn, supported, accepted, seen) && w.next == 0
  }

  // ----- Safety: what every run keeps, whatever the kernel answers -----

  predicate Back(u: KernelUrb) {
    u.Done? || u.Reaped?
  }

  /** No URB is still with the device. */
  ghost predicate Quiet(k: seq<KernelUrb>) {
    forall i :: 0 <= i < |k| ==> !k[i].InFlight?
  }

  ghost predicate Uniform(urbs: seq<Urb>) {
    forall i, j :: 1 <= i < |urbs| && 1 <= j < |urbs| ==> urbs[i].continuation == urbs[j].continuation
  }

  /** `m` URBs were submitted; reaping followed their order. */
  ghost predicate InOrder(w: World, m: nat) {
    |w.e.urbs| == |w.k| && w.next <= m <= |w.k| &&
    forall i :: 0 <= i < |w.k| ==>
      if i < w.next then w.k[i].Reaped? else if i < m then w.k[i].InFlight? || w.k[i].Done? else w.k[i].Idle?
  }

  /** The counters of a request being wound up cover the URBs still out. `credit` bounds what was ever charged. */
  ghost predicate Covered(w: World, m: nat, credit: nat)
    requires w.next <= m
  {
    var c, r, left := w.e.toCancel, w.e.toReap, m - w.next;
    c + r >= left && r <= credit &&
    (Quiet(w.k) || c >= left) &&
    (c <= credit || (Quiet(w.k) && c >= U32 - w.next))
  }

  ghost predicate Sound(w: World, m: nat, credit: nat) {
    InOrder(w, m) && |w.k| <= credit < U32 && w.e.toCancel < U32 && w.e.toReap < U32 &&
    (w.e.freed <==> w.e.completions != []) &&
    match w.e.action
    case Normal =>
      m == |w.k| && Uniform(w.e.urbs) && w.e.toCancel == w.e.toReap == 0 &&
      if w.next < m then w.e.completions == [] else |w.e.completions| == 1
    case Stall => |w.e.completions| == 1
    case _ =>
      |w.e.completions| <= 1 && if w.e.completions == [] then Covered(w, m, credit) else w.next == m
  }

  lemma SoundFinish(w: World, m: nat, credit: nat, i: nat, out: Outcome)
    requires Sound(w, m, credit) && Enabled(w, Finish(i, out))
    ensures Sound(Step(w, Finish(i, out)), m, credit)
  {
  }

  lemma ChargeSum(e: Engine, k: seq<KernelUrb>, trustKernel: bool, from: nat, to: nat, action: Action)
    requires |e.urbs| == |k| && from <= to
    requires e.toCancel == e.toReap == 0 && to - from < U32
    ensures var d := Charge(e, k, trustKernel, from, to, action);
            d.toCancel + d.toReap == to - from
  {
  }

  /** Leaving NORMAL through the loop over the URBs behind `i`. */
  lemma SoundPartial(e: Engine, k: seq<KernelUrb>, i: nat, action: Action, credit: nat)
    requires |e.urbs| == |k| && i < |k| <= credit < U32 && Uniform(e.urbs)
    requires e.toCancel == e.toReap == 0
    requires forall j :: 0 <= j < |k| ==> if j <= i then k[j].Reaped? else k[j].InFlight? || k[j].Done?
    ensures var w := World(Charge(e, k, true, i + 1, |k|, action), Discarded(e.urbs, k, true, i + 1, |k|), i + 1);
            InOrder(w, |k|) && Covered(w, |k|, credit) && w.e.toCancel < U32 && w.e.toReap < U32
  {
    var p := Expecting(e.urbs, k, true);
    var w := World(Charge(e, k, true, i + 1, |k|, action), Discarded(e.urbs, k, true, i + 1, |k|), i + 1);
    assert w.e.toCancel == Count(i + 1, |k|, p);
    if i + 1 < |k| && e.urbs[i + 1].continuation {
      CountFull(i + 1, |k|, p);
    }
  }

  lemma InOrderReap(w: World, m: nat, e: Engine)
    requires InOrder(w, m) && Enabled(w, Reap) && |e.urbs| == |w.k|
    ensures var w' := World(e, w.k[w.next := Reaped(w.k[w.next].out)], w.next + 1);
            InOrder(w', m) && (Quiet(w.k) ==> Quiet(w'.k))
  {
  }

  /** Why a request leaves NORMAL, if it does, when an URB comes back with `out`. */
  function Leaving(w: World, out: Outcome): (a: Action)
    requires w.next < |w.e.urbs|
  {
    match out.status
    case BrokenPipe => Stall
    case NoEntry => UnknownFailure
    case ConnReset => UnknownFailure
    case OtherError => UnknownFailure
    case _ =>
      if w.next < |w.e.urbs| - 1 && out.actual < w.e.urbs[w.next].length then CompletedEarly else Normal
  }

  /** In NORMAL a reap goes on, completes the request with its last URB, or starts winding it up. */
  lemma ReapNormal(w: World)
    requires Enabled(w, Reap) && w.e.action == Normal
    ensures var out := w.k[w.next].out;
            var e := Received(w.e, out);
            var k := w.k[w.next := Reaped(out)];
            var action := Leaving(w, out);
            Step(w, Reap) ==
              if action == Normal then World(if w.next == |k| - 1 then Complete(e, Success) else e, k, w.next + 1)
              else var charged := Charge(e, k, true, w.next + 1, |k|, action);
                   World(if action == Stall then Complete(charged, IoStall) else charged,
                         Discarded(e.urbs, k, true, w.next + 1, |k|), w.next + 1)
  {
  }

  lemma SoundReceived(w: World, m: nat, credit: nat, out: Outcome)
    requires Sound(w, m, credit)
    ensures Sound(w.(e := Received(w.e, out)), m, credit)
  {
  }

  lemma SoundLeave(e: Engine, k: seq<KernelUrb>, i: nat, action: Action, credit: nat)
    requires |e.urbs| == |k| && i < |k| <= credit < U32 && Uniform(e.urbs) && action != Normal
    requires e.toCancel == e.toReap == 0 && e.completions == [] && !e.freed
    requires forall j :: 0 <= j < |k| ==> if j <= i then k[j].Reaped? else k[j].InFlight? || k[j].Done?
    ensures var charged := Charge(e, k, true, i + 1, |k|, action);
            Sound(World(if action == Stall then Complete(charged, IoStall) else charged,
                        Discarded(e.urbs, k, true, i + 1, |k|), i + 1), |k|, credit)
  {
    SoundPartial(e, k, i, action, credit);
  }

  lemma {:induction false} SoundReapNormal(w: World, m: nat, credit: nat)
    requires Sound(w, m, credit) && Enabled(w, Reap) && w.e.action == Normal
    ensures Sound(Step(w, Reap), m, credit)
  {
    var out := w.k[w.next].out;
    ReapNormal(w);
    InOrderReap(w, m, Received(w.e, out));
    SoundReceived(w, m, credit, out);
    if Leaving(w, out) != Normal {
      SoundLeave(Received(w.e, out), w.k[w.next := Reaped(out)], w.next, Leaving(w, out), credit);
    }
  }

  lemma CoveredTally(w: World, m: nat, credit: nat, k: seq<KernelUrb>, status: Status)
    requires w.next < m <= |w.e.urbs| <= credit < U32 && w.e.toCancel < U32 && w.e.toReap < U32
    requires Covered(w, m, credit) && (Quiet(w.k) ==> Quiet(k))
    ensures var t := Tally(w.e, w.next, status);
            Covered(World(t, k, w.next + 1), m, credit) && t.toCancel < U32 && t.toReap < U32
  {
  }

  /** Past NORMAL, a reap only updates the counters and perhaps completes the request. */
  lemma ReapWindingUp(w: World)
    requires Enabled(w, Reap) && w.e.action != Normal
    ensures var out := w.k[w.next].out;
            Step(w, Reap) ==
              World(WindUp(Received(w.e, out), w.next, out.status), w.k[w.next := Reaped(out)], w.next + 1)
  {
  }

  lemma SoundWindUp(w: World, m: nat, credit: nat, k: seq<KernelUrb>, status: Status)
    requires Sound(w, m, credit) && w.e.action != Normal && w.next < m
    requires |k| == |w.k| && InOrder(World(w.e, k, w.next + 1), m) && (Quiet(w.k) ==> Quiet(k))
    ensures Sound(World(WindUp(w.e, w.next, status), k, w.next + 1), m, credit)
  {
    if w.e.action != Stall {
      CoveredTally(w, m, credit, k, status);
    }
  }

  lemma SoundReapWindingUp(w: World, m: nat, credit: nat)
    requires Sound(w, m, credit) && Enabled(w, Reap) && w.e.action != Normal
    ensures Sound(Step(w, Reap), m, credit)
  {
    var out := w.k[w.next].out;
    ReapWindingUp(w);
    InOrderReap(w, m, Received(w.e, out));
    SoundReceived(w, m, credit, out);
    SoundWindUp(w.(e := Received(w.e, out)), m, credit, w.k[w.next := Reaped(out)], out.status);
  }

  lemma InOrderDiscard(w: World, m: nat, action: Action)
    requires InOrder(w, m) && Enabled(w, Discard(action))
    ensures InOrder(Step(w, Discard(action)), m) && Quiet(Step(w, Discard(action)).k)
  {
  }

  /** A discard charges every URB of the request, reaped or not; the counters do not wrap around. */
  lemma DiscardAdds(w: World, m: nat, credit: nat, action: Action)
    requires Sound(w, m, credit) && Enabled(w, Discard(action)) && credit + |w.k| < U32
    ensures var n, e := |w.k|, Step(w, Discard(action)).e;
            var c := Count(0, n, Expecting(w.e.urbs, w.k, false));
            c <= n && e.toCancel == w.e.toCancel + c && e.toReap == w.e.toReap + (n - c) && (Quiet(w.k) ==> c == 0)
  {
    CountNone(0, |w.k|, Expecting(w.e.urbs, w.k, false));
    assert w.e.toCancel <= credit || Quiet(w.k);
  }

  lemma SoundDiscard(w: World, m: nat, credit: nat, action: Action)
    requires Sound(w, m, credit) && Enabled(w, Discard(action)) && credit + |w.k| < U32
    ensures Sound(Step(w, Discard(action)), m, credit + |w.k|)
  {
    InOrderDiscard(w, m, action);
    DiscardAdds(w, m, credit, action);
  }

  /** `credit` after a run: each discard may charge every URB of the request once more. */
  function Credit(n: nat, credit: nat, evs: seq<Event>): (c: nat)
    ensures credit <= c
    decreases |evs|
  {
    if evs == [] then credit else Credit(n, if evs[0].Discard? then credit + n else credit, evs[1..])
  }

  lemma {:induction false} SoundRun(w: World, m: nat, credit: nat, evs: seq<Event>, w': World)
    requires Sound(w, m, credit) && Run(w, evs, w') && Credit(|w.k|, credit, evs) < U32
    ensures |w'.k| == |w.k| && Sound(w', m, Credit(|w.k|, credit, evs))
    decreases |evs|
  {
    if evs != [] {
      var ev, n := evs[0], |w.k|;
      SoundStep(w, m, credit, ev);
      SoundRun(Step(w, ev), m, if ev.Discard? then credit + n else credit, evs[1..], w');
    }
  }

  lemma SoundStep(w: World, m: nat, credit: nat, ev: Event)
    requires Sound(w, m, credit) && Enabled(w, ev) && (ev.Discard? ==> credit + |w.k| < U32)
    ensures |Step(w, ev).k| == |w.k| && Sound(Step(w, ev), m, if ev.Discard? then credit + |w.k| else credit)
  {
    match ev {
      case Finish(i, out) => SoundFinish(w, m, credit, i, out);
      case Reap => if w.e.action == Normal { SoundReapNormal(w, m, credit); } else { SoundReapWindingUp(w, m, credit); }
      case Discard(action) => SoundDiscard(w, m, credit, action);
    }
  }
}
