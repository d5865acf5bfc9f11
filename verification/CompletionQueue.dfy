/** The queue of completed asynchronous requests: back ends append to it, `openusb_wait` and
    `openusb_poll` take from it. Every step below runs under `complete_lock`. */
module CompletionQueue {
  import opened Lists

  /** A request handle; the queue holds one entry for each completed request. */
  type Request = nat

  function FirstMatch(list: seq<Request>, handles: seq<Request>): (i: Option<nat>)
    ensures i.Some? ==>
              i.value < |list| && list[i.value] in handles && forall j :: 0 <= j < i.value ==> list[j] !in handles
    ensures i.None? ==> forall j :: 0 <= j < |list| ==> list[j] !in handles
  {
    if list == [] then None
    else if list[0] in handles then Some(0)
    else match FirstMatch(list[1..], handles)
         case None => None
         case Some(i) => Some(i + 1)
  }

  /** The part of `struct usbi_handle` behind `complete_lock`, and what happened to it. */
  class Handle {
    var completeList: seq<Request>
    var completeCount: int
    ghost var completed: seq<Request>
    ghost var taken: seq<Request>
    ghost var failed: nat

    ghost function View(): Queue
      reads this
    {
      Queue(completeList, completeCount, completed, taken, failed)
    }

    constructor ()
      ensures View() == EMPTY
    {
      completeList, completeCount := [], 0;
      completed, taken, failed := [], [], 0;
    }

    /** usbi_io_complete for an asynchronous request. */
    method Complete(req: Request)
      modifies this
      ensures View() == Step(old(View()), Event.Complete(req))
    {
      completeList := completeList + [req];
      completeCount := completeCount + 1;
      completed := completed + [req];
    }

    /** The search shared by wait and poll: the first entry whose request is among the handles. */
    method Search(handles: seq<Request>) returns (found: bool, at: nat)
      ensures found == FirstMatch(completeList, handles).Some?
      ensures found ==> at == FirstMatch(completeList, handles).value
    {
      found, at := false, 0;
      while at < |completeList|
        invariant at <= |completeList|
        invariant forall j :: 0 <= j < at ==> completeList[j] !in handles
      {
        for i := 0 to |handles|
          invariant forall j :: 0 <= j < i ==> completeList[at] != handles[j]
        {
          if completeList[at] == handles[i] {
            return true, at;
          }
        }
        at := at + 1;
      }
    }

    /** One pass of openusb_wait after it was let through, that is with `completeCount` not 0. */
    method WaitScan(handles: seq<Request>) returns (r: Option<Request>)
      requires completeCount != 0
      modifies this
      ensures View() == Step(old(View()), Event.WaitScan(handles))
      ensures Takes(old(completeList), handles, r, completeList)
      ensures Conserved(old(View())) ==> Conserved(View()) && Delivers(r, completed, old(taken), taken)
    {
      ghost var before := View();
      var found, at := Search(handles);
      if found {
        r := Some(completeList[at]);
        taken := taken + [completeList[at]];
        completeList := Without(completeList, at);
        completeCount := completeCount - 1;
      } else {
        r := None;
        completeCount := completeCount - 1;
        failed := failed + 1;
      }
      if Conserved(before) {
        ConservedStep(before, Event.WaitScan(handles));
        DeliversNext(before, View(), r);
      }
    }

    /** openusb_poll. */
    method Poll(handles: seq<Request>) returns (r: Option<Request>)
      modifies this
      ensures View() == Step(old(View()), Event.Poll(handles))
      ensures Takes(old(completeList), handles, r, completeList)
      ensures Conserved(old(View())) ==> Conserved(View()) && Delivers(r, completed, old(taken), taken)
    {
      ghost var before := View();
      var found, at := Search(handles);
      if found {
        completeCount := completeCount - 1;
        r := Some(completeList[at]);
        taken := taken + [completeList[at]];
        completeList := Without(completeList, at);
      } else {
        r := None;
      }
      if Conserved(before) {
        ConservedStep(before, Event.Poll(handles));
        DeliversNext(before, View(), r);
      }
    }
  }

  /** What the caller gets from the list, which leaves `rest`: the first entry that is among its handles, and that is
      the only one to go; nothing if and only if there is none. */
  ghost predicate Takes(list: seq<Request>, handles: seq<Request>, r: Option<Request>, rest: seq<Request>) {
    match r
    case None => rest == list && forall req :: req in list ==> req !in handles
    case Some(req) =>
      req in handles &&
      exists i :: 0 <= i < |list| && list[i] == req && rest == list[..i] + list[i + 1..] && Unmatched(list, i, handles)
  }

  /** What the caller gets was completed and never handed out before, and is recorded as handed out now. */
  ghost predicate Delivers(r: Option<Request>, completed: seq<Request>, before: seq<Request>, taken: seq<Request>) {
    match r
    case None => taken == before
    case Some(req) => req in completed && req !in before && taken == before + [req]
  }

  lemma DeliversNext(q: Queue, q': Queue, r: Option<Request>)
    requires Conserved(q) && q'.completed == q.completed
    requires if r.None? then q'.taken == q.taken else r.value in q.list && q'.taken == q.taken + [r.value]
    ensures Delivers(r, q'.completed, q.taken, q'.taken)
  {
    if r.Some? {
      LeftMember(q.completed, q.taken, r.value);
    }
  }

  // ----- Runs -----

  /** The queue with its history: what was completed and taken, in order, and the wait scans that found nothing. */
  datatype Queue = Queue(list: seq<Request>, count: int, completed: seq<Request>, taken: seq<Request>, failed: nat)

  const EMPTY := Queue([], 0, [], [], 0)

  datatype Event = Complete(req: Request) | WaitScan(handles: seq<Request>) | Poll(handles: seq<Request>)

  /** A back end completes each request once; a waiter only scans when the count lets it through. */
  predicate Enabled(q: Queue, ev: Event) {
    (ev.Complete? ==> ev.req !in q.completed) && (ev.WaitScan? ==> q.count != 0)
  }

  function Step(q: Queue, ev: Event): Queue {
    match ev
    case Complete(req) => q.(list := q.list + [req], count := q.count + 1, completed := q.completed + [req])
    case WaitScan(handles) =>
      (match FirstMatch(q.list, handles)
       case Some(i) => q.(list := Without(q.list, i), count := q.count - 1, taken := q.taken + [q.list[i]])
       case None => q.(count := q.count - 1, failed := q.failed + 1))
    case Poll(handles) =>
      match FirstMatch(q.list, handles)
      case Some(i) => q.(list := Without(q.list, i), count := q.count - 1, taken := q.taken + [q.list[i]])
      case None => q
  }

  ghost predicate Run(q: Queue, evs: seq<Event>, q': Queue)
    decreases |evs|
  {
    if evs == [] then q == q' else Enabled(q, evs[0]) && Run(Step(q, evs[0]), evs[1..], q')
  }

  /** The completed requests that were not taken, in completion order. */
  function Left(completed: seq<Request>, taken: seq<Request>): seq<Request> {
    if completed == [] then []
    else
      var last := completed[|completed| - 1];
      Left(completed[..|completed| - 1], taken) + if last in taken then [] else [last]
  }

  ghost predicate Conserved(q: Queue) {
    |q.list| - q.count == q.failed && Distinct(q.completed) && Distinct(q.taken) &&
    (forall r :: r in q.taken ==> r in q.completed) && q.list == Left(q.completed, q.taken)
  }

  lemma {:induction false} LeftMember(completed: seq<Request>, taken: seq<Request>, r: Request)
    ensures r in Left(completed, taken) <==> r in completed && r !in taken
  {
    if completed != [] {
      LeftMember(completed[..|completed| - 1], taken, r);
      assert completed == completed[..|completed| - 1] + [completed[|completed| - 1]];
    }
  }

  lemma {:induction false} LeftDistinct(completed: seq<Request>, taken: seq<Request>)
    requires Distinct(completed)
    ensures Distinct(Left(completed, taken))
  {
    if completed != [] {
      var init := completed[..|completed| - 1];
      LeftDistinct(init, taken);
      LeftMember(init, taken, completed[|completed| - 1]);
    }
  }

  /** Taking one more request removes just that one. */
  lemma {:induction false} LeftTaken(completed: seq<Request>, taken: seq<Request>, i: nat)
    requires Distinct(completed) && i < |Left(completed, taken)|
    ensures Left(completed, taken + [Left(completed, taken)[i]]) == Without(Left(completed, taken), i)
  {
    var init, last := completed[..|completed| - 1], completed[|completed| - 1];
    var before, r := Left(init, taken), Left(completed, taken)[i];
    LeftDistinct(completed, taken);
    LeftMember(init, taken, last);
    LeftMember(completed, taken, r);
    if i < |before| {
      LeftTaken(init, taken, i);
      LeftMember(init, taken, r);
    } else {
      assert r == last;
      LeftUnaffected(init, taken, r);
    }
  }

  lemma {:induction false} LeftUnaffected(completed: seq<Request>, taken: seq<Request>, r: Request)
    requires r !in completed
    ensures Left(completed, taken + [r]) == Left(completed, taken)
  {
    if completed != [] {
      LeftUnaffected(completed[..|completed| - 1], taken, r);
    }
  }

  lemma ConservedTake(q: Queue, i: nat, count: int)
    requires Conserved(q) && i < |q.list| && count == q.count - 1
    ensures Conserved(q.(list := Without(q.list, i), count := count, taken := q.taken + [q.list[i]]))
  {
    LeftTaken(q.completed, q.taken, i);
    LeftMember(q.completed, q.taken, q.list[i]);
  }

  lemma ConservedStep(q: Queue, ev: Event)
    requires Conserved(q) && Enabled(q, ev)
    ensures Conserved(Step(q, ev))
  {
    match ev {
      case Complete(req) =>
        assert (q.completed + [req])[..|q.completed|] == q.completed;
      case WaitScan(handles) =>
        var m := FirstMatch(q.list, handles);
        if m.Some? { ConservedTake(q, m.value, q.count - 1); }
      case Poll(handles) =>
        var m := FirstMatch(q.list, handles);
        if m.Some? { ConservedTake(q, m.value, q.count - 1); }
    }
  }

  /** Over every run of completions, waits and polls no request is lost or delivered twice: the list
      holds what was completed and not taken, in completion order, and its length exceeds the count by
      the number of wait scans that found nothing. */
  lemma {:induction false} Conservation(q: Queue, evs: seq<Event>, q': Queue)
    requires Conserved(q) && Run(q, evs, q')
    ensures Conserved(q')
    decreases |evs|
  {
    if evs != [] {
      ConservedStep(q, evs[0]);
      Conservation(Step(q, evs[0]), evs[1..], q');
    }
  }

  /** A wait or poll that succeeds takes the earliest completed request among its handles that was not taken before. */
  lemma TakesEarliest(q: Queue, handles: seq<Request>, i: nat)
    requires Conserved(q) && FirstMatch(q.list, handles) == Some(i)
    ensures q.list[i] in handles && q.list[i] in q.completed && q.list[i] !in q.taken
    ensures forall a, b :: 0 <= a < b < |q.completed| && q.completed[b] == q.list[i] && q.completed[a] !in q.taken ==>
              q.completed[a] !in handles
  {
    LeftMember(q.completed, q.taken, q.list[i]);
    forall a, b | 0 <= a < b < |q.completed| && q.completed[b] == q.list[i] && q.completed[a] !in q.taken
      ensures q.completed[a] !in handles
    {
      var j, k := LeftOrder(q.completed, q.taken, a, b);
      LeftDistinct(q.completed, q.taken);
      assert k == i;
    }
  }

  lemma {:induction false} LeftOrder(completed: seq<Request>, taken: seq<Request>, a: nat, b: nat)
    returns (j: nat, k: nat)
    requires a < b < |completed| && completed[a] !in taken && completed[b] !in taken
    ensures j < k < |Left(completed, taken)|
    ensures Left(completed, taken)[j] == completed[a] && Left(completed, taken)[k] == completed[b]
  {
    var init := completed[..|completed| - 1];
    if b < |init| {
      j, k := LeftOrder(init, taken, a, b);
    } else {
      LeftMember(init, taken, completed[a]);
      assert init[a] == completed[a];
      j :| 0 <= j < |Left(init, taken)| && Left(init, taken)[j] == completed[a];
      k := |Left(init, taken)|;
    }
  }

  // ----- One waiter -----

  /** The thread in openusb_wait; `scanned` says whether it has scanned the list in this call. */
  datatype Waiter = Away | In(handles: seq<Request>, scanned: bool)

  datatype World = World(q: Queue, waiter: Waiter)

  datatype Act = Finish(req: Request) | Call(handles: seq<Request>) | Scan

  predicate Can(w: World, act: Act) {
    match act
    case Finish(req) => req !in w.q.completed
    case Call(_) => w.waiter.Away?
    case Scan => w.waiter.In? && w.q.count != 0
  }

  function Do(w: World, act: Act): World
    requires Can(w, act)
  {
    match act
    case Finish(req) => w.(q := Step(w.q, Complete(req)))
    case Call(handles) => w.(waiter := In(handles, false))
    case Scan =>
      World(Step(w.q, WaitScan(w.waiter.handles)),
            if FirstMatch(w.q.list, w.waiter.handles).Some? then Away else w.waiter.(scanned := true))
  }

  ghost predicate Acts(w: World, acts: seq<Act>, w': World)
    decreases |acts|
  {
    if acts == [] then w == w' else Can(w, acts[0]) && Acts(Do(w, acts[0]), acts[1..], w')
  }

  /** What a call has scanned in vain is still there unmatched, and the count covers what came since. */
  ghost predicate Caught(w: World) {
    0 <= w.q.count &&
    (w.waiter.In? && w.waiter.scanned ==>
      exists n :: 0 <= n <= |w.q.list| && |w.q.list| - n <= w.q.count && Unmatched(w.q.list, n, w.waiter.handles))
  }

  predicate Unmatched(list: seq<Request>, n: nat, handles: seq<Request>)
    requires n <= |list|
  {
    forall i :: 0 <= i < n ==> list[i] !in handles
  }

  lemma CaughtDo(w: World, act: Act)
    requires Caught(w) && Can(w, act)
    ensures Caught(Do(w, act))
  {
    var w' := Do(w, act);
    match act {
      case Finish(req) =>
        if w.waiter.In? && w.waiter.scanned {
          var n :| 0 <= n <= |w.q.list| && |w.q.list| - n <= w.q.count && Unmatched(w.q.list, n, w.waiter.handles);
          assert Unmatched(w'.q.list, n, w.waiter.handles);
        }
      case Call(handles) =>
      case Scan =>
        if w'.waiter.In? {
          assert Unmatched(w'.q.list, |w'.q.list|, w'.waiter.handles);
        }
    }
  }

  /** With one waiter and no poll, a call that blocks after it has scanned the list has no request of
      its own on it. */
  lemma {:induction false} BlocksOnlyUnmatched(w: World, acts: seq<Act>, w': World)
    requires Caught(w) && Acts(w, acts, w')
    ensures Caught(w')
    ensures w'.waiter.In? && w'.waiter.scanned && w'.q.count == 0 ==> FirstMatch(w'.q.list, w'.waiter.handles).None?
    decreases |acts|
  {
    if acts != [] {
      CaughtDo(w, acts[0]);
      BlocksOnlyUnmatched(Do(w, acts[0]), acts[1..], w');
    } else if w.waiter.In? && w.waiter.scanned && w.q.count == 0 {
      var n :| 0 <= n <= |w.q.list| && |w.q.list| - n <= w.q.count && Unmatched(w.q.list, n, w.waiter.handles);
      assert n == |w.q.list|;
    }
  }

  /** The call has not scanned yet and blocks although the list holds a request of its own. */
  ghost predicate Missed(w: World) {
    w.waiter.In? && !w.waiter.scanned && w.q.count == 0 && FirstMatch(w.q.list, w.waiter.handles).Some?
  }

  /** A run in which no scan finds nothing. */
  ghost predicate CleanActs(w: World, acts: seq<Act>, w': World)
    decreases |acts|
  {
    if acts == [] then w == w'
    else
      Can(w, acts[0]) && (acts[0].Scan? ==> FirstMatch(w.q.list, w.waiter.handles).Some?) &&
      CleanActs(Do(w, acts[0]), acts[1..], w')
  }

  lemma {:induction false} CleanKeeps(w: World, acts: seq<Act>, w': World)
    requires CleanActs(w, acts, w')
    ensures |w'.q.list| - w'.q.count == |w.q.list| - w.q.count
    decreases |acts|
  {
    if acts != [] {
      CleanKeeps(Do(w, acts[0]), acts[1..], w');
    }
  }

  /** Takes requests until the count is 0, then waits for one that is left. */
  lemma {:induction false} DrainToMiss(w: World) returns (acts: seq<Act>, w': World)
    requires w.waiter.Away? && 0 <= w.q.count < |w.q.list|
    ensures CleanActs(w, acts, w') && Missed(w')
    decreases w.q.count
  {
    var first := w.q.list[0];
    var called := Do(w, Call([first]));
    assert FirstMatch(w.q.list, [first]) == Some(0);
    if w.q.count == 0 {
      acts, w' := [Call([first])], called;
      assert CleanActs(called, acts[1..], w');
    } else {
      var taken := Do(called, Scan);
      var rest;
      rest, w' := DrainToMiss(taken);
      acts := [Call([first]), Scan] + rest;
      assert acts[1..] == [Scan] + rest && acts[1..][1..] == rest;
      assert CleanActs(called, acts[1..], w');
    }
  }

  /** Some call to come blocks over a request of its own, although no scan finds nothing any more. */
  ghost predicate CanMiss(w: World) {
    exists acts, w' :: CleanActs(w, acts, w') && Missed(w')
  }

  lemma CanMissOnlyIf(w: World)
    requires CanMiss(w)
    ensures w.q.count < |w.q.list|
  {
    var acts, w' :| CleanActs(w, acts, w') && Missed(w');
    CleanKeeps(w, acts, w');
  }

  /** Between calls, with the count not negative: some call to come may block over a request of its own, although from
      now on no scan finds nothing, if and only if the count is below the length of the list, that is, if some scan
      has found nothing. */
  lemma MissesIff(w: World)
    requires w.waiter.Away? && 0 <= w.q.count && Conserved(w.q)
    ensures CanMiss(w) <==> w.q.count < |w.q.list|
    ensures w.q.count < |w.q.list| <==> w.q.failed > 0
  {
    if CanMiss(w) {
      CanMissOnlyIf(w);
    }
    if w.q.count < |w.q.list| {
      var acts, w' := DrainToMiss(w);
    }
  }

  /** Waits whose handles name all that is on the list whenever they scan. */
  ghost predicate NamingActs(w: World, acts: seq<Act>, w': World)
    decreases |acts|
  {
    if acts == [] then w == w'
    else
      Can(w, acts[0]) && (acts[0].Scan? ==> forall r :: r in w.q.list ==> r in w.waiter.handles) &&
      NamingActs(Do(w, acts[0]), acts[1..], w')
  }

  /** They never find nothing, and never block while a request is on the list. */
  lemma {:induction false} NamingAllMissesNone(w: World, acts: seq<Act>, w': World)
    requires w.q.count == |w.q.list| && NamingActs(w, acts, w')
    ensures w'.q.count == |w'.q.list| && !Missed(w') && w'.q.failed == w.q.failed
    decreases |acts|
  {
    if acts != [] {
      if acts[0].Scan? {
        assert w.q.list[0] in w.waiter.handles;
      }
      NamingAllMissesNone(Do(w, acts[0]), acts[1..], w');
    }
  }

  /** And scans do find nothing: a request that completed while another was waited for is missed by the next wait for
      it. */
  lemma LostWakeup() returns (acts: seq<Act>, w': World)
    ensures Acts(World(EMPTY, Away), acts, w') && w'.waiter == In([1], false)
    ensures w'.q.list == [1] && !Can(w', Scan)
  {
    var w0 := World(EMPTY, Away);
    var w1 := Do(w0, Finish(1));
    var w2 := Do(w1, Call([2]));
    var w3 := Do(w2, Scan);
    var w4 := Do(w3, Finish(2));
    assert w4.q.list == [1, 2];
    assert FirstMatch([1, 2], [2]) == Some(1) by { assert [1, 2][1..] == [2]; }
    var w5 := Do(w4, Scan);
    w' := Do(w5, Call([1]));
    acts := [Finish(1), Call([2]), Scan, Finish(2), Scan, Call([1])];
    assert Acts(w5, [Call([1])], w');
    assert Acts(w4, [Scan, Call([1])], w') by { assert [Scan, Call([1])][1..] == [Call([1])]; }
    assert Acts(w3, acts[3..], w') by { assert acts[3..][1..] == [Scan, Call([1])]; }
    assert Acts(w2, acts[2..], w') by { assert acts[2..][1..] == acts[3..]; }
    assert Acts(w1, acts[1..], w') by { assert acts[1..][1..] == acts[2..]; }
  }

  // ----- Polls -----

  /** A run of completions, waits and polls in which no wait scan finds nothing. */
  ghost predicate CleanRun(q: Queue, evs: seq<Event>, q': Queue)
    decreases |evs|
  {
    if evs == [] then q == q'
    else
      Enabled(q, evs[0]) && (evs[0].WaitScan? ==> FirstMatch(q.list, evs[0].handles).Some?) &&
        CleanRun(Step(q, evs[0]), evs[1..], q')
  }

  lemma {:induction false} CleanRunKeeps(q: Queue, evs: seq<Event>, q': Queue)
    requires CleanRun(q, evs, q')
    ensures |q'.list| - q'.count == |q.list| - q.count
    decreases |evs|
  {
    if evs != [] {
      CleanRunKeeps(Step(q, evs[0]), evs[1..], q');
    }
  }

  /** Polls everything that is on the list. */
  lemma {:induction false} PollAll(q: Queue) returns (evs: seq<Event>, q': Queue)
    ensures CleanRun(q, evs, q') && q'.list == [] && q'.count == q.count - |q.list|
    decreases |q.list|
  {
    if q.list == [] {
      evs, q' := [], q;
    } else {
      var ev := Poll([q.list[0]]);
      assert FirstMatch(q.list, [q.list[0]]) == Some(0);
      var rest;
      rest, q' := PollAll(Step(q, ev));
      evs := [ev] + rest;
      assert evs[1..] == rest;
    }
  }

  /** The count can still become negative, although no scan finds nothing any more. */
  ghost predicate CanGoNegative(q: Queue) {
    exists evs, q' :: CleanRun(q, evs, q') && q'.count < 0
  }

  lemma CanGoNegativeOnlyIf(q: Queue)
    requires CanGoNegative(q)
    ensures q.count < |q.list|
  {
    var evs, q' :| CleanRun(q, evs, q') && q'.count < 0;
    CleanRunKeeps(q, evs, q');
  }

  /** From a count that is not negative polls may drive it below zero, although no scan finds nothing any more, if and
      only if it is below the length of the list, that is, if some scan has found nothing. */
  lemma NegativeIff(q: Queue)
    requires Conserved(q) && 0 <= q.count
    ensures CanGoNegative(q) <==> q.count < |q.list|
    ensures q.count < |q.list| <==> q.failed > 0
  {
    if CanGoNegative(q) {
      CanGoNegativeOnlyIf(q);
    }
    if q.count < |q.list| {
      var evs, q' := PollAll(q);
    }
  }

  /** With polls the count can fall below zero, and then a waiter no longer blocks on an empty list. */
  lemma PollDrivesCountNegative() returns (evs: seq<Event>, q': Queue)
    ensures Run(EMPTY, evs, q') && q'.list == [] && q'.count == -1 && Enabled(q', WaitScan([2]))
  {
    var q1 := Step(EMPTY, Complete(1));
    var q2 := Step(q1, WaitScan([2]));
    q' := Step(q2, Poll([1]));
    evs := [Complete(1), WaitScan([2]), Poll([1])];
    assert Run(q2, [Poll([1])], q');
    assert Run(q1, evs[1..], q') by { assert evs[1..][1..] == [Poll([1])]; }
  }
}
