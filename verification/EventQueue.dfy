/** Hotplug events: device changes are fanned out to every library handle through a queue that one dispatcher
    thread drains, calling the application without holding the queue's lock. */
module EventQueue {
  import opened Lists

  datatype EventType = Attach | Remove

  /** `struct eventcallback`. */
  datatype Callback = Callback(handle: nat, devid: nat, event: EventType)

  /** The events of one device change, one for each handle in list order. */
  function FanOut(handles: seq<nat>, devid: nat, event: EventType): (cbs: seq<Callback>)
    ensures |cbs| == |handles|
  {
    seq(|handles|, i requires 0 <= i < |handles| => Callback(handles[i], devid, event))
  }

  // ----- Steps -----

  /** The dispatcher: at the top of its loop, or calling the application for `cb`; then `more` says
      whether the list element it goes on with is an event. */
  datatype Dispatcher = AtTop | Calling(cb: Callback, more: bool)

  /** The thread in usbi_add_device or usbi_remove_device: it has changed the device list, then it holds the
      lock of the handles and still has to add these events, one at a time. */
  datatype Notifier = Idle | Listed(devid: nat, event: EventType) | Sending(rest: seq<Callback>)

  /** The library and its history: events in the order they were added, and those whose call began. */
  datatype State = State(
    handles: seq<nat>,
    devices: seq<nat>,
    nextId: nat,
    notifier: Notifier,
    queue: seq<Callback>,
    full: int,
    dispatcher: Dispatcher,
    added: seq<Callback>,
    called: seq<Callback>)

  const INITIAL := State([], [], 1, Idle, [], 0, AtTop, [], [])

  /** What happens between two releases of a lock. */
  datatype Act =
    | Open(handle: nat)
    | Close(i: nat)
    | Plug
    | Unplug(i: nat)
    | Lock
    | Add
    | Unlock
    | Wake
    | Return

  predicate Can(s: State, act: Act) {
    match act
    case Open(handle) => handle !in s.handles && !s.notifier.Sending?
    case Close(i) => i < |s.handles| && !s.notifier.Sending?
    case Plug => s.notifier.Idle?
    case Unplug(i) => i < |s.devices| && s.notifier.Idle?
    case Lock => s.notifier.Listed?
    case Add => s.notifier.Sending? && s.notifier.rest != []
    case Unlock => s.notifier == Sending([])
    case Wake => s.dispatcher.AtTop? && s.full != 0
    case Return => s.dispatcher.Calling?
  }

  /** The dispatcher goes on with the first event, if there is one. */
  function Take(s: State): State {
    if s.queue == [] then s.(dispatcher := AtTop)
    else s.(queue := s.queue[1..], dispatcher := Calling(s.queue[0], |s.queue| > 1), called := s.called + [s.queue[0]])
  }

  function Enqueue(s: State, cb: Callback): State {
    s.(queue := s.queue + [cb], full := s.full + 1, added := s.added + [cb])
  }

  function Do(s: State, act: Act): State
    requires Can(s, act)
  {
    match act
    case Open(handle) => s.(handles := s.handles + [handle])
    case Close(i) => s.(handles := Without(s.handles, i))
    case Plug => s.(devices := s.devices + [s.nextId], nextId := s.nextId + 1, notifier := Listed(s.nextId, Attach))
    case Unplug(i) => s.(devices := Without(s.devices, i), notifier := Listed(s.devices[i], Remove))
    case Lock => s.(notifier := Sending(FanOut(s.handles, s.notifier.devid, s.notifier.event)))
    case Add => Enqueue(s.(notifier := Sending(s.notifier.rest[1..])), s.notifier.rest[0])
    case Unlock => s.(notifier := Idle)
    case Wake => Take(s)
    case Return =>
      var t := s.(full := s.full - 1);
      if s.dispatcher.more then Take(t) else t.(dispatcher := AtTop)
  }

  /** The threads in any interleaving. */
  ghost predicate Run(s: State, acts: seq<Act>, s': State)
    decreases |acts|
  {
    if acts == [] then s == s' else Can(s, acts[0]) && Run(Do(s, acts[0]), acts[1..], s')
  }

  lemma {:induction false} RunOn(s: State, a: seq<Act>, t: State, b: seq<Act>, u: State)
    requires Run(s, a, t) && Run(t, b, u)
    ensures Run(s, a + b, u)
    decreases |a|
  {
    if a == [] {
      assert a + b == b;
    } else {
      assert (a + b)[1..] == a[1..] + b;
      RunOn(Do(s, a[0]), a[1..], t, b, u);
    }
  }

  lemma RunOnce(s: State, acts: seq<Act>, t: State, act: Act)
    requires Run(s, acts, t) && Can(t, act)
    ensures Run(s, acts + [act], Do(t, act))
  {
    assert Run(Do(t, act), [act][1..], Do(t, act));
    RunOn(s, acts, t, [act], Do(t, act));
  }

  // ----- The code -----

  /** The device list, the handle list and the event queue; where its threads are; and what happened. */
  class Library {
    var handles: seq<nat>
    var devices: seq<nat>
    var curDeviceId: nat
    var events: seq<Callback>
    var callbackQueueFull: int
    var dispatcher: Dispatcher
    ghost var notifier: Notifier
    ghost var added: seq<Callback>
    ghost var called: seq<Callback>

    ghost function View(): State
      reads this
    {
      State(handles, devices, curDeviceId, notifier, events, callbackQueueFull, dispatcher, added, called)
    }

    constructor ()
      ensures View() == INITIAL
    {
      handles, devices, curDeviceId, events, callbackQueueFull, dispatcher := [], [], 1, [], 0, AtTop;
      notifier, added, called := Idle, [], [];
    }

    /** usbi_add_event_callback. */
    method AddEventCallback(handle: nat, devid: nat, event: EventType)
      requires Can(View(), Add) && notifier.rest[0] == Callback(handle, devid, event)
      modifies this
      ensures View() == Do(old(View()), Add)
    {
      events := events + [Callback(handle, devid, event)];
      callbackQueueFull := callbackQueueFull + 1;
      added := added + [Callback(handle, devid, event)];
      notifier := Sending(notifier.rest[1..]);
    }

    /** The loop over all handles in usbi_add_device and usbi_remove_device, under the lock of the handles. */
    method Notify(devid: nat, event: EventType) returns (ghost acts: seq<Act>)
      requires notifier == Listed(devid, event)
      modifies this
      ensures Run(old(View()), acts, View()) && notifier == Idle && acts == [Lock] + seq(|handles|, i => Add) + [Unlock]
      ensures handles == old(handles) && devices == old(devices) && curDeviceId == old(curDeviceId)
      ensures events == old(events) + FanOut(handles, devid, event) &&
              callbackQueueFull == old(callbackQueueFull) + |handles|
    {
      acts := [];
      ghost var all := FanOut(handles, devid, event);
      RunOnce(View(), acts, View(), Lock);
      notifier := Sending(all);
      acts := [Lock];
      for i := 0 to |handles|
        invariant handles == old(handles) && devices == old(devices) && curDeviceId == old(curDeviceId)
        invariant notifier == Sending(all[i..]) && Run(old(View()), acts, View()) && acts == [Lock] + seq(i, j => Add)
        invariant events == old(events) + all[..i] && callbackQueueFull == old(callbackQueueFull) + i
      {
        RunOnce(old(View()), acts, View(), Add);
        AddEventCallback(handles[i], devid, event);
        acts := acts + [Add];
      }
      RunOnce(old(View()), acts, View(), Unlock);
      notifier := Idle;
      acts := acts + [Unlock];
    }

    /** usbi_add_device. */
    method AddDevice() returns (devid: nat, ghost acts: seq<Act>)
      requires notifier == Idle
      modifies this
      ensures Run(old(View()), acts, View()) && notifier == Idle &&
              acts == [Plug, Lock] + seq(|handles|, i => Add) + [Unlock]
      ensures devid == old(curDeviceId) && curDeviceId == devid + 1
      ensures devices == old(devices) + [devid] && handles == old(handles)
      ensures events == old(events) + FanOut(handles, devid, Attach) &&
              callbackQueueFull == old(callbackQueueFull) + |handles|
    {
      devid := curDeviceId;
      RunOnce(View(), [], View(), Plug);
      curDeviceId := curDeviceId + 1;
      devices := devices + [devid];
      notifier := Listed(devid, Attach);
      ghost var listed := View();
      acts := Notify(devid, Attach);
      RunOn(old(View()), [Plug], listed, acts, View());
      acts := [Plug] + acts;
    }

    /** usbi_remove_device, for the device at position `i` of the list. */
    method RemoveDevice(i: nat) returns (ghost acts: seq<Act>)
      requires i < |devices| && notifier == Idle
      modifies this
      ensures Run(old(View()), acts, View()) && notifier == Idle &&
              acts == [Unplug(i), Lock] + seq(|handles|, i => Add) + [Unlock]
      ensures devices == Without(old(devices), i) && curDeviceId == old(curDeviceId) && handles == old(handles)
      ensures events == old(events) + FanOut(handles, old(devices)[i], Remove)
      ensures callbackQueueFull == old(callbackQueueFull) + |handles|
    {
      var devid := devices[i];
      RunOnce(View(), [], View(), Unplug(i));
      devices := Without(devices, i);
      notifier := Listed(devid, Remove);
      ghost var listed := View();
      acts := Notify(devid, Remove);
      RunOn(old(View()), [Unplug(i)], listed, acts, View());
      acts := [Unplug(i)] + acts;
    }

    /** process_event_callbacks from where it has the lock to the call: unlinks the first event, if there is one,
        and remembers whether an event follows it. */
    method TakeFirst()
      requires dispatcher.AtTop? || (dispatcher.Calling? && dispatcher.more)
      modifies this`events, this`dispatcher, this`called
      ensures View() == Take(old(View()))
    {
      if events == [] {
        dispatcher := AtTop;
      } else {
        var cb := events[0];
        dispatcher := Calling(cb, |events| > 1);
        called := called + [cb];
        events := events[1..];
      }
    }

    /** Let through at the top of the loop. */
    method WakeUp()
      requires Can(View(), Wake)
      modifies this`events, this`dispatcher, this`called
      ensures View() == Do(old(View()), Wake)
      ensures if old(events) == [] then dispatcher == AtTop
              else dispatcher == Calling(old(events)[0], |old(events)| > 1) && events == old(events)[1..]
    {
      TakeFirst();
    }

    /** Back from the call, with the lock again. */
    method Delivered()
      requires Can(View(), Return)
      modifies this`events, this`dispatcher, this`called, this`callbackQueueFull
      ensures View() == Do(old(View()), Return)
      ensures callbackQueueFull == old(callbackQueueFull) - 1
      ensures if old(dispatcher.more) && old(events) != []
              then dispatcher == Calling(old(events)[0], |old(events)| > 1) && events == old(events)[1..]
              else dispatcher == AtTop && events == old(events)
    {
      callbackQueueFull := callbackQueueFull - 1;
      if dispatcher.more {
        TakeFirst();
      } else {
        dispatcher := AtTop;
      }
    }
  }

  // ----- Over all runs -----

  /** The count covers the queue and the event being delivered; nothing is lost, doubled or reordered. */
  ghost predicate Sound(s: State) {
    s.full == |s.queue| + (if s.dispatcher.Calling? then 1 else 0) &&
    s.added == s.called + s.queue &&
    (s.dispatcher.Calling? ==> s.called != [] && s.called[|s.called| - 1] == s.dispatcher.cb &&
                               (s.dispatcher.more ==> s.queue != []))
  }

  lemma SoundDo(s: State, act: Act)
    requires Sound(s) && Can(s, act)
    ensures Sound(Do(s, act))
  {
    if act == Wake || act == Return {
      if s.queue != [] {
        assert s.called + s.queue == s.called + [s.queue[0]] + s.queue[1..];
      }
    }
  }

  /** At every release of the queue's lock, also between the events of one device change, the count is the length of the
      queue, plus one while a callback runs; events are delivered in the order they were added, each once; and the
      dispatcher never sleeps, nor goes to a list element that is not an event, while an event is queued. */
  lemma {:induction false} Fifo(s: State, acts: seq<Act>, s': State)
    requires Sound(s) && Run(s, acts, s')
    ensures Sound(s')
    ensures s'.dispatcher.AtTop? && !Can(s', Wake) ==> s'.queue == []
    decreases |acts|
  {
    if acts != [] {
      SoundDo(s, acts[0]);
      Fifo(Do(s, acts[0]), acts[1..], s');
    }
  }

  // ----- What one handle sees of one device -----

  function Seen(cbs: seq<Callback>, handle: nat, devid: nat): seq<EventType> {
    if cbs == [] then []
    else
      var last := cbs[|cbs| - 1];
      Seen(cbs[..|cbs| - 1], handle, devid) +
      if last.handle == handle && last.devid == devid then [last.event] else []
  }

  lemma {:induction false} SeenConcat(a: seq<Callback>, b: seq<Callback>, handle: nat, devid: nat)
    ensures Seen(a + b, handle, devid) == Seen(a, handle, devid) + Seen(b, handle, devid)
  {
    if b == [] {
      assert a + b == a;
    } else {
      SeenConcat(a, b[..|b| - 1], handle, devid);
      assert (a + b)[..|a + b| - 1] == a + b[..|b| - 1];
    }
  }

  lemma SeenSnoc(cbs: seq<Callback>, last: Callback, handle: nat, devid: nat)
    ensures Seen(cbs + [last], handle, devid) ==
            Seen(cbs, handle, devid) + if last.handle == handle && last.devid == devid then [last.event] else []
  {
    assert (cbs + [last])[..|cbs|] == cbs;
  }

  lemma FanOutSnoc(handles: seq<nat>, last: nat, d: nat, event: EventType)
    ensures FanOut(handles + [last], d, event) == FanOut(handles, d, event) + [Callback(last, d, event)]
  {
  }

  lemma {:induction false} SeenFanOut(handles: seq<nat>, d: nat, event: EventType, handle: nat, devid: nat)
    requires Distinct(handles)
    ensures Seen(FanOut(handles, d, event), handle, devid) == if d == devid && handle in handles then [event] else []
  {
    if handles != [] {
      var init, last := handles[..|handles| - 1], handles[|handles| - 1];
      assert handles == init + [last];
      SeenFanOut(init, d, event, handle, devid);
      FanOutSnoc(init, last, d, event);
      SeenSnoc(FanOut(init, d, event), Callback(last, d, event), handle, devid);
      LastApart(handles, init, last, handle);
    }
  }

  lemma LastApart(handles: seq<nat>, init: seq<nat>, last: nat, handle: nat)
    requires Distinct(handles) && handles == init + [last]
    ensures Distinct(init) && last !in init && (handle in handles <==> handle in init || handle == last)
  {
    assert forall i :: 0 <= i < |init| ==> init[i] == handles[i];
    assert last == handles[|init|];
  }

  /** What an open handle will still be told of a device by the change under way. */
  function Owed(n: Notifier, handle: nat, devid: nat): seq<EventType> {
    match n
    case Idle => []
    case Listed(d, event) => if d == devid then [event] else []
    case Sending(rest) => Seen(rest, handle, devid)
  }

  /** What has become of a device so far. */
  function Fate(s: State, devid: nat): seq<EventType> {
    if devid >= s.nextId then [] else if devid in s.devices then [Attach] else [Attach, Remove]
  }

  /** `handle` is open, and of each device that came after id `first` it was told, or is being told, exactly what
      happened. */
  ghost predicate Told(s: State, handle: nat, first: nat) {
    handle in s.handles && Distinct(s.handles) && Distinct(s.devices) && first <= s.nextId &&
    (forall d :: d in s.devices ==> d < s.nextId) &&
    forall d :: first <= d ==> Seen(s.added, handle, d) + Owed(s.notifier, handle, d) == Fate(s, d)
  }

  predicate KeepsOpen(s: State, act: Act, handle: nat)
    requires Can(s, act)
  {
    act.Close? ==> s.handles[act.i] != handle
  }

  lemma OwedAdd(added: seq<Callback>, rest: seq<Callback>, handle: nat, d: nat)
    requires rest != []
    ensures Seen(added + [rest[0]], handle, d) + Seen(rest[1..], handle, d) ==
            Seen(added, handle, d) + Seen(rest, handle, d)
  {
    SeenConcat(added, [rest[0]], handle, d);
    SeenConcat([rest[0]], rest[1..], handle, d);
    assert [rest[0]] + rest[1..] == rest;
    Associate(Seen(added, handle, d), Seen([rest[0]], handle, d), Seen(rest[1..], handle, d));
  }

  lemma Associate(a: seq<EventType>, b: seq<EventType>, c: seq<EventType>)
    ensures (a + b) + c == a + (b + c)
  {
  }

  /** One step changes what a handle was told and is owed, together, just as it changes the fate of a device. */
  lemma OwedDo(s: State, act: Act, handle: nat, d: nat)
    requires Can(s, act) && handle in s.handles && Distinct(s.handles)
    ensures var s' := Do(s, act);
            Seen(s'.added, handle, d) + Owed(s'.notifier, handle, d) ==
            Seen(s.added, handle, d) + Owed(s.notifier, handle, d) +
            if act == Plug && d == s.nextId then [Attach]
            else if act.Unplug? && d == s.devices[act.i] then [Remove]
            else []
  {
    match act {
      case Lock => SeenFanOut(s.handles, s.notifier.devid, s.notifier.event, handle, d);
      case Add => OwedAdd(s.added, s.notifier.rest, handle, d);
      case _ =>
    }
  }

  lemma FateDo(s: State, act: Act, d: nat)
    requires Can(s, act) && Distinct(s.devices) && forall e :: e in s.devices ==> e < s.nextId
    ensures Fate(Do(s, act), d) ==
            Fate(s, d) + if act == Plug && d == s.nextId then [Attach]
                         else if act.Unplug? && d == s.devices[act.i] then [Remove]
                         else []
  {
    if act.Unplug? {
      WithoutMembers(s.devices, act.i);
      assert s.devices[act.i] in s.devices && [Attach] + [Remove] == [Attach, Remove];
    } else if act == Plug {
      assert Do(s, act).devices == s.devices + [s.nextId];
    }
  }

  lemma WithoutMembers(s: seq<nat>, i: nat)
    requires i < |s| && Distinct(s)
    ensures Distinct(Without(s, i)) && forall x :: x in Without(s, i) <==> x in s && x != s[i]
  {
    var t := Without(s, i);
    assert forall k :: 0 <= k < |s| && k != i ==> s[k] == t[if k < i then k else k - 1];
    assert forall k :: 0 <= k < |t| ==> t[k] == s[if k < i then k else k + 1];
  }

  /** Ids and handles stay different, and the handle stays open. */
  lemma ListsDo(s: State, act: Act, handle: nat)
    requires handle in s.handles && Distinct(s.handles) && Distinct(s.devices) &&
             (forall d :: d in s.devices ==> d < s.nextId)
    requires Can(s, act) && KeepsOpen(s, act, handle)
    ensures var s' := Do(s, act);
            handle in s'.handles && Distinct(s'.handles) && Distinct(s'.devices) && s.nextId <= s'.nextId &&
            forall d :: d in s'.devices ==> d < s'.nextId
  {
    match act {
      case Close(i) => WithoutMembers(s.handles, i);
      case Unplug(i) => WithoutMembers(s.devices, i);
      case Plug =>
        assert forall d :: d in s.devices + [s.nextId] <==> d in s.devices || d == s.nextId;
        assert forall i :: 0 <= i < |s.devices| ==> s.devices[i] in s.devices;
      case Open(h) =>
        assert handle in s.handles + [h];
      case _ =>
    }
  }

  lemma ToldDo(s: State, act: Act, handle: nat, first: nat)
    requires Told(s, handle, first) && Can(s, act) && KeepsOpen(s, act, handle)
    ensures Told(Do(s, act), handle, first)
  {
    ListsDo(s, act, handle);
    forall d | first <= d
      ensures Seen(Do(s, act).added, handle, d) + Owed(Do(s, act).notifier, handle, d) == Fate(Do(s, act), d) {
      OwedDo(s, act, handle, d);
      FateDo(s, act, d);
    }
  }

  ghost predicate RunOpen(s: State, acts: seq<Act>, s': State, handle: nat)
    decreases |acts|
  {
    if acts == [] then s == s'
    else Can(s, acts[0]) && KeepsOpen(s, acts[0], handle) && RunOpen(Do(s, acts[0]), acts[1..], s', handle)
  }

  lemma {:induction false} ToldRun(s: State, acts: seq<Act>, s': State, handle: nat, first: nat)
    requires Told(s, handle, first) && Sound(s) && RunOpen(s, acts, s', handle)
    ensures Told(s', handle, first) && Sound(s')
    decreases |acts|
  {
    if acts != [] {
      SoundDo(s, acts[0]);
      ToldDo(s, acts[0], handle, first);
      ToldRun(Do(s, acts[0]), acts[1..], s', handle, first);
    }
  }

  /** A handle that is open throughout is called for each device that comes meanwhile with its arrival and then its
      removal, each at most once, and with nothing else; what it has not been called for yet is queued or about to
      be. */
  lemma AttachThenRemove(s: State, acts: seq<Act>, s': State, handle: nat, devid: nat)
    requires Sound(s) && Told(s, handle, s.nextId) && RunOpen(s, acts, s', handle) && s.nextId <= devid
    ensures Seen(s'.called, handle, devid) <= [Attach, Remove]
    ensures Seen(s'.called, handle, devid) + Seen(s'.queue, handle, devid) + Owed(s'.notifier, handle, devid) ==
            Fate(s', devid)
  {
    ToldRun(s, acts, s', handle, s.nextId);
    SeenConcat(s'.called, s'.queue, handle, devid);
  }

  // ----- From the start -----

  /** Ids and handles are different, and no event is about a device yet to come. */
  ghost predicate Kept(s: State) {
    Distinct(s.handles) && Distinct(s.devices) && (forall d :: d in s.devices ==> d < s.nextId) &&
    AllBefore(s.added, s.nextId) &&
    match s.notifier
    case Idle => true
    case Listed(d, _) => d < s.nextId
    case Sending(rest) => AllBefore(rest, s.nextId)
  }

  predicate AllBefore(cbs: seq<Callback>, id: nat) {
    forall i :: 0 <= i < |cbs| ==> cbs[i].devid < id
  }

  lemma KeptDo(s: State, act: Act)
    requires Kept(s) && Can(s, act)
    ensures Kept(Do(s, act)) && s.nextId <= Do(s, act).nextId
  {
    match act {
      case Close(i) => WithoutMembers(s.handles, i);
      case Unplug(i) =>
        assert s.devices[i] in s.devices;
        WithoutMembers(s.devices, i);
      case Plug =>
        assert forall d :: d in s.devices + [s.nextId] <==> d in s.devices || d == s.nextId;
        assert forall i :: 0 <= i < |s.devices| ==> s.devices[i] in s.devices;
      case Open(h) =>
        assert forall i :: 0 <= i < |s.handles| ==> s.handles[i] in s.handles;
      case _ =>
    }
  }

  lemma {:induction false} KeptRun(s: State, acts: seq<Act>, s': State)
    requires Kept(s) && Run(s, acts, s')
    ensures Kept(s')
    decreases |acts|
  {
    if acts != [] {
      KeptDo(s, acts[0]);
      KeptRun(Do(s, acts[0]), acts[1..], s');
    }
  }

  lemma {:induction false} NotSeen(cbs: seq<Callback>, handle: nat, id: nat, devid: nat)
    requires AllBefore(cbs, id) && id <= devid
    ensures Seen(cbs, handle, devid) == []
  {
    if cbs != [] {
      NotSeen(cbs[..|cbs| - 1], handle, id, devid);
    }
  }

  lemma OpenedIsTold(s: State, handle: nat)
    requires Kept(s) && Can(s, Open(handle))
    ensures Told(Do(s, Open(handle)), handle, s.nextId)
  {
    var s' := Do(s, Open(handle));
    KeptDo(s, Open(handle));
    forall d | s.nextId <= d ensures Seen(s'.added, handle, d) + Owed(s'.notifier, handle, d) == Fate(s', d) {
      NotSeen(s.added, handle, s.nextId, d);
    }
  }

  /** In every run of the library, from its start: a handle that is opened and stays open is called for each device that
      comes after that with its arrival and then its removal, each at most once, and with nothing else; what it has not
      been called for yet is queued or about to be. */
  lemma ToldSinceOpening(acts: seq<Act>, s: State, handle: nat, acts': seq<Act>, s': State, devid: nat)
    requires Run(INITIAL, acts, s) && Can(s, Open(handle)) && RunOpen(Do(s, Open(handle)), acts', s', handle)
    requires s.nextId <= devid
    ensures Seen(s'.called, handle, devid) <= [Attach, Remove]
    ensures Seen(s'.called, handle, devid) + Seen(s'.queue, handle, devid) + Owed(s'.notifier, handle, devid) ==
            if devid >= s'.nextId then [] else if devid in s'.devices then [Attach] else [Attach, Remove]
  {
    KeptRun(INITIAL, acts, s);
    Fifo(INITIAL, acts, s);
    SoundDo(s, Open(handle));
    OpenedIsTold(s, handle);
    AttachThenRemove(Do(s, Open(handle)), acts', s', handle, devid);
  }
}
