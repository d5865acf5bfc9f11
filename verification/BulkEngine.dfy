/** Bulk and interrupt transfers of the Linux back end: one request split into many kernel URBs.

    An `Engine` is the value of the back end's private part of a request. The kernel is a sequence
    of URB states that the back end only changes through submit, discard and reap. The class
    `BulkIo` does what linux.c does, statement by statement; each method is tied to a function on
    engine values, and the theorems are about those functions. */
module BulkEngine {
  import opened Counting

  /** The largest URB usbfs takes for a bulk or interrupt transfer. */
  const MAX_XFER: nat := 16384

  const EINVAL := 22

  datatype Status = Zero | NoEntry | ConnReset | RemoteIo | BrokenPipe | OtherError

  /** What the kernel leaves in an URB: its status and `actual_length`. */
  datatype Outcome = Outcome(status: Status, actual: nat)

  datatype KernelUrb =
    | Idle
    | InFlight
    | Done(out: Outcome)
    | Reaped(out: Outcome)

  datatype Urb = Urb(offset: int, length: nat, shortNotOk: bool, continuation: bool)

  const BLANK := Urb(0, 0, false, false)

  datatype Action = Normal | Canceled | SubmitFailed | CompletedEarly | TimedOut | Stall | UnknownFailure

  datatype Reply = Success | IoStall | IoCanceled | IoTimeout | SysFuncFailure

  /** One call of `usbi_io_complete`. */
  datatype Completion = Completion(reply: Reply, bytes: nat)

  datatype Engine = Engine(
    urbs: seq<Urb>,
    toCancel: nat,
    toReap: nat,
    bytes: nat,
    action: Action,
    completions: seq<Completion>,
    freed: bool)

  // ----- Splitting a request -----

  function NumUrbs(length: nat): nat {
    length / MAX_XFER + if length % MAX_XFER > 0 then 1 else 0
  }

  /** `i * LINUX_MAX_BULK_INTR_XFER` in the signed 32-bit arithmetic of the source. */
  function Offset(i: nat): int {
    (i * MAX_XFER + 0x8000_0000) % U32 - 0x8000_0000
  }

  function UrbAt(length: nat, dirIn: bool, supported: bool, i: nat): Urb {
    var n := NumUrbs(length);
    Urb(Offset(i),
        if i == n - 1 && length % MAX_XFER > 0 then length % MAX_XFER else MAX_XFER,
        n > 1 && supported && dirIn && i < n - 1,
        n > 1 && supported && i > 0)
  }

  /** The URB array with its first `filled` entries set up and the rest still zeroed. */
  function PartLayout(length: nat, dirIn: bool, supported: bool, filled: nat): seq<Urb> {
    seq(NumUrbs(length), (i: nat) => if i < filled then UrbAt(length, dirIn, supported, i) else BLANK)
  }

  /** A request whose first `filled` URBs are set up, before anything came back. */
  function Prepared(length: nat, dirIn: bool, supported: bool, filled: nat): Engine {
    Engine(PartLayout(length, dirIn, supported, filled), 0, 0, 0, Normal, [], false)
  }

  /** The kernel holding the first `accepted` URBs of a request, some of which may have finished already. */
  ghost predicate Holds(k: seq<KernelUrb>, accepted: nat) {
    accepted <= |k| &&
    forall i :: 0 <= i < |k| ==> if i < accepted then k[i].InFlight? || k[i].Done? else k[i].Idle?
  }

  lemma PartLayoutSnoc(length: nat, dirIn: bool, supported: bool, i: nat)
    requires i < NumUrbs(length)
    ensures var p := PartLayout(length, dirIn, supported, i);
            p[i] == BLANK && PartLayout(length, dirIn, supported, i + 1) == p[i := UrbAt(length, dirIn, supported, i)]
  {
  }

  // ----- Discarding URBs -----

  /** Does the loop over URBs from `from` expect URB `i` to come back cancelled? */
  predicate ExpectsCancel(urbs: seq<Urb>, k: seq<KernelUrb>, trustKernel: bool, i: nat)
    requires |urbs| == |k|
  {
    i < |k| && ((trustKernel && urbs[i].continuation) || k[i].InFlight?)
  }

  function Expecting(urbs: seq<Urb>, k: seq<KernelUrb>, trustKernel: bool): nat -> bool
    requires |urbs| == |k|
  {
    (i: nat) => ExpectsCancel(urbs, k, trustKernel, i)
  }

  /** The kernel after discarding `from..to`: an URB in flight comes back as cancelled, any other is left alone. */
  function Discarded(urbs: seq<Urb>, k: seq<KernelUrb>, trustKernel: bool, from: nat, to: nat): (d: seq<KernelUrb>)
    requires |urbs| == |k|
    ensures |d| == |k|
  {
    seq(|k|, i requires 0 <= i < |k| =>
      if from <= i < to && k[i].InFlight? && !(trustKernel && urbs[i].continuation)
      then Done(Outcome(NoEntry, 0)) else k[i])
  }

  lemma DiscardedNothing(urbs: seq<Urb>, k: seq<KernelUrb>, trustKernel: bool, from: nat)
    requires |urbs| == |k|
    ensures Discarded(urbs, k, trustKernel, from, from) == k
  {
    assert forall i :: 0 <= i < |k| ==> Discarded(urbs, k, trustKernel, from, from)[i] == k[i];
  }

  lemma DiscardedSnoc(urbs: seq<Urb>, k: seq<KernelUrb>, trustKernel: bool, from: nat, i: nat)
    requires |urbs| == |k| && from <= i < |k|
    ensures var d := Discarded(urbs, k, trustKernel, from, i);
            d[i] == k[i] &&
            Discarded(urbs, k, trustKernel, from, i + 1) ==
              if k[i].InFlight? && !(trustKernel && urbs[i].continuation)
              then d[i := Done(Outcome(NoEntry, 0))] else d
  {
    var d, d' := Discarded(urbs, k, trustKernel, from, i), Discarded(urbs, k, trustKernel, from, i + 1);
    assert forall j :: 0 <= j < |k| && j != i ==> d[j] == d'[j];
  }

  /** Counters after a discard loop over `from..to`. */
  function Charge(e: Engine, k: seq<KernelUrb>, trustKernel: bool, from: nat, to: nat, action: Action): Engine
    requires |e.urbs| == |k| && from <= to
  {
    var c := Count(from, to, Expecting(e.urbs, k, trustKernel));
    e.(action := action, toCancel := Add32(e.toCancel, c), toReap := Add32(e.toReap, to - from - c))
  }

  lemma ChargeSnoc(e: Engine, k: seq<KernelUrb>, trustKernel: bool, from: nat, i: nat)
    requires |e.urbs| == |k| && from <= i < |k|
    ensures var c := Charge(e, k, trustKernel, from, i, e.action);
            Charge(e, k, trustKernel, from, i + 1, e.action) ==
              if ExpectsCancel(e.urbs, k, trustKernel, i) then c.(toCancel := Add32(c.toCancel, 1))
              else c.(toReap := Add32(c.toReap, 1))
  {
    var p := Expecting(e.urbs, k, trustKernel);
    CountSnoc(from, i, p);
    Add32Snoc(e.toCancel, Count(from, i, p));
    Add32Snoc(e.toReap, i - from - Count(from, i, p));
  }

  /** The request and the kernel after URB `accepted` was refused and the ones before it were discarded. */
  function Refused(length: nat, dirIn: bool, supported: bool, accepted: nat, k: seq<KernelUrb>)
    : (Engine, seq<KernelUrb>)
    requires accepted < NumUrbs(length) == |k|
  {
    var e := Prepared(length, dirIn, supported, accepted + 1);
    (Charge(e, k, false, 0, accepted, SubmitFailed), Discarded(e.urbs, k, false, 0, accepted))
  }

  // ----- Reaping an URB -----

  function Complete(e: Engine, reply: Reply): Engine {
    e.(completions := e.completions + [Completion(reply, e.bytes)], freed := true)
  }

  /** The counters after one more URB came back while the request was being wound up. */
  function Tally(e: Engine, i: nat, status: Status): Engine
    requires i < |e.urbs|
  {
    match status
    case NoEntry => e.(toCancel := if e.toCancel == 0 then 0 else e.toCancel - 1)
    case ConnReset => if e.urbs[i].continuation then e.(toCancel := Dec32(e.toCancel)) else e
    case Zero => e.(toReap := if e.toReap == 0 then 0 else e.toReap - 1)
    case _ => e
  }

  function FinalReply(a: Action): Reply {
    match a
    case Canceled => IoCanceled
    case CompletedEarly => Success
    case TimedOut => IoTimeout
    case _ => SysFuncFailure
  }

  function WindUp(e: Engine, i: nat, status: Status): Engine
    requires i < |e.urbs|
  {
    var t := Tally(e, i, status);
    if t.toCancel == 0 && t.toReap == 0 && t.action != Stall then Complete(t, FinalReply(t.action)) else t
  }

  function Received(e: Engine, out: Outcome): Engine {
    if out.status == Zero || out.status == RemoteIo then e.(bytes := Add32(e.bytes, out.actual)) else e
  }

  /** What handling URB `i` does to the request and, through discards, to the kernel. */
  function Handle(e: Engine, k: seq<KernelUrb>, i: nat, out: Outcome): (Engine, seq<KernelUrb>)
    requires |e.urbs| == |k| && i < |k|
  {
    var n := |k|;
    var e := Received(e, out);
    if e.action != Normal then (WindUp(e, i, out.status), k)
    else match out.status
      case BrokenPipe =>
        (Complete(Charge(e, k, true, i + 1, n, Stall), IoStall), Discarded(e.urbs, k, true, i + 1, n))
      case NoEntry => (Charge(e, k, true, i + 1, n, UnknownFailure), Discarded(e.urbs, k, true, i + 1, n))
      case ConnReset => (Charge(e, k, true, i + 1, n, UnknownFailure), Discarded(e.urbs, k, true, i + 1, n))
      case OtherError => (Charge(e, k, true, i + 1, n, UnknownFailure), Discarded(e.urbs, k, true, i + 1, n))
      case _ =>
        if i == n - 1 then (Complete(e, Success), k)
        else if out.actual < e.urbs[i].length then
          (Charge(e, k, true, i + 1, n, CompletedEarly), Discarded(e.urbs, k, true, i + 1, n))
        else (e, k)
  }

  // ----- The code -----

  /** One answer of usbfs to IOCTL_USB_SUBMITURB: the URB it was handed, whether it took it, and its state then. */
  datatype Answer = Answer(i: nat, urb: Urb, taken: bool, state: seq<KernelUrb>)

  /** From `start` on the answers are about the URBs of the request, set up, in turn; all but the last took the URB. */
  ghost predicate InTurn(answers: seq<Answer>, start: nat, length: nat, dirIn: bool, supported: bool) {
    forall a :: start <= a < |answers| ==>
      answers[a].i == a - start && answers[a].urb == UrbAt(length, dirIn, supported, a - start) &&
      (a < |answers| - 1 ==> answers[a].taken)
  }

  lemma InTurnMore(answers: seq<Answer>, start: nat, length: nat, dirIn: bool, supported: bool, answer: Answer)
    requires InTurn(answers, start, length, dirIn, supported) && start <= |answers|
    requires |answers| > start ==> answers[|answers| - 1].taken
    requires answer.i == |answers| - start && answer.urb == UrbAt(length, dirIn, supported, |answers| - start)
    ensures InTurn(answers + [answer], start, length, dirIn, supported)
  {
  }

  /** usbfs, as far as one request can see it; it records what it answered. */
  class Kernel {
    var state: seq<KernelUrb>
    ghost var answers: seq<Answer>

    constructor ()
      ensures state == [] && answers == []
    {
      state, answers := [], [];
    }

    /** IOCTL_USB_SUBMITURB: takes the URB or refuses it. Meanwhile URBs it already holds may finish. */
    method Submit(i: nat, urb: Urb) returns (ret: int)
      requires Holds(state, i) && i < |state|
      modifies this
      ensures |state| == |old(state)|
      ensures ret == 0 || ret == -1
      ensures Holds(state, if ret == 0 then i + 1 else i)
      ensures answers == old(answers) + [Answer(i, urb, ret == 0, state)]
    {
      var busy: bool := *;
      if i > 0 && busy && state[i - 1].InFlight? {
        var actual: nat := *;
        state := state[i - 1 := Done(Outcome(Zero, actual))];
      }
      var accepted: bool := *;
      if accepted {
        state := state[i := InFlight];
        ret := 0;
      } else {
        ret := -1;
      }
      answers := answers + [Answer(i, urb, accepted, state)];
    }

    /** IOCTL_USB_DISCARDURB: succeeds on an URB in flight only. */
    method Discard(i: nat) returns (ret: int, errno: int)
      requires i < |state|
      modifies this`state
      ensures ret == 0 <==> old(state)[i].InFlight?
      ensures ret != 0 ==> ret == -1 && errno == EINVAL
      ensures state == if ret == 0 then old(state)[i := Done(Outcome(NoEntry, 0))] else old(state)
    {
      errno := 0;
      if state[i].InFlight? {
        state := state[i := Done(Outcome(NoEntry, 0))];
        ret := 0;
      } else {
        ret, errno := -1, EINVAL;
      }
    }
  }

  /** `struct usbi_io_private` and the completions reported for its request. */
  class BulkIo {
    var urbs: array<Urb>
    var urbsToCancel: nat
    var urbsToReap: nat
    var bytesTransferred: nat
    var reapAction: Action
    var completions: seq<Completion>
    var freed: bool

    constructor ()
      ensures fresh(this) && fresh(urbs) && View() == Engine([], 0, 0, 0, Normal, [], false)
    {
      urbs := new Urb[0];
      urbsToCancel, urbsToReap, bytesTransferred := 0, 0, 0;
      reapAction, completions, freed := Normal, [], false;
    }

    ghost function View(): Engine
      reads this, urbs
    {
      Engine(urbs[..], urbsToCancel, urbsToReap, bytesTransferred, reapAction, completions, freed)
    }

    method IoComplete(reply: Reply)
      modifies this`completions
      ensures completions == old(completions) + [Completion(reply, bytesTransferred)]
    {
      completions := completions + [Completion(reply, bytesTransferred)];
    }

    /** One pass of the discard loops: URB `i` is discarded, unless usbfs is trusted to cancel it, and a counter is
        bumped. */
    method DiscardOne(kernel: Kernel, i: nat, trustKernel: bool)
      requires i < |kernel.state| == urbs.Length
      modifies this`urbsToCancel, this`urbsToReap, kernel`state
      ensures var cancel := ExpectsCancel(urbs[..], old(kernel.state), trustKernel, i);
              urbsToCancel == (if cancel then Add32(old(urbsToCancel), 1) else old(urbsToCancel)) &&
              urbsToReap == if cancel then old(urbsToReap) else Add32(old(urbsToReap), 1)
      ensures kernel.state == if old(kernel.state)[i].InFlight? && !(trustKernel && urbs[i].continuation)
                              then old(kernel.state)[i := Done(Outcome(NoEntry, 0))] else old(kernel.state)
    {
      if trustKernel && urbs[i].continuation {
        urbsToCancel := Add32(urbsToCancel, 1);
        return;
      }
      var ret, errno := kernel.Discard(i);
      if ret == 0 {
        urbsToCancel := Add32(urbsToCancel, 1);
      } else if errno == EINVAL {
        urbsToReap := Add32(urbsToReap, 1);
      }
    }

    /** discard_urbs: used by a cancel and by a timeout. */
    method DiscardUrbs(kernel: Kernel, action: Action)
      requires urbs.Length == |kernel.state| && urbsToCancel < U32 && urbsToReap < U32
      modifies this, kernel`state
      ensures urbs == old(urbs) && urbs[..] == old(urbs[..])
      ensures View() == Charge(old(View()), old(kernel.state), false, 0, urbs.Length, action)
      ensures kernel.state == Discarded(urbs[..], old(kernel.state), false, 0, urbs.Length)
    {
      reapAction := action;
      DiscardLoop(kernel, 0, urbs.Length, false);
    }

    /** The loop shared by the three discarding functions; `trustKernel` leaves continuation URBs to usbfs. */
    method DiscardLoop(kernel: Kernel, from: nat, to: nat, trustKernel: bool)
      requires from <= to <= urbs.Length == |kernel.state| && urbsToCancel < U32 && urbsToReap < U32
      modifies this`urbsToCancel, this`urbsToReap, kernel`state
      ensures View() == Charge(old(View()), old(kernel.state), trustKernel, from, to, reapAction)
      ensures kernel.state == Discarded(urbs[..], old(kernel.state), trustKernel, from, to)
    {
      ghost var e0, k0 := View(), kernel.state;
      DiscardedNothing(e0.urbs, k0, trustKernel, from);
      var i := from;
      while i < to
        invariant from <= i <= to
        invariant View() == Charge(e0, k0, trustKernel, from, i, e0.action)
        invariant kernel.state == Discarded(e0.urbs, k0, trustKernel, from, i)
      {
        ChargeSnoc(e0, k0, trustKernel, from, i);
        DiscardedSnoc(e0.urbs, k0, trustKernel, from, i);
        DiscardOne(kernel, i, trustKernel);
        i := i + 1;
      }
    }

    /** handle_partial_submit: URB `idx` was refused, so take back the ones before it. */
    method HandlePartialSubmit(kernel: Kernel, idx: nat)
      requires idx <= urbs.Length == |kernel.state| && urbsToCancel < U32 && urbsToReap < U32
      modifies this, kernel`state
      ensures urbs == old(urbs)
      ensures View() == Charge(old(View()), old(kernel.state), false, 0, idx, SubmitFailed)
      ensures kernel.state == Discarded(urbs[..], old(kernel.state), false, 0, idx)
    {
      reapAction := SubmitFailed;
      DiscardLoop(kernel, 0, idx, false);
    }

    /** handle_partial_xfer: take back the URBs from `idx` on. */
    method HandlePartialXfer(kernel: Kernel, idx: nat, action: Action)
      requires idx <= urbs.Length == |kernel.state| && urbsToCancel < U32 && urbsToReap < U32
      modifies this, kernel`state
      ensures urbs == old(urbs)
      ensures View() == Charge(old(View()), old(kernel.state), true, idx, urbs.Length, action)
      ensures kernel.state == Discarded(urbs[..], old(kernel.state), true, idx, urbs.Length)
    {
      reapAction := action;
      DiscardLoop(kernel, idx, urbs.Length, true);
    }

    /** Sets up URB `i` of a request. */
    method SetupUrb(length: nat, dirIn: bool, supported: bool, i: nat)
      requires i < NumUrbs(length) == urbs.Length
      requires urbs[i] == BLANK
      modifies urbs
      ensures urbs[..] == old(urbs[..])[i := UrbAt(length, dirIn, supported, i)]
    {
      var urb := urbs[i].(offset := Offset(i));
      if i == urbs.Length - 1 && length % MAX_XFER > 0 {
        urb := urb.(length := length % MAX_XFER);
      } else {
        urb := urb.(length := MAX_XFER);
      }
      if urbs.Length > 1 && supported {
        if dirIn && i < urbs.Length - 1 {
          urb := urb.(shortNotOk := true);
        }
        if i > 0 {
          urb := urb.(continuation := true);
        }
      }
      urbs[i] := urb;
    }

    /** linux_submit_bulk_intr. The kernel took `accepted` URBs; `seen` is its state when it took or refused the
        last. It was asked for the URBs in turn, and only a refusal ends that before the last. */
    method Submit(kernel: Kernel, length: nat, dirIn: bool, supported: bool)
      returns (ok: bool, accepted: nat, ghost seen: seq<KernelUrb>)
      requires length < U32
      modifies this, kernel
      ensures fresh(urbs)
      ensures accepted <= NumUrbs(length) == |seen| && Holds(seen, accepted)
      ensures ok <==> length == 0 || accepted > 0
      ensures accepted == NumUrbs(length) ==>
        (View(), kernel.state) == (Prepared(length, dirIn, supported, NumUrbs(length)), seen)
      ensures !ok ==> kernel.state == seen && completions == []
      ensures ok && accepted < NumUrbs(length) ==>
        (View(), kernel.state) == Refused(length, dirIn, supported, accepted, seen)
      ensures old(kernel.answers) <= kernel.answers
      ensures InTurn(kernel.answers, |old(kernel.answers)|, length, dirIn, supported)
      ensures |kernel.answers| == |old(kernel.answers)| + if accepted < NumUrbs(length) then accepted + 1 else accepted
      ensures length > 0 ==>
                var last := kernel.answers[|kernel.answers| - 1];
                (last.taken <==> accepted == NumUrbs(length)) && last.state == seen
    {
      ghost var before := kernel.answers;
      Allocate(kernel, length, dirIn, supported);
      accepted := 0;
      while accepted < urbs.Length
        invariant accepted <= urbs.Length == NumUrbs(length) == |kernel.state|
        invariant fresh(urbs)
        invariant View() == Prepared(length, dirIn, supported, accepted)
        invariant Holds(kernel.state, accepted)
        invariant |kernel.answers| == |before| + accepted && before <= kernel.answers
        invariant InTurn(kernel.answers, |before|, length, dirIn, supported)
        invariant accepted > 0 ==>
          kernel.answers[|kernel.answers| - 1].taken && kernel.answers[|kernel.answers| - 1].state == kernel.state
      {
        PartLayoutSnoc(length, dirIn, supported, accepted);
        SetupUrb(length, dirIn, supported, accepted);
        ghost var asked := kernel.answers;
        var ret := kernel.Submit(accepted, urbs[accepted]);
        InTurnMore(asked, |before|, length, dirIn, supported, kernel.answers[|asked|]);
        if ret < 0 {
          seen := kernel.state;
          if accepted == 0 {
            return false, 0, seen;
          }
          // The branch for -EREMOTEIO compares the result of the ioctl, which is -1: it is never taken,
          // and every refusal after the first URB ends up here.
          HandlePartialSubmit(kernel, accepted);
          return true, accepted, seen;
        }
        accepted := accepted + 1;
      }
      return true, accepted, kernel.state;
    }

    /** The start of linux_submit_bulk_intr: a zeroed private part with as many URBs as the length needs. */
    method Allocate(kernel: Kernel, length: nat, ghost dirIn: bool, ghost supported: bool)
      modifies this, kernel`state
      ensures fresh(urbs) && urbs.Length == NumUrbs(length)
      ensures View() == Prepared(length, dirIn, supported, 0)
      ensures |kernel.state| == NumUrbs(length) && Holds(kernel.state, 0)
    {
      var numUrbs := length / MAX_XFER;
      if length % MAX_XFER > 0 {
        numUrbs := numUrbs + 1;
      }
      urbs := new Urb[numUrbs](_ => BLANK);
      kernel.state := seq(numUrbs, i => Idle);
      urbsToReap, urbsToCancel, bytesTransferred := 0, 0, 0;
      reapAction, completions, freed := Normal, [], false;
      assert urbs[..] == PartLayout(length, dirIn, supported, 0);
    }

    /** handle_bulk_intr_complete, for the URB the kernel just handed back. */
    method HandleComplete(kernel: Kernel, i: nat, out: Outcome)
      requires i < urbs.Length == |kernel.state| && urbsToCancel < U32 && urbsToReap < U32
      modifies this, kernel`state
      ensures urbs == old(urbs)
      ensures (View(), kernel.state) == Handle(old(View()), old(kernel.state), i, out)
    {
      if out.status == Zero || out.status == RemoteIo {
        bytesTransferred := Add32(bytesTransferred, out.actual);
      }
      if reapAction != Normal {
        if out.status == NoEntry {
          if urbsToCancel != 0 {
            urbsToCancel := urbsToCancel - 1;
          }
        } else if out.status == ConnReset && urbs[i].continuation {
          urbsToCancel := Dec32(urbsToCancel);
        } else if out.status == Zero {
          if urbsToReap != 0 {
            urbsToReap := urbsToReap - 1;
          }
        }
        if urbsToReap == 0 && urbsToCancel == 0 {
          if reapAction == Stall {
            return;
          }
          var reply := SysFuncFailure;
          if reapAction == Canceled {
            reply := IoCanceled;
          } else if reapAction == CompletedEarly {
            reply := Success;
          } else if reapAction == TimedOut {
            reply := IoTimeout;
          }
          IoComplete(reply);
          freed := true;
        }
        return;
      }
      match out.status {
        case Zero =>
        case RemoteIo =>
        case BrokenPipe =>
          HandlePartialXfer(kernel, i + 1, Stall);
          freed := true;
          IoComplete(IoStall);
          return;
        case _ =>
          HandlePartialXfer(kernel, i + 1, UnknownFailure);
          return;
      }
      if i == urbs.Length - 1 {
        IoComplete(Success);
        freed := true;
      } else if out.actual < urbs[i].length {
        HandlePartialXfer(kernel, i + 1, CompletedEarly);
      }
    }
  }
}
