/** Deadlines of requests: how they are set, compared, and turned into the time `select` sleeps. */
module Timeouts {

  const MILLION := 1_000_000

  /** `struct timeval`. */
  datatype Timeval = Timeval(sec: int, usec: int)

  function Micros(t: Timeval): int {
    t.sec * MILLION + t.usec
  }

  /** A time of day as `gettimeofday` returns it. */
  predicate TimeOfDay(t: Timeval) {
    0 < t.sec && 0 <= t.usec < MILLION
  }

  /** A deadline as the library stores it: the microseconds may be a full second. */
  predicate DeadlineLike(t: Timeval) {
    0 < t.sec && 0 <= t.usec <= MILLION
  }

  /** The end time set by usbi_alloc_io; a timeout of 0 milliseconds stands for the largest 32-bit value. */
  method SetDeadline(tvc: Timeval, timeout: nat) returns (tvo: Timeval)
    requires TimeOfDay(tvc) && timeout < 0x1_0000_0000
    ensures Micros(tvo) == Micros(tvc) + 1000 * (if timeout == 0 then 0xFFFF_FFFF else timeout) && DeadlineLike(tvo)
    ensures tvo.usec == MILLION <==> tvc.usec + (if timeout == 0 then 0xFFFF_FFFF else timeout) % 1000 * 1000 == MILLION
  {
    var ms := timeout;
    if ms == 0 {
      ms := 0xFFFF_FFFF;
    }
    tvo := Timeval(tvc.sec + ms / 1000, tvc.usec + ms % 1000 * 1000);
    if tvo.usec > MILLION {
      tvo := Timeval(tvo.sec + 1, tvo.usec - MILLION);
    }
  }

  /** usbi_timeval_compare. */
  function Compare(a: Timeval, b: Timeval): int {
    if a.sec < b.sec then -1
    else if a.sec > b.sec then 1
    else if a.usec < b.usec then -1
    else if a.usec > b.usec then 1
    else 0
  }

  /** For times of day it is -1, 0 or 1 as the first is earlier, the same or later. */
  lemma CompareOrders(a: Timeval, b: Timeval)
    requires TimeOfDay(a) && TimeOfDay(b)
    ensures Compare(a, b) == if Micros(a) < Micros(b) then -1 else if Micros(a) > Micros(b) then 1 else 0
  {
    assert a.sec < b.sec ==> a.sec * MILLION + MILLION <= b.sec * MILLION;
    assert a.sec > b.sec ==> b.sec * MILLION + MILLION <= a.sec * MILLION;
  }

  /** The expiry test holds exactly from the deadline on, also when its microseconds are a full second. */
  lemma ExpiryExact(tvo: Timeval, now: Timeval)
    requires DeadlineLike(tvo) && TimeOfDay(now)
    ensures Compare(tvo, now) <= 0 <==> Micros(now) >= Micros(tvo)
  {
    assert tvo.sec < now.sec ==> tvo.sec * MILLION + MILLION <= now.sec * MILLION;
    assert tvo.sec > now.sec ==> now.sec * MILLION + MILLION <= tvo.sec * MILLION;
  }

  /** The time to sleep until `next`, or an hour when there is none (its seconds are 0). */
  method SelectTimeout(next: Timeval, tvc: Timeval) returns (tvo: Timeval)
    requires TimeOfDay(tvc) && (next.sec != 0 ==> DeadlineLike(next))
    ensures 0 <= tvo.sec && 0 <= tvo.usec <= MILLION
    ensures next.sec == 0 ==> Micros(tvo) == 3600 * MILLION
    ensures next.sec != 0 ==>
              Micros(tvo) == if Micros(next) > Micros(tvc) then Micros(next) - Micros(tvc) else 0
  {
    tvo := next;
    if tvo.sec == 0 {
      tvo := Timeval(tvc.sec + 60 * 60, tvc.usec);
    } else if Compare(tvo, tvc) < 0 {
      assert Micros(next) <= Micros(tvc);
      tvo := tvc;
    }
    tvo := tvo.(sec := tvo.sec - tvc.sec);
    if tvo.usec < tvc.usec {
      tvo := Timeval(tvo.sec - 1, tvo.usec + (MILLION - tvc.usec));
    } else {
      tvo := tvo.(usec := tvo.usec - tvc.usec);
    }
  }

  // ----- Which deadline the thread sleeps until -----

  datatype Io = Io(inProgress: bool, tvo: Timeval)

  predicate Pending(io: Io) {
    io.inProgress && io.tvo.sec != 0
  }

  /** The deadline of the last pending request. */
  function Found(ios: seq<Io>): Timeval {
    if ios == [] then Timeval(0, 0)
    else if Pending(ios[|ios| - 1]) then ios[|ios| - 1].tvo
    else Found(ios[..|ios| - 1])
  }

  /** The loop of timeout_thread that is meant to find the soonest deadline: it takes every deadline
      that differs from the one found so far, so it ends with the last. */
  method NextTimeout(ios: seq<Io>) returns (tvo: Timeval)
    ensures tvo == Found(ios)
    ensures tvo.sec == 0 <==> forall i :: 0 <= i < |ios| ==> !(ios[i].inProgress && ios[i].tvo.sec != 0)
    ensures tvo.sec == 0 ==> tvo == Timeval(0, 0)
  {
    tvo := Timeval(0, 0);
    for k := 0 to |ios|
      invariant tvo == Found(ios[..k])
    {
      var io := ios[k];
      assert ios[..k + 1][..k] == ios[..k];
      if !io.inProgress {
        continue;
      }
      if io.tvo.sec != 0 && (tvo.sec == 0 || Compare(io.tvo, tvo) != 0) {
        tvo := io.tvo;
      }
    }
    assert ios[..|ios|] == ios;
    FoundNone(ios);
  }

  /** There is no deadline, and the thread sleeps for an hour, if and only if no request is pending. */
  lemma {:induction false} FoundNone(ios: seq<Io>)
    ensures Found(ios).sec == 0 <==> forall i :: 0 <= i < |ios| ==> !(ios[i].inProgress && ios[i].tvo.sec != 0)
    ensures Found(ios).sec == 0 ==> Found(ios) == Timeval(0, 0)
  {
    if ios != [] {
      var init := ios[..|ios| - 1];
      FoundNone(init);
      assert forall i :: 0 <= i < |init| ==> init[i] == ios[i];
    }
  }

  lemma {:induction false} FoundIsLast(ios: seq<Io>, last: nat)
    requires last < |ios| && Pending(ios[last]) && forall j :: last < j < |ios| ==> !Pending(ios[j])
    ensures Found(ios) == ios[last].tvo
  {
    if last + 1 < |ios| {
      FoundIsLast(ios[..|ios| - 1], last);
    }
  }

  /** No pending deadline passes before the thread wakes up. */
  ghost predicate WakesInTime(ios: seq<Io>, wake: Timeval) {
    forall i :: 0 <= i < |ios| && Pending(ios[i]) ==> Micros(wake) <= Micros(ios[i].tvo)
  }

  /** The thread wakes in time for every request if and only if the request queued last is the first to expire. */
  lemma WakesInTimeIff(ios: seq<Io>, last: nat)
    requires last < |ios| && Pending(ios[last]) && forall j :: last < j < |ios| ==> !Pending(ios[j])
    ensures WakesInTime(ios, Found(ios)) <==>
            forall i :: 0 <= i < last && Pending(ios[i]) ==> Micros(ios[last].tvo) <= Micros(ios[i].tvo)
  {
    FoundIsLast(ios, last);
  }

  /** A request with a long timeout queued behind one with a short timeout delays it. */
  lemma SleepsTooLong()
    ensures var ios := [Io(true, Timeval(100, 0)), Io(true, Timeval(200, 0))];
            Found(ios) == Timeval(200, 0) && !WakesInTime(ios, Found(ios))
  {
    var ios := [Io(true, Timeval(100, 0)), Io(true, Timeval(200, 0))];
    assert Pending(ios[0]);
  }
}
