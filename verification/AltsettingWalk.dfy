/** When usbi_get_intf_altno fails: its walk over signed length bytes leaves the buffer downwards, or never ends. */
module AltsettingWalk {
  import opened Lists
  import opened Descriptors
  import opened DescriptorParser

  /** Where the walk from `start` is after `i` steps; it stays where its loop ends. */
  function Hop(buf: seq<Byte>, start: nat, i: nat): int {
    if i == 0 then start
    else
      var p := Hop(buf, start, i - 1);
      if start <= p < |buf| then p + Signed(buf[p]) else p
  }

  /** The loop is still going after `i` steps. */
  predicate Going(buf: seq<Byte>, start: nat, i: nat) {
    start <= Hop(buf, start, i) < |buf|
  }

  /** After `i` steps the byte it looks at is before the whole buffer. */
  predicate Before(buf: seq<Byte>, start: nat, i: nat) {
    Hop(buf, start, i) < -1
  }

  lemma {:induction false} Stays(buf: seq<Byte>, start: nat, i: nat, j: nat)
    requires i <= j && !Going(buf, start, i)
    ensures Hop(buf, start, j) == Hop(buf, start, i)
  {
    if i < j {
      Stays(buf, start, i, j - 1);
    }
  }

  /** How many of the first `i` steps led to an interface descriptor with number `fno`. */
  function Met(buf: seq<Byte>, start: nat, i: nat, fno: nat): nat {
    if i == 0 then 0
    else Met(buf, start, i - 1, fno) + if Going(buf, start, i - 1) && MetAt(buf, Hop(buf, start, i), fno) then 1 else 0
  }

  /** Behind the end there are zeroes. */
  predicate MetAt(buf: seq<Byte>, p: int, fno: nat) {
    p >= -1 && p + 1 < |buf| && buf[p + 1] == INTERFACE && fno == if p + 2 < |buf| then buf[p + 2] else 0
  }

  lemma {:induction false} MetStays(buf: seq<Byte>, start: nat, i: nat, j: nat, fno: nat)
    requires i <= j && !Going(buf, start, i)
    ensures Met(buf, start, j, fno) == Met(buf, start, i, fno)
  {
    if i < j {
      Stays(buf, start, i, j - 1);
      MetStays(buf, start, i, j - 1, fno);
    }
  }

  lemma {:induction false} WalkMeets(buf: seq<Byte>, start: nat, fno: nat, i: nat, n: nat)
    requires i <= n && Hop(buf, start, i) >= -1
    ensures var r := Walk(buf, start, Hop(buf, start, i), fno, n - i);
            r.Some? ==> r.value + Met(buf, start, i, fno) == Met(buf, start, n, fno)
    decreases n - i
  {
    if !Going(buf, start, i) {
      MetStays(buf, start, i, n, fno);
    } else if i < n {
      var next := i + 1;
      assert Hop(buf, start, next) == Hop(buf, start, i) + Signed(buf[Hop(buf, start, i)]);
      if Hop(buf, start, next) >= -1 {
        WalkMeets(buf, start, fno, next, n);
      }
    }
  }

  lemma {:induction false} WalkFrom(buf: seq<Byte>, start: nat, fno: nat, i: nat, n: nat)
    requires i <= n && Hop(buf, start, i) >= -1
    ensures Walk(buf, start, Hop(buf, start, i), fno, n - i).None? <==>
            Going(buf, start, n) || exists k :: i <= k <= n && Before(buf, start, k)
    decreases n - i
  {
    if !Going(buf, start, i) {
      forall k | i <= k <= n ensures Hop(buf, start, k) == Hop(buf, start, i) {
        Stays(buf, start, i, k);
      }
    } else if i < n {
      var next := i + 1;
      assert Hop(buf, start, next) == Hop(buf, start, i) + Signed(buf[Hop(buf, start, i)]);
      if Hop(buf, start, next) >= -1 {
        WalkFrom(buf, start, fno, next, n);
      } else {
        assert Before(buf, start, next);
      }
    }
  }

  /** More numbers than the range has values: two are the same. */
  lemma {:induction false} Pigeonhole(s: seq<int>, lo: int) returns (a: nat, b: nat)
    requires s != [] && forall i :: 0 <= i < |s| ==> lo <= s[i] < lo + |s| - 1
    ensures a < b < |s| && s[a] == s[b]
    decreases |s|
  {
    var n := |s| - 1;
    assert lo <= s[n];
    if k :| 0 <= k < n && s[k] == s[n] {
      a, b := k, n;
    } else {
      var t := seq(n, i requires 0 <= i < n => if s[i] == lo + n - 1 then s[n] else s[i]);
      assert forall i :: 0 <= i < n ==> s[i] != s[n];
      assert s[0] != s[n];
      a, b := Pigeonhole(t, lo);
    }
  }

  lemma {:induction false} Repeats(buf: seq<Byte>, start: nat, a: nat, b: nat, t: nat)
    requires Hop(buf, start, a) == Hop(buf, start, b)
    ensures Hop(buf, start, a + t) == Hop(buf, start, b + t)
  {
    if t > 0 {
      Repeats(buf, start, a, b, t - 1);
    }
  }

  /** A walk that is somewhere twice goes on for ever. */
  lemma {:induction false} ForEver(buf: seq<Byte>, start: nat, a: nat, b: nat, i: nat)
    requires a < b && Hop(buf, start, a) == Hop(buf, start, b) && Going(buf, start, b)
    ensures Going(buf, start, i)
    decreases i
  {
    if i <= b {
      if !Going(buf, start, i) {
        Stays(buf, start, i, b);
      }
    } else {
      ForEver(buf, start, a, b, a + (i - b));
      Repeats(buf, start, a, b, i - b);
    }
  }

  lemma GoesOnForEver(buf: seq<Byte>, start: nat, n: nat, i: nat)
    requires n + start == |buf| && Going(buf, start, n)
    ensures Going(buf, start, i)
  {
    forall k | 0 <= k <= n ensures Going(buf, start, k) {
      if !Going(buf, start, k) {
        Stays(buf, start, k, n);
      }
    }
    var s := seq(n + 1, k requires 0 <= k < n + 1 => Hop(buf, start, k));
    forall k | 0 <= k < |s| ensures start <= s[k] < start + |s| - 1 {
      assert Going(buf, start, k);
    }
    var a, b := Pigeonhole(s, start);
    ForEver(buf, start, a, b, i);
  }

  /** The count fails if and only if the walk never ends or comes to a place more than one byte before the whole
      buffer; one byte before it, it looks at the first two bytes and ends. */
  lemma CountFailsIff(buf: seq<Byte>, start: nat, fno: nat)
    requires start <= |buf|
    ensures LaterAlts(buf, start, fno).None? <==>
            (forall i: nat :: Going(buf, start, i)) || exists i: nat :: Before(buf, start, i)
  {
    var n := |buf| - start;
    assert Hop(buf, start, 0) == start;
    WalkFrom(buf, start, fno, 0, n);
    if Going(buf, start, n) {
      forall i: nat ensures Going(buf, start, i) {
        GoesOnForEver(buf, start, n, i);
      }
    } else if i: nat :| Before(buf, start, i) {
      if i > n {
        Stays(buf, start, n, i);
      }
      var k := if i > n then n else i;
      assert Before(buf, start, k);
      assert LaterAlts(buf, start, fno).None?;
    } else {
      assert LaterAlts(buf, start, fno).Some?;
    }
  }

  /** What is counted is what the steps lead to. */
  lemma CountMeets(buf: seq<Byte>, start: nat, fno: nat)
    requires start <= |buf|
    ensures LaterAlts(buf, start, fno).Some? ==>
              LaterAlts(buf, start, fno) == Some(Met(buf, start, |buf| - start, fno))
  {
    assert Hop(buf, start, 0) == start;
    WalkMeets(buf, start, fno, 0, |buf| - start);
  }

  /** A length byte above 127 is a step back; the count can still end, here behind its start. */
  lemma StepsBack() returns (buf: seq<Byte>)
    ensures buf == [0, 0, 254] && LaterAlts(buf, 2, 0) == Some(0)
  {
    buf := [0, 0, 254];
    assert Walk(buf, 2, 0, 0, 0) == Some(0);
    assert Signed(buf[2]) == -2 && !IsInterface(buf, 0, 0);
    assert Walk(buf, 2, 2, 0, 1) == Some(0);
  }

  /** From one byte before the buffer its first two bytes can even count as an interface; one byte further is too
      far. */
  lemma StepsBefore() returns (buf: seq<Byte>, buf': seq<Byte>)
    ensures buf == [4, 0, 253] && LaterAlts(buf, 2, 0) == Some(1)
    ensures buf' == [4, 0, 252] && LaterAlts(buf', 2, 0) == None
  {
    buf, buf' := [4, 0, 253], [4, 0, 252];
    assert Walk(buf, 2, -1, 0, 0) == Some(0);
    assert Signed(buf[2]) == -3 && IsInterface(buf, -1, 0);
    assert Walk(buf, 2, 2, 0, 1) == Some(1);
    assert Signed(buf'[2]) == -4;
    assert Walk(buf', 2, 2, 0, 1) == None;
  }
}
