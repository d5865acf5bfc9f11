/** Alternate settings that continue their own interface: the slots counted suffice, and the parser leaves its memory
    exactly when the buffer cuts off the endpoints of a setting it comes to. */
module AltsettingCuts {
  import opened Lists
  import opened Descriptors
  import opened DescriptorParser
  import opened AltsettingSlots

  /** From `j` on, an interface descriptor with a nonzero alternate setting has the number of the interface
      descriptor before it; `fno` is that number at the start, or -1. */
  ghost predicate Continues(buf: seq<Byte>, ds: seq<seq<Byte>>, j: nat, fno: int)
    requires j <= |ds|
    decreases |ds| - j
  {
    j == |ds| ||
    var pos := Pos(ds, j);
    if At(buf, pos + 1) == INTERFACE then
      (Alternate(buf, pos) ==> At(buf, pos + 2) == fno) && Continues(buf, ds, j + 1, At(buf, pos + 2))
    else Continues(buf, ds, j + 1, fno)
  }

  lemma {:induction false} ContinuesBehind(buf: seq<Byte>, ds: seq<seq<Byte>>, fno: int, j: nat, k: nat)
    requires Holds(buf, ds) && j <= k <= |ds| && NoInterface(ds, j, k) && Continues(buf, ds, j, fno)
    ensures Continues(buf, ds, k, fno)
    decreases k - j
  {
    if j < k {
      DescAt(buf, ds, j);
      ContinuesBehind(buf, ds, fno, j + 1, k);
    }
  }

  /** The settings of the interface descriptor `j` go on to one that is cut short. */
  predicate CutIn(buf: seq<Byte>, ds: seq<seq<Byte>>, j: nat)
    requires AllDescs(ds) && j < |ds|
    decreases |ds| - j
  {
    Pos(ds, j) + INTERFACE_SIZE <= |buf| &&
    (CutShort(buf, ds, j) ||
     (GoesOn(buf, ds, j) && Alternate(buf, Pos(ds, RunEnd(ds, j + 1))) && CutIn(buf, ds, RunEnd(ds, j + 1))))
  }

  /** The next setting has been counted. */
  lemma {:induction false} NextCounted(buf: seq<Byte>, ds: seq<seq<Byte>>, fno: nat, j: nat, k: nat)
    requires Holds(buf, ds) && j < k < |ds| && NoInterface(ds, j + 1, k) && ds[k][1] == INTERFACE &&
             Continues(buf, ds, j + 1, fno)
    ensures At(buf, Pos(ds, k) + 1) == INTERFACE && Continues(buf, ds, k + 1, At(buf, Pos(ds, k) + 2))
    ensures Alternate(buf, Pos(ds, k)) ==>
              At(buf, Pos(ds, k) + 2) == fno && CountSame(buf, ds, j + 1, fno) == 1 + CountSame(buf, ds, k + 1, fno)
  {
    DescAt(buf, ds, k);
    CountBehind(buf, ds, fno, j + 1, k);
    ContinuesBehind(buf, ds, fno, j + 1, k);
  }

  lemma {:induction false} ChainedFault(all: Parsed<seq<Altsetting>>, p: Parsed<AltStep>, rest: Parsed<seq<Altsetting>>)
    requires Chained(all, p, rest)
    ensures all.Fault? <==> p.Fault? || (p.Ok? && p.value.more && rest.Fault?)
  {
  }

  /** One pass of the loop: whether and where it goes on, and with what result. */
  lemma {:induction false} PassInside(buf: seq<Byte>, ds: seq<seq<Byte>>, fno: nat, j: nat, room: nat,
                                      p: Parsed<seq<Altsetting>>)
    returns (more: bool, e: nat, rest: Parsed<seq<Altsetting>>)
    requires Holds(buf, ds) && j < |ds| && Continues(buf, ds, j + 1, fno) && room > 0
    requires Pos(ds, j) + INTERFACE_SIZE <= |buf| && p == ParseAlts(buf, Pos(ds, j), room)
    ensures p.Fault? <==> (room == 1 && CutShort(buf, ds, j)) || (more && rest.Fault?)
    ensures more ==> j < e < |ds| && Pos(ds, e) <= |buf| && rest == ParseAlts(buf, Pos(ds, e), room - 1) &&
                     Continues(buf, ds, e + 1, fno) &&
                     CountSame(buf, ds, j + 1, fno) == 1 + CountSame(buf, ds, e + 1, fno)
    ensures CutIn(buf, ds, j) <==> CutShort(buf, ds, j) || (more && CutIn(buf, ds, e))
  {
    var alt;
    alt, e := AltExact(buf, ds, j, room == 1);
    rest := AltsChained(buf, Pos(ds, j), room, p, alt);
    ChainedFault(p, alt, rest);
    CutInUnfolds(buf, ds, j, room == 1, alt, e);
    more := alt.Ok? && alt.value.more;
    if more {
      PassGoesOn(buf, ds, fno, j, e);
    }
  }

  lemma PassGoesOn(buf: seq<Byte>, ds: seq<seq<Byte>>, fno: nat, j: nat, e: nat)
    requires Holds(buf, ds) && j < e <= |ds| && Continues(buf, ds, j + 1, fno)
    requires Alternate(buf, Pos(ds, e)) && (e < |ds| && ds[e][1] == INTERFACE ==> e == RunEnd(ds, j + 1))
    ensures e < |ds| && Continues(buf, ds, e + 1, fno)
    ensures CountSame(buf, ds, j + 1, fno) == 1 + CountSame(buf, ds, e + 1, fno)
  {
    MoreGoesOn(buf, ds, j, e);
    NoneInRun(ds, j + 1);
    NextCounted(buf, ds, fno, j, e);
  }

  /** One pass fails with the slots counted exactly when it or the rest is cut short. */
  lemma PassCounted(fault: bool, room: nat, count: nat, short: bool, more: bool, later: nat, cut: bool,
                    restFault: bool, all: bool)
    requires fault <==> (room == 1 && short) || (more && restFault)
    requires room > count && (short ==> count == 0) &&
             (more ==> count == 1 + later && (restFault <==> room == 2 + later && cut))
    requires all <==> short || (more && cut)
    ensures fault <==> room == 1 + count && all
  {
  }

  /** With the slots counted, the settings of one interface leave the memory only when the last is cut short. */
  lemma {:induction false} AltsInside(buf: seq<Byte>, ds: seq<seq<Byte>>, fno: nat, j: nat, room: nat,
                                      p: Parsed<seq<Altsetting>>)
    requires Holds(buf, ds) && j < |ds| && Continues(buf, ds, j + 1, fno) && room > CountSame(buf, ds, j + 1, fno)
    requires Pos(ds, j) <= |buf| && p == ParseAlts(buf, Pos(ds, j), room)
    ensures p.Fault? <==> room == 1 + CountSame(buf, ds, j + 1, fno) && CutIn(buf, ds, j)
    decreases room
  {
    if Pos(ds, j) + INTERFACE_SIZE <= |buf| {
      CutCounted(buf, ds, fno, j);
      var more, e, rest := PassInside(buf, ds, fno, j, room, p);
      if more {
        AltsInside(buf, ds, fno, e, room - 1, rest);
        PassCounted(p.Fault?, room, CountSame(buf, ds, j + 1, fno), CutShort(buf, ds, j), true,
                    CountSame(buf, ds, e + 1, fno), CutIn(buf, ds, e), rest.Fault?, CutIn(buf, ds, j));
      } else {
        PassCounted(p.Fault?, room, CountSame(buf, ds, j + 1, fno), CutShort(buf, ds, j), false, 0, false, false,
                    CutIn(buf, ds, j));
      }
    }
  }

  lemma {:induction false} CutInUnfolds(buf: seq<Byte>, ds: seq<seq<Byte>>, j: nat, last: bool, p: Parsed<AltStep>,
                                        e: nat)
    requires Holds(buf, ds) && j < |ds| && Pos(ds, j) + INTERFACE_SIZE <= |buf| && AltEnd(buf, ds, j, last, p, e)
    ensures CutIn(buf, ds, j) <==> CutShort(buf, ds, j) || (p.Ok? && p.value.more && e < |ds| && CutIn(buf, ds, e))
  {
    if p.Ok? && p.value.more {
      MoreGoesOn(buf, ds, j, e);
    }
  }

  /** A setting that is cut short is the last one counted. */
  lemma {:induction false} CutCounted(buf: seq<Byte>, ds: seq<seq<Byte>>, fno: nat, j: nat)
    requires Holds(buf, ds) && j < |ds|
    ensures CutShort(buf, ds, j) ==> CountSame(buf, ds, j + 1, fno) == 0
  {
    if CutShort(buf, ds, j) {
      NoneInRun(ds, j + 1);
      CountBehind(buf, ds, fno, j + 1, |ds|);
    }
  }

  /** The settings filled never exceed the slots counted, and only a setting that is cut short leaves the memory. The
      count is kept in one byte, though: an interface that would be parsed with all of its slots is parsed if and
      only if its settings do not exceed the truncated count. */
  lemma {:induction false} SlotsSuffice(buf: seq<Byte>, ds: seq<seq<Byte>>, fno: int, j: nat)
    returns (p: Parsed<seq<Altsetting>>)
    requires HoldsShort(buf, ds) && j < |ds| && ds[j][1] == INTERFACE && Continues(buf, ds, j, fno)
    ensures var pos := Pos(ds, j);
            var counted := 1 + CountSame(buf, ds, j + 1, At(buf, pos + 2));
            pos < |buf| && p == ParseAlts(buf, pos, counted) && (p.Fault? <==> CutIn(buf, ds, j)) &&
            (counted <= 255 ==> ParseInterface(buf, pos) == AsInterface(p)) &&
            (p.Ok? ==> ParseInterface(buf, pos) == if |p.value| <= counted % 256 then AsInterface(p) else Fault)
  {
    DescAt(buf, ds, j);
    var pos := Pos(ds, j);
    var number := At(buf, pos + 2);
    var counted := 1 + CountSame(buf, ds, j + 1, number);
    p := ParseAlts(buf, pos, counted);
    AltsInside(buf, ds, number, j, counted, p);
    LaterAltsCounts(buf, ds, j, number);
    SlotsTruncated(buf, pos, counted, p);
  }

  /** At most 255 alternate settings for each number: then the count fits in its byte. */
  ghost predicate CountsFit(buf: seq<Byte>, ds: seq<seq<Byte>>, j: nat)
    requires j <= |ds|
  {
    forall f :: CountSame(buf, ds, j, f) <= 255
  }

  /** The interfaces from the interface descriptor `j` on, with `left` more to come, go on to a setting that is cut
      short. */
  predicate CutFrom(buf: seq<Byte>, ds: seq<seq<Byte>>, j: nat, left: nat)
    requires AllDescs(ds) && j < |ds|
    decreases |ds| - j
  {
    Pos(ds, j) + INTERFACE_SIZE <= |buf| &&
    (CutShort(buf, ds, j) ||
     (GoesOn(buf, ds, j) &&
      var k := RunEnd(ds, j + 1);
      if Alternate(buf, Pos(ds, k)) then CutFrom(buf, ds, k, left) else left > 0 && CutFrom(buf, ds, k, left - 1)))
  }

  /** Then it never runs out of slots. */
  lemma {:induction false} OutsideIsCut(buf: seq<Byte>, ds: seq<seq<Byte>>, j: nat, fno: nat, slots: nat, left: nat)
    requires Holds(buf, ds) && j < |ds| && Continues(buf, ds, j + 1, fno) && CountsFit(buf, ds, j + 1)
    requires slots == 1 + CountSame(buf, ds, j + 1, fno)
    ensures Outside(buf, ds, j, slots, left, true) <==> CutFrom(buf, ds, j, left)
    decreases |ds| - j
  {
    CutCounted(buf, ds, fno, j);
    if GoesOn(buf, ds, j) {
      var k := RunEnd(ds, j + 1);
      NoneInRun(ds, j + 1);
      NextCounted(buf, ds, fno, j, k);
      FitsLater(buf, ds, j + 1, k);
      var number := At(buf, Pos(ds, k) + 2);
      if Alternate(buf, Pos(ds, k)) {
        OutsideIsCut(buf, ds, k, number, slots - 1, left);
      } else if left > 0 {
        OutsideIsCut(buf, ds, k, number, Counted(buf, ds, k), left - 1);
      }
    }
  }

  lemma {:induction false} FitsLater(buf: seq<Byte>, ds: seq<seq<Byte>>, j: nat, k: nat)
    requires j <= k < |ds| && CountsFit(buf, ds, j) && At(buf, Pos(ds, k) + 1) == INTERFACE
    ensures CountsFit(buf, ds, k + 1) && Counted(buf, ds, k) == 1 + CountSame(buf, ds, k + 1, At(buf, Pos(ds, k) + 2))
  {
    CountLater(buf, ds, j, k);
    var next := k + 1;
    forall f ensures CountSame(buf, ds, next, f) <= 255 {
      assert CountSame(buf, ds, j, f) <= 255;
      CountBelow(buf, ds, j, next, f);
    }
  }

  lemma {:induction false} CountLater(buf: seq<Byte>, ds: seq<seq<Byte>>, j: nat, k: nat)
    requires j <= k < |ds| && CountsFit(buf, ds, j) && At(buf, Pos(ds, k) + 1) == INTERFACE
    ensures CountSame(buf, ds, k + 1, At(buf, Pos(ds, k) + 2)) < 255
    decreases k - j
  {
    var number := At(buf, Pos(ds, k) + 2);
    assert CountSame(buf, ds, j, number) <= 255;
    CountBelow(buf, ds, j, k, number);
  }

  lemma {:induction false} CountBelow(buf: seq<Byte>, ds: seq<seq<Byte>>, j: nat, k: nat, fno: int)
    requires j <= k <= |ds|
    ensures CountSame(buf, ds, k, fno) <= CountSame(buf, ds, j, fno)
    decreases k - j
  {
    if j < k {
      CountBelow(buf, ds, j + 1, k, fno);
    }
  }

  lemma {:induction false} OutsideFromStart(buf: seq<Byte>, ds: seq<seq<Byte>>, j: nat, left: nat)
    requires Holds(buf, ds) && 1 <= j < |ds| && ds[j][1] == INTERFACE && NoInterface(ds, 1, j)
    requires Continues(buf, ds, 1, -1) && CountsFit(buf, ds, 1)
    ensures Outside(buf, ds, j, Counted(buf, ds, j), left, true) <==> CutFrom(buf, ds, j, left)
  {
    DescAt(buf, ds, j);
    ContinuesBehind(buf, ds, -1, 1, j);
    FitsLater(buf, ds, 1, j);
    OutsideIsCut(buf, ds, j, At(buf, Pos(ds, j) + 2), Counted(buf, ds, j), left);
  }

  /** Where alternate settings continue their interface and no number has more than 255, the parser leaves its memory
      if and only if it comes to an interface descriptor whose endpoints are cut short by the end of the buffer. */
  lemma {:induction false} ParserStaysInside(buf: seq<Byte>, ds: seq<seq<Byte>>)
    requires HoldsShort(buf, ds) && ds != [] && Continues(buf, ds, 1, -1) && CountsFit(buf, ds, 1)
    ensures var j, n := ExtrasEnd(ds, 1), ConfigOf(buf).bNumInterfaces;
            ParseConfiguration(buf).Faulted? <==>
            0 < n <= MAX_INTERFACES && j < |ds| && ds[j][1] == INTERFACE && CutFrom(buf, ds, j, n - 1)
  {
    var j, n := ExtrasEnd(ds, 1), ConfigOf(buf).bNumInterfaces;
    var k := FaultsIff(buf, ds);
    if n > 0 && j < |ds| && ds[j][1] == INTERFACE {
      NoneInExtras(ds, 1);
      OutsideFromStart(buf, ds, j, n - 1);
    }
  }

  /** In particular it stays inside when every interface descriptor is followed by the endpoints it announces. */
  lemma {:induction false} EndpointsThere(buf: seq<Byte>, ds: seq<seq<Byte>>)
    requires HoldsShort(buf, ds) && ds != [] && Continues(buf, ds, 1, -1) && CountsFit(buf, ds, 1)
    requires forall j :: 1 <= j < |ds| && ds[j][1] == INTERFACE ==> !CutShort(buf, ds, j)
    ensures !ParseConfiguration(buf).Faulted?
  {
    ParserStaysInside(buf, ds);
    var j, n := ExtrasEnd(ds, 1), ConfigOf(buf).bNumInterfaces;
    if n > 0 && j < |ds| && ds[j][1] == INTERFACE {
      NeverCut(buf, ds, j, n - 1);
    }
  }

  lemma {:induction false} NeverCut(buf: seq<Byte>, ds: seq<seq<Byte>>, j: nat, left: nat)
    requires AllDescs(ds) && j < |ds| && ds[j][1] == INTERFACE
    requires forall i :: j <= i < |ds| && ds[i][1] == INTERFACE ==> !CutShort(buf, ds, i)
    ensures !CutFrom(buf, ds, j, left)
    decreases |ds| - j
  {
    if GoesOn(buf, ds, j) {
      var k := RunEnd(ds, j + 1);
      NeverCut(buf, ds, k, left);
      if left > 0 {
        NeverCut(buf, ds, k, left - 1);
      }
    }
  }

  /** A configuration that ends with an interface descriptor announcing one endpoint leaves it: descriptors all
      well-formed, one setting, one slot. */
  lemma {:induction false} MissingEndpoint() returns (buf: seq<Byte>, ds: seq<seq<Byte>>)
    ensures HoldsShort(buf, ds) && |ds| == 2 && Continues(buf, ds, 1, -1) && CountsFit(buf, ds, 1)
    ensures ParseConfiguration(buf).Faulted?
  {
    buf, ds := ConfigAndInterface();
    OneInterface(buf, ds);
    DescAt(buf, ds, 0);
    assert ConfigOf(buf).bNumInterfaces == 1;
    ParserStaysInside(buf, ds);
  }

  lemma {:induction false} ConfigAndInterface() returns (buf: seq<Byte>, ds: seq<seq<Byte>>)
    ensures ds == [[9, CONFIG, 18, 0, 1, 1, 0, 0, 0], [9, INTERFACE, 0, 0, 1, 0, 0, 0, 0]] && buf == ds[0] + ds[1]
    ensures HoldsShort(buf, ds) && Pos(ds, 1) == 9 && |buf| == 18
  {
    var config: seq<Byte>, ifc: seq<Byte> := [9, CONFIG, 18, 0, 1, 1, 0, 0, 0], [9, INTERFACE, 0, 0, 1, 0, 0, 0, 0];
    ds := [config, ifc];
    buf := config + ifc;
    TwoHold(config, ifc, ds);
  }

  lemma TwoHold(a: seq<Byte>, b: seq<Byte>, ds: seq<seq<Byte>>)
    requires IsDesc(a) && IsDesc(b) && ds == [a, b]
    ensures Holds(a + b, ds) && Pos(ds, 1) == |a|
  {
    assert Pos(ds, 0) == 0 && Pos(ds, 1) == |a| && Pos(ds, 2) == |a| + |b|;
    assert (a + b)[0..|a|] == a && (a + b)[|a|..|a| + |b|] == b;
    assert HoldsAt(a + b, ds, 0) && HoldsAt(a + b, ds, 1);
  }

  lemma {:induction false} OneInterface(buf: seq<Byte>, ds: seq<seq<Byte>>)
    requires ds == [[9, CONFIG, 18, 0, 1, 1, 0, 0, 0], [9, INTERFACE, 0, 0, 1, 0, 0, 0, 0]] && Holds(buf, ds) &&
             Pos(ds, 1) == 9 && |buf| == 18
    ensures Continues(buf, ds, 1, -1) && CountsFit(buf, ds, 1) && CutFrom(buf, ds, 1, 0) && ExtrasEnd(ds, 1) == 1
  {
    DescBytes(buf, ds, 1);
    assert ds[1][1] == INTERFACE && ds[1][3] == 0 && ds[1][4] == 1;
    assert Continues(buf, ds, 2, 0);
    assert forall f :: CountSame(buf, ds, 2, f) == 0;
    assert forall f :: CountSame(buf, ds, 1, f) <= 1;
    assert RunEnd(ds, 2) == 2;
    assert CutShort(buf, ds, 1);
  }
}
