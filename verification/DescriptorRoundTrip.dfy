/** Parsing what a device prints gives back its configuration, exactly when the slots counted for the
    alternate settings of every interface survive being kept in one byte. */
module DescriptorRoundTrip {
  import opened Lists
  import opened Descriptors
  import opened DescriptorParser
  import opened AltsettingSlots

  ghost predicate SubIndex(ds: seq<seq<Byte>>, j: nat, xs: seq<seq<Byte>>, i: nat) {
    i < |xs| && j + i < |ds| && ds[j + i] == xs[i]
  }

  /** The descriptors `xs` are those from `j` on. */
  ghost predicate Sub(ds: seq<seq<Byte>>, j: nat, xs: seq<seq<Byte>>) {
    j + |xs| <= |ds| && forall i :: 0 <= i < |xs| ==> SubIndex(ds, j, xs, i)
  }

  lemma SubParts(ds: seq<seq<Byte>>, j: nat, a: seq<seq<Byte>>, b: seq<seq<Byte>>)
    requires Sub(ds, j, a + b)
    ensures Sub(ds, j, a) && Sub(ds, j + |a|, b)
  {
    forall i | 0 <= i < |a| ensures SubIndex(ds, j, a, i) {
      assert SubIndex(ds, j, a + b, i);
    }
    var k := j + |a|;
    forall i | 0 <= i < |b| ensures SubIndex(ds, k, b, i) {
      assert SubIndex(ds, j, a + b, |a| + i);
    }
  }

  lemma SubAt(ds: seq<seq<Byte>>, j: nat, xs: seq<seq<Byte>>, i: nat)
    requires Sub(ds, j, xs) && i < |xs|
    ensures ds[j + i] == xs[i]
  {
    assert SubIndex(ds, j, xs, i);
  }

  // ----- The descriptors of each part -----

  predicate GoodDescs(ds: seq<seq<Byte>>) {
    forall i :: 0 <= i < |ds| ==> IsDesc(ds[i]) && Short(ds[i])
  }

  lemma {:induction false} EndpointDescsGood(eps: seq<RawEndpoint>)
    requires GoodEndpoints(eps)
    ensures var ds := EndpointDescs(eps);
            GoodDescs(ds) && (forall i :: 0 <= i < |ds| ==> ds[i][1] != INTERFACE) &&
            (eps != [] ==> ds != [] && ds[0][1] == ENDPOINT) && (eps == [] ==> ds == [])
  {
    if eps != [] {
      assert GoodEndpoint(eps[0]);
      EndpointDescsGood(eps[1..]);
    }
  }

  lemma {:induction false} AltDescsGood(alts: seq<RawAltsetting>)
    requires forall i :: 0 <= i < |alts| ==> GoodAlt(alts[i])
    ensures GoodDescs(AltDescs(alts))
    ensures alts != [] ==> AltDescs(alts) != [] && AltDescs(alts)[0] == alts[0].raw
  {
    if alts != [] {
      EndpointDescsGood(alts[0].endpoints);
      AltDescsGood(alts[1..]);
    }
  }

  lemma {:induction false} InterfaceDescsGood(ifcs: seq<seq<RawAltsetting>>)
    requires GoodInterfaces(ifcs)
    ensures GoodDescs(InterfaceDescs(ifcs))
    ensures ifcs != [] ==> InterfaceDescs(ifcs) != [] && ifcs[0] != [] && InterfaceDescs(ifcs)[0] == ifcs[0][0].raw
  {
    if ifcs != [] {
      AltDescsGood(ifcs[0]);
      InterfaceDescsGood(ifcs[1..]);
    }
  }

  // ----- Parsing them -----

  /** A run of class or vendor specific descriptors ends at `k`. */
  predicate Stops(ds: seq<seq<Byte>>, k: nat) {
    k <= |ds| && (k < |ds| ==> |ds[k]| >= 2 && Proper(ds[k][1]))
  }

  lemma {:induction false} SkipRun(buf: seq<Byte>, ds: seq<seq<Byte>>, j: nat, extras: seq<seq<Byte>>, checked: bool)
    requires Holds(buf, ds) && Sub(ds, j, extras) && GoodExtras(extras) && Stops(ds, j + |extras|) &&
             Pos(ds, j) <= |buf|
    ensures SkipExtras(buf, Pos(ds, j), checked) == Skipped(Pos(ds, j + |extras|))
    ensures Pos(ds, j) <= Pos(ds, j + |extras|) <= |buf| && buf[Pos(ds, j)..Pos(ds, j + |extras|)] == Flat(extras)
  {
    Between(buf, ds, j, j + |extras|);
    forall i | 0 <= i < |extras| ensures ds[j..j + |extras|][i] == extras[i] {
      SubAt(ds, j, extras, i);
    }
    assert ds[j..j + |extras|] == extras;
    SkipTo(buf, ds, j, extras, 0, checked);
  }

  lemma {:induction false} SkipTo(buf: seq<Byte>, ds: seq<seq<Byte>>, j: nat, extras: seq<seq<Byte>>, i: nat,
                                  checked: bool)
    requires Holds(buf, ds) && Sub(ds, j, extras) && GoodExtras(extras) && Stops(ds, j + |extras|)
    requires i <= |extras| && Pos(ds, j + i) <= |buf|
    ensures SkipExtras(buf, Pos(ds, j + i), checked) == Skipped(Pos(ds, j + |extras|))
    decreases |extras| - i
  {
    PosAtEnd(buf, ds);
    if j + i < |ds| {
      DescAt(buf, ds, j + i);
      if i < |extras| {
        SubAt(ds, j, extras, i);
        SkipTo(buf, ds, j, extras, i + 1, checked);
      }
    }
  }

  lemma EndpointFields(buf: seq<Byte>, ds: seq<seq<Byte>>, j: nat)
    requires Holds(buf, ds) && j < |ds| && |ds[j]| >= ENDPOINT_SIZE
    ensures EndpointOf(buf, Pos(ds, j)) == EndpointOf(ds[j], 0)
  {
    DescBytes(buf, ds, j);
  }

  lemma InterfaceFields(buf: seq<Byte>, ds: seq<seq<Byte>>, j: nat)
    requires Holds(buf, ds) && j < |ds| && |ds[j]| >= INTERFACE_SIZE
    ensures InterfaceOf(buf, Pos(ds, j)) == InterfaceOf(ds[j], 0)
  {
    DescBytes(buf, ds, j);
  }

  lemma EndpointLaid(ds: seq<seq<Byte>>, j: nat, e: RawEndpoint)
    requires Sub(ds, j, [e.raw] + e.extras)
    ensures j < |ds| && ds[j] == e.raw && Sub(ds, j + 1, e.extras)
  {
    SubParts(ds, j, [e.raw], e.extras);
    SubAt(ds, j, [e.raw], 0);
  }

  lemma EndpointIs(buf: seq<Byte>, pos: nat, end: nat)
    requires pos + 2 <= |buf| && pos + buf[pos] <= |buf| && buf[pos + 1] == ENDPOINT && buf[pos] >= ENDPOINT_SIZE
    requires SkipExtras(buf, pos + buf[pos], false) == Skipped(end)
    ensures ParseEndpoint(buf, pos) == Ok(Endpoint(EndpointOf(buf, pos), buf[pos + buf[pos]..end]), end)
  {
  }

  lemma {:induction false} EndpointParsed(buf: seq<Byte>, ds: seq<seq<Byte>>, j: nat, e: RawEndpoint)
    requires Holds(buf, ds) && GoodEndpoint(e) && Stops(ds, j + 1 + |e.extras|)
    requires j < |ds| && ds[j] == e.raw && Sub(ds, j + 1, e.extras)
    ensures Pos(ds, j) <= |buf| && ParseEndpoint(buf, Pos(ds, j)) == Ok(TreeOfEndpoint(e), Pos(ds, j + 1 + |e.extras|))
  {
    DescAt(buf, ds, j);
    EndpointFields(buf, ds, j);
    SkipRun(buf, ds, j + 1, e.extras, false);
    EndpointIs(buf, Pos(ds, j), Pos(ds, j + 1 + |e.extras|));
  }

  /** Where the rest of the endpoints starts, and that it stops there. */
  lemma EndpointsLaid(ds: seq<seq<Byte>>, j: nat, eps: seq<RawEndpoint>) returns (k: nat)
    requires GoodEndpoints(eps) && eps != [] && Sub(ds, j, EndpointDescs(eps)) && Stops(ds, j + |EndpointDescs(eps)|)
    ensures j < |ds| && ds[j] == eps[0].raw && Sub(ds, j + 1, eps[0].extras) && k == j + 1 + |eps[0].extras|
    ensures Sub(ds, k, EndpointDescs(eps[1..])) && k + |EndpointDescs(eps[1..])| == j + |EndpointDescs(eps)| &&
            Stops(ds, k)
  {
    var rest := EndpointDescs(eps[1..]);
    k := j + 1 + |eps[0].extras|;
    SubParts(ds, j, [eps[0].raw] + eps[0].extras, rest);
    EndpointLaid(ds, j, eps[0]);
    EndpointsStop(ds, k, eps[1..]);
  }

  lemma EndpointsStop(ds: seq<seq<Byte>>, k: nat, eps: seq<RawEndpoint>)
    requires GoodEndpoints(eps) && Sub(ds, k, EndpointDescs(eps)) && Stops(ds, k + |EndpointDescs(eps)|)
    ensures Stops(ds, k)
  {
    if eps != [] {
      assert GoodEndpoint(eps[0]) && EndpointDescs(eps)[0] == eps[0].raw;
      SubAt(ds, k, EndpointDescs(eps), 0);
    }
  }

  lemma EndpointsMore(buf: seq<Byte>, pos: nat, n: nat, ep: Endpoint, next: nat, eps: seq<Endpoint>, end: nat)
    requires pos <= |buf| && n > 0 && ParseEndpoint(buf, pos) == Ok(ep, next) &&
             ParseEndpoints(buf, next, n - 1) == Ok(eps, end)
    ensures ParseEndpoints(buf, pos, n) == Ok([ep] + eps, end)
  {
  }

  lemma {:induction false} EndpointsParsed(buf: seq<Byte>, ds: seq<seq<Byte>>, j: nat, eps: seq<RawEndpoint>, n: nat,
                                           k: nat)
    requires Holds(buf, ds) && GoodEndpoints(eps) && Sub(ds, j, EndpointDescs(eps)) && Pos(ds, j) <= |buf|
    requires Stops(ds, k) && k == j + |EndpointDescs(eps)| && n == |eps|
    ensures ParseEndpoints(buf, Pos(ds, j), n) == Ok(TreeOfEndpoints(eps), Pos(ds, k))
    decreases n
  {
    if eps != [] {
      var next := EndpointsLaid(ds, j, eps);
      EndpointParsed(buf, ds, j, eps[0]);
      EndpointsParsed(buf, ds, next, eps[1..], n - 1, k);
      EndpointsMore(buf, Pos(ds, j), n, TreeOfEndpoint(eps[0]), Pos(ds, next), TreeOfEndpoints(eps[1..]), Pos(ds, k));
    }
  }

  /** The next interface descriptor, or the end, at `k`. */
  predicate AtInterface(ds: seq<seq<Byte>>, k: nat) {
    k <= |ds| && (k < |ds| ==> |ds[k]| >= INTERFACE_SIZE && ds[k][1] == INTERFACE)
  }

  lemma AltLaid(ds: seq<seq<Byte>>, j: nat, a: RawAltsetting) returns (m: nat, k: nat)
    requires GoodAlt(a) && Sub(ds, j, OneAltDescs(a)) && AtInterface(ds, j + |OneAltDescs(a)|)
    ensures j < |ds| && ds[j] == a.raw && Sub(ds, j + 1, a.extras) && m == j + 1 + |a.extras|
    ensures Sub(ds, m, EndpointDescs(a.endpoints)) && k == m + |EndpointDescs(a.endpoints)| == j + |OneAltDescs(a)|
    ensures Stops(ds, m) && (m < |ds| ==> ds[m][1] == ENDPOINT || ds[m][1] == INTERFACE)
  {
    var eps := EndpointDescs(a.endpoints);
    m := j + 1 + |a.extras|;
    k := m + |eps|;
    SubParts(ds, j, [a.raw] + a.extras, eps);
    SubParts(ds, j, [a.raw], a.extras);
    SubAt(ds, j, [a.raw], 0);
    EndpointDescsGood(a.endpoints);
    if eps != [] {
      SubAt(ds, m, eps, 0);
    }
  }

  /** Another alternate setting at `k`. */
  predicate AltAt(ds: seq<seq<Byte>>, k: nat) {
    k < |ds| && |ds[k]| >= INTERFACE_SIZE && ds[k][1] == INTERFACE && ds[k][3] != 0
  }

  lemma AlternateAt(buf: seq<Byte>, ds: seq<seq<Byte>>, k: nat)
    requires Holds(buf, ds) && AtInterface(ds, k)
    ensures Alternate(buf, Pos(ds, k)) <==> AltAt(ds, k)
  {
    PosAtEnd(buf, ds);
    if k < |ds| {
      DescAt(buf, ds, k);
      DescBytes(buf, ds, k);
    }
  }

  lemma BehindParsed(buf: seq<Byte>, ds: seq<seq<Byte>>, m: nat, k: nat, a: RawAltsetting, last: bool)
    requires Holds(buf, ds) && GoodAlt(a) && Sub(ds, m, EndpointDescs(a.endpoints)) &&
             k == m + |EndpointDescs(a.endpoints)|
    requires Pos(ds, m) <= |buf| && Stops(ds, m) && (m < |ds| ==> ds[m][1] == ENDPOINT || ds[m][1] == INTERFACE)
    requires AtInterface(ds, k)
    ensures ParseBehind(buf, Pos(ds, m), InterfaceOf(a.raw, 0), Flat(a.extras), last) ==
            Ok(AltStep(TreeOfAlt(a), AltAt(ds, k)), Pos(ds, k))
  {
    EndpointsParsed(buf, ds, m, a.endpoints, a.raw[4], k);
    AlternateAt(buf, ds, k);
    PosAtEnd(buf, ds);
    if m < |ds| {
      DescAt(buf, ds, m);
    }
  }

  lemma AltIs(buf: seq<Byte>, pos: nat, end: nat, last: bool)
    requires pos + INTERFACE_SIZE <= |buf| && pos + buf[pos] <= end <= |buf|
    requires SkipExtras(buf, pos + buf[pos], false) == Skipped(end)
    ensures ParseAlt(buf, pos, last) == ParseBehind(buf, end, InterfaceOf(buf, pos), buf[pos + buf[pos]..end], last)
  {
  }

  lemma {:induction false} AltParsed(buf: seq<Byte>, ds: seq<seq<Byte>>, j: nat, a: RawAltsetting, last: bool)
    returns (k: nat)
    requires Holds(buf, ds) && GoodAlt(a) && Sub(ds, j, OneAltDescs(a)) && AtInterface(ds, j + |OneAltDescs(a)|)
    ensures k == j + |OneAltDescs(a)| && j < |ds| && ds[j] == a.raw && Pos(ds, j) + INTERFACE_SIZE <= |buf|
    ensures ParseAlt(buf, Pos(ds, j), last) == Ok(AltStep(TreeOfAlt(a), AltAt(ds, k)), Pos(ds, k))
  {
    var m;
    m, k := AltLaid(ds, j, a);
    DescAt(buf, ds, j);
    InterfaceFields(buf, ds, j);
    SkipRun(buf, ds, j + 1, a.extras, false);
    AltIs(buf, Pos(ds, j), Pos(ds, m), last);
    BehindParsed(buf, ds, m, k, a, last);
  }

  /** Alternate settings of one interface, from the second on. */
  predicate GoodAlts(alts: seq<RawAltsetting>) {
    (forall i :: 0 <= i < |alts| ==> GoodAlt(alts[i])) && forall i :: 1 <= i < |alts| ==> alts[i].raw[3] != 0
  }

  lemma AltsLaid(ds: seq<seq<Byte>>, j: nat, alts: seq<RawAltsetting>) returns (m: nat)
    requires GoodAlts(alts) && alts != [] && Sub(ds, j, AltDescs(alts)) && AtInterface(ds, j + |AltDescs(alts)|)
    ensures m == j + |OneAltDescs(alts[0])| && Sub(ds, j, OneAltDescs(alts[0])) && Sub(ds, m, AltDescs(alts[1..]))
    ensures m + |AltDescs(alts[1..])| == j + |AltDescs(alts)| && AtInterface(ds, m)
    ensures |alts| > 1 ==> AltAt(ds, m)
    ensures |alts| == 1 ==> AltDescs(alts[1..]) == []
  {
    m := AltsSplit(ds, j, alts);
    if |alts| > 1 {
      AltStarts(ds, m, alts[1..]);
    }
  }

  lemma AltsSplit(ds: seq<seq<Byte>>, j: nat, alts: seq<RawAltsetting>) returns (m: nat)
    requires alts != [] && Sub(ds, j, AltDescs(alts))
    ensures m == j + |OneAltDescs(alts[0])| && Sub(ds, j, OneAltDescs(alts[0])) && Sub(ds, m, AltDescs(alts[1..]))
    ensures m + |AltDescs(alts[1..])| == j + |AltDescs(alts)|
  {
    FirstAltDescs(alts);
    m := Split(ds, j, AltDescs(alts), OneAltDescs(alts[0]), AltDescs(alts[1..]));
  }

  lemma FirstAltDescs(alts: seq<RawAltsetting>)
    requires alts != []
    ensures AltDescs(alts) == OneAltDescs(alts[0]) + AltDescs(alts[1..])
  {
  }

  lemma Split(ds: seq<seq<Byte>>, j: nat, all: seq<seq<Byte>>, a: seq<seq<Byte>>, b: seq<seq<Byte>>) returns (m: nat)
    requires Sub(ds, j, all) && all == a + b
    ensures m == j + |a| && Sub(ds, j, a) && Sub(ds, m, b) && m + |b| == j + |all|
  {
    SubParts(ds, j, a, b);
    m := j + |a|;
  }

  lemma AltStarts(ds: seq<seq<Byte>>, j: nat, alts: seq<RawAltsetting>)
    requires alts != [] && GoodAlt(alts[0]) && Sub(ds, j, AltDescs(alts))
    ensures j < |ds| && ds[j] == alts[0].raw
  {
    assert AltDescs(alts)[0] == alts[0].raw;
    SubAt(ds, j, AltDescs(alts), 0);
  }

  /** One pass of the loop gives `alt`, whatever the slot, and ends at `next`. */
  ghost predicate Pass(buf: seq<Byte>, pos: nat, alt: Altsetting, more: bool, next: nat) {
    pos + INTERFACE_SIZE <= |buf| && next <= |buf| &&
    forall last :: ParseAlt(buf, pos, last) == Ok(AltStep(alt, more), next)
  }

  /** The passes of the loop from `pos` on give `alts` and end at `end`. */
  ghost predicate Passes(buf: seq<Byte>, pos: nat, alts: seq<Altsetting>, end: nat)
    decreases |alts|
  {
    alts != [] &&
    if |alts| == 1 then Pass(buf, pos, alts[0], false, end)
    else exists next: nat :: Pass(buf, pos, alts[0], true, next) && Passes(buf, next, alts[1..], end)
  }

  lemma FirstPass(buf: seq<Byte>, ds: seq<seq<Byte>>, j: nat, alts: seq<RawAltsetting>, k: nat) returns (m: nat)
    requires Holds(buf, ds) && GoodAlts(alts) && alts != [] && Sub(ds, j, AltDescs(alts))
    requires k == j + |AltDescs(alts)| && AtInterface(ds, k) && !AltAt(ds, k)
    ensures j < |ds| && m <= |ds| && Pass(buf, Pos(ds, j), TreeOfAlt(alts[0]), |alts| > 1, Pos(ds, m))
    ensures GoodAlts(alts[1..]) && Sub(ds, m, AltDescs(alts[1..])) && m + |AltDescs(alts[1..])| == k
    ensures |alts| == 1 ==> m == k
  {
    m := AltsLaid(ds, j, alts);
    OnePass(buf, ds, j, alts[0], m);
  }

  lemma OnePass(buf: seq<Byte>, ds: seq<seq<Byte>>, j: nat, a: RawAltsetting, m: nat)
    requires Holds(buf, ds) && GoodAlt(a) && Sub(ds, j, OneAltDescs(a)) && m == j + |OneAltDescs(a)| &&
             AtInterface(ds, m)
    ensures j < |ds| && Pass(buf, Pos(ds, j), TreeOfAlt(a), AltAt(ds, m), Pos(ds, m))
  {
    var more, pos, next := AltAt(ds, m), Pos(ds, j), Pos(ds, m);
    var k := AltParsed(buf, ds, j, a, true);
    forall last ensures ParseAlt(buf, pos, last) == Ok(AltStep(TreeOfAlt(a), more), next) {
      var k' := AltParsed(buf, ds, j, a, last);
    }
    Within(buf, pos, true);
  }

  lemma Within(buf: seq<Byte>, pos: nat, last: bool)
    requires pos + INTERFACE_SIZE <= |buf| && ParseAlt(buf, pos, last).Ok?
    ensures ParseAlt(buf, pos, last).end <= |buf|
  {
  }

  lemma TreesMore(alts: seq<RawAltsetting>)
    requires alts != []
    ensures TreeOfAlts(alts) == [TreeOfAlt(alts[0])] + TreeOfAlts(alts[1..]) && |TreeOfAlts(alts[1..])| == |alts| - 1
  {
    TreesOfAlts(alts[1..]);
  }

  lemma {:induction false} TreesOfAlts(alts: seq<RawAltsetting>)
    ensures |TreeOfAlts(alts)| == |alts|
  {
    if alts != [] {
      TreesOfAlts(alts[1..]);
    }
  }

  lemma PassesMore(buf: seq<Byte>, pos: nat, alt: Altsetting, next: nat, rest: seq<Altsetting>, end: nat)
    requires Pass(buf, pos, alt, rest != [], next) && if rest == [] then next == end else Passes(buf, next, rest, end)
    ensures Passes(buf, pos, [alt] + rest, end)
  {
    assert ([alt] + rest)[1..] == rest;
  }

  /** Printed alternate settings of one interface, one pass for each of them. */
  lemma {:induction false} AltsPassed(buf: seq<Byte>, ds: seq<seq<Byte>>, j: nat, alts: seq<RawAltsetting>, k: nat)
    requires Holds(buf, ds) && GoodAlts(alts) && alts != [] && Sub(ds, j, AltDescs(alts))
    requires k == j + |AltDescs(alts)| && AtInterface(ds, k) && !AltAt(ds, k)
    ensures j < |ds| && Passes(buf, Pos(ds, j), TreeOfAlts(alts), Pos(ds, k))
    decreases |alts|
  {
    var m := FirstPass(buf, ds, j, alts, k);
    TreesMore(alts);
    if |alts| > 1 {
      AltsPassed(buf, ds, m, alts[1..], k);
    }
    PassesMore(buf, Pos(ds, j), TreeOfAlt(alts[0]), Pos(ds, m), TreeOfAlts(alts[1..]), Pos(ds, k));
  }

  /** What filling alternate settings into `room` slots gives. */
  function Filled(alts: seq<Altsetting>, end: nat, room: nat): Parsed<seq<Altsetting>> {
    if |alts| <= room then Ok(alts, end) else Fault
  }

  lemma FilledChained(p: Parsed<seq<Altsetting>>, step: Parsed<AltStep>, rest: Parsed<seq<Altsetting>>,
                      alts: seq<Altsetting>,
                      end: nat, room: nat)
    requires room > 0 && Chained(p, step, rest) && step.Ok? && (step.value.more <==> alts != [])
    requires if alts == [] then step.end == end else rest == Filled(alts, end, room - 1)
    ensures p == Filled([step.value.alt] + alts, end, room)
  {
    assert [step.value.alt] + [] == [step.value.alt];
  }

  lemma NoRoom(buf: seq<Byte>, pos: nat)
    requires pos + INTERFACE_SIZE <= |buf|
    ensures ParseAlts(buf, pos, 0) == Fault
  {
  }

  /** The passes, filled into `room` slots. */
  lemma {:induction false} PassesFill(buf: seq<Byte>, pos: nat, alts: seq<Altsetting>, end: nat, room: nat)
    requires Passes(buf, pos, alts, end)
    ensures pos + INTERFACE_SIZE <= |buf| && ParseAlts(buf, pos, room) == Filled(alts, end, room)
    decreases |alts|
  {
    var next := end;
    if |alts| > 1 {
      next :| Pass(buf, pos, alts[0], true, next) && Passes(buf, next, alts[1..], end);
      if room > 0 {
        PassesFill(buf, next, alts[1..], end, room - 1);
      }
    }
    FillMore(buf, pos, alts, next, alts[1..], end, room);
  }

  lemma FillMore(buf: seq<Byte>, pos: nat, alts: seq<Altsetting>, next: nat, tail: seq<Altsetting>, end: nat, room: nat)
    requires alts != [] && tail == alts[1..] && Pass(buf, pos, alts[0], tail != [], next)
    requires if tail == [] then next == end
             else room > 0 ==> ParseAlts(buf, next, room - 1) == Filled(tail, end, room - 1)
    ensures ParseAlts(buf, pos, room) == Filled(alts, end, room)
  {
    if room == 0 {
      NoRoom(buf, pos);
    } else {
      var p, step := ParseAlts(buf, pos, room), ParseAlt(buf, pos, room == 1);
      var rest := AltsChained(buf, pos, room, p, step);
      FilledChained(p, step, rest, tail, end, room);
      assert alts == [alts[0]] + tail;
    }
  }

  /** Printed alternate settings come back if the slots suffice, and else the parser writes past them. */
  lemma AltsParsed(buf: seq<Byte>, ds: seq<seq<Byte>>, j: nat, alts: seq<RawAltsetting>, k: nat, room: nat)
    returns (p: Parsed<seq<Altsetting>>)
    requires Holds(buf, ds) && GoodAlts(alts) && alts != [] && Sub(ds, j, AltDescs(alts))
    requires k == j + |AltDescs(alts)| && AtInterface(ds, k) && !AltAt(ds, k)
    ensures j < |ds| && Pos(ds, j) + INTERFACE_SIZE <= |buf|
    ensures p == ParseAlts(buf, Pos(ds, j), room) && p == Filled(TreeOfAlts(alts), Pos(ds, k), room)
  {
    AltsPassed(buf, ds, j, alts, k);
    PassesFill(buf, Pos(ds, j), TreeOfAlts(alts), Pos(ds, k), room);
    p := ParseAlts(buf, Pos(ds, j), room);
  }

  // ----- The slots counted -----

  lemma NoneInEndpoints(ds: seq<seq<Byte>>, j: nat, a: RawAltsetting)
    requires AllDescs(ds) && GoodAlt(a) && Sub(ds, j, OneAltDescs(a))
    ensures NoInterface(ds, j + 1, j + |OneAltDescs(a)|)
  {
    var eps := EndpointDescs(a.endpoints);
    EndpointDescsGood(a.endpoints);
    SubParts(ds, j, [a.raw] + a.extras, eps);
    SubParts(ds, j, [a.raw], a.extras);
    var m := j + 1 + |a.extras|;
    forall i | j + 1 <= i < j + |OneAltDescs(a)| ensures ds[i][1] != INTERFACE {
      if i < m {
        SubAt(ds, j + 1, a.extras, i - j - 1);
      } else {
        SubAt(ds, m, eps, i - m);
      }
    }
  }

  /** All of the alternate settings have the number `fno`, or none. */
  lemma {:induction false} CountAlts(buf: seq<Byte>, ds: seq<seq<Byte>>, j: nat, alts: seq<RawAltsetting>,
                                     number: nat, fno: nat)
    requires Holds(buf, ds) && Sub(ds, j, AltDescs(alts))
    requires forall i :: 0 <= i < |alts| ==> GoodAlt(alts[i]) && alts[i].raw[2] == number
    ensures CountSame(buf, ds, j, fno) ==
            (if fno == number then |alts| else 0) + CountSame(buf, ds, j + |AltDescs(alts)|, fno)
    decreases |alts|
  {
    if alts != [] {
      var m := j + |OneAltDescs(alts[0])|;
      SubParts(ds, j, OneAltDescs(alts[0]), AltDescs(alts[1..]));
      NoneInEndpoints(ds, j, alts[0]);
      CountBehind(buf, ds, fno, j + 1, m);
      SubAt(ds, j, OneAltDescs(alts[0]), 0);
      DescAt(buf, ds, j);
      DescBytes(buf, ds, j);
      CountAlts(buf, ds, m, alts[1..], number, fno);
    }
  }

  /** How many alternate settings the interfaces with number `fno` have. */
  function Total(ifcs: seq<seq<RawAltsetting>>, fno: nat): nat
    requires GoodInterfaces(ifcs)
  {
    if ifcs == [] then 0
    else
      assert GoodInterface(ifcs[0]);
      (if NumberOf(ifcs[0]) == fno then |ifcs[0]| else 0) + Total(ifcs[1..], fno)
  }

  lemma {:induction false} CountInterfaces(buf: seq<Byte>, ds: seq<seq<Byte>>, j: nat, ifcs: seq<seq<RawAltsetting>>,
                                           fno: nat)
    requires Holds(buf, ds) && GoodInterfaces(ifcs)
    requires Sub(ds, j, InterfaceDescs(ifcs)) && j + |InterfaceDescs(ifcs)| == |ds|
    ensures CountSame(buf, ds, j, fno) == Total(ifcs, fno)
    decreases |ifcs|
  {
    if ifcs != [] {
      SubParts(ds, j, AltDescs(ifcs[0]), InterfaceDescs(ifcs[1..]));
      CountAlts(buf, ds, j, ifcs[0], NumberOf(ifcs[0]), fno);
      CountInterfaces(buf, ds, j + |AltDescs(ifcs[0])|, ifcs[1..], fno);
    }
  }

  /** The slots counted for each interface, kept in one byte, are enough for it. */
  predicate SlotsFit(ifcs: seq<seq<RawAltsetting>>)
    requires GoodInterfaces(ifcs)
  {
    ifcs == [] ||
    (assert GoodInterface(ifcs[0]);
     |ifcs[0]| <= Total(ifcs, NumberOf(ifcs[0])) % 256 && SlotsFit(ifcs[1..]))
  }

  lemma {:induction false} FirstLaid(ds: seq<seq<Byte>>, j: nat, ifcs: seq<seq<RawAltsetting>>) returns (m: nat)
    requires GoodInterfaces(ifcs) && ifcs != [] && Sub(ds, j, InterfaceDescs(ifcs)) &&
             j + |InterfaceDescs(ifcs)| == |ds|
    ensures m == j + |AltDescs(ifcs[0])| && Sub(ds, j, AltDescs(ifcs[0])) && AtInterface(ds, m) && !AltAt(ds, m)
    ensures Sub(ds, m, InterfaceDescs(ifcs[1..])) && m + |InterfaceDescs(ifcs[1..])| == |ds|
    ensures GoodInterface(ifcs[0]) && j < |ds| && ds[j] == ifcs[0][0].raw
  {
    var alts, rest := ifcs[0], InterfaceDescs(ifcs[1..]);
    m := j + |AltDescs(alts)|;
    SubParts(ds, j, AltDescs(alts), rest);
    InterfaceDescsGood(ifcs[1..]);
    AltDescsGood(alts);
    SubAt(ds, j, AltDescs(alts), 0);
    if rest != [] {
      assert GoodInterface(ifcs[1..][0]);
      SubAt(ds, m, rest, 0);
    }
  }

  lemma InterfaceHeader(buf: seq<Byte>, ds: seq<seq<Byte>>, j: nat, a: RawAltsetting)
    requires Holds(buf, ds) && GoodAlt(a) && j < |ds| && ds[j] == a.raw
    ensures At(buf, Pos(ds, j) + 1) == INTERFACE && At(buf, Pos(ds, j) + 2) == a.raw[2]
  {
    DescBytes(buf, ds, j);
    assert At(buf, Pos(ds, j) + 1) == ds[j][1] && At(buf, Pos(ds, j) + 2) == ds[j][2];
  }

  lemma FirstAltGood(alts: seq<RawAltsetting>)
    requires GoodInterface(alts)
    ensures GoodAlt(alts[0]) && alts[0].raw[2] == NumberOf(alts)
  {
  }

  /** What is counted behind an interface descriptor, with the descriptor itself. */
  lemma CountedWithFirst(buf: seq<Byte>, ds: seq<seq<Byte>>, j: nat, number: nat, total: nat)
    requires Holds(buf, ds) && j < |ds| && forall i :: j <= i < |ds| ==> Short(ds[i])
    requires At(buf, Pos(ds, j) + 1) == INTERFACE && At(buf, Pos(ds, j) + 2) == number
    requires CountSame(buf, ds, j, number) == total
    ensures total > 0 && LaterAlts(buf, Pos(ds, j), number) == Some(total - 1)
  {
    LaterAltsCounts(buf, ds, j, number);
  }

  /** The slots counted at the first of the interfaces. */
  lemma FirstCounted(buf: seq<Byte>, ds: seq<seq<Byte>>, j: nat, ifcs: seq<seq<RawAltsetting>>)
    requires Holds(buf, ds) && GoodInterfaces(ifcs) && ifcs != []
    requires Sub(ds, j, InterfaceDescs(ifcs)) && j + |InterfaceDescs(ifcs)| == |ds|
    requires forall i :: j <= i < |ds| ==> Short(ds[i])
    requires GoodInterface(ifcs[0]) && j < |ds| && ds[j] == ifcs[0][0].raw
    ensures var number := NumberOf(ifcs[0]);
            At(buf, Pos(ds, j) + 1) == INTERFACE && At(buf, Pos(ds, j) + 2) == number &&
            Total(ifcs, number) > 0 && LaterAlts(buf, Pos(ds, j), number) == Some(Total(ifcs, number) - 1)
  {
    var number := NumberOf(ifcs[0]);
    FirstAltGood(ifcs[0]);
    InterfaceHeader(buf, ds, j, ifcs[0][0]);
    CountInterfaces(buf, ds, j, ifcs, number);
    CountedWithFirst(buf, ds, j, number, Total(ifcs, number));
  }

  lemma {:induction false} InterfaceParsed(buf: seq<Byte>, ds: seq<seq<Byte>>, j: nat, alts: seq<RawAltsetting>,
                                           m: nat, total: nat)
    requires Holds(buf, ds) && GoodAlts(alts) && alts != [] && Sub(ds, j, AltDescs(alts))
    requires m == j + |AltDescs(alts)| && AtInterface(ds, m) && !AltAt(ds, m)
    requires total > 0 && At(buf, Pos(ds, j) + 1) == INTERFACE
    requires LaterAlts(buf, Pos(ds, j), At(buf, Pos(ds, j) + 2)) == Some(total - 1)
    ensures Pos(ds, j) < |buf|
    ensures ParseInterface(buf, Pos(ds, j)) == AsInterface(Filled(TreeOfAlts(alts), Pos(ds, m), total % 256))
  {
    var room, pos := total % 256, Pos(ds, j);
    var p := AltsParsed(buf, ds, j, alts, m, room);
    InterfaceHasSlots(buf, pos, total, p);
  }

  lemma {:induction false} FirstParsed(buf: seq<Byte>, ds: seq<seq<Byte>>, j: nat, ifcs: seq<seq<RawAltsetting>>)
    returns (m: nat)
    requires Holds(buf, ds) && GoodInterfaces(ifcs) && ifcs != []
    requires Sub(ds, j, InterfaceDescs(ifcs)) && j + |InterfaceDescs(ifcs)| == |ds|
    requires forall i :: j <= i < |ds| ==> Short(ds[i])
    ensures m <= |ds| && Sub(ds, m, InterfaceDescs(ifcs[1..])) && m + |InterfaceDescs(ifcs[1..])| == |ds|
    ensures GoodInterface(ifcs[0]) && j < |ds| && Pos(ds, j) < |buf|
    ensures ParseInterface(buf, Pos(ds, j)) ==
            AsInterface(Filled(TreeOfAlts(ifcs[0]), Pos(ds, m), Total(ifcs, NumberOf(ifcs[0])) % 256))
  {
    m := FirstLaid(ds, j, ifcs);
    var total := Total(ifcs, NumberOf(ifcs[0]));
    FirstCounted(buf, ds, j, ifcs);
    InterfaceParsed(buf, ds, j, ifcs[0], m, total);
  }

  lemma {:induction false} InterfacesParsed(buf: seq<Byte>, ds: seq<seq<Byte>>, j: nat,
                                            ifcs: seq<seq<RawAltsetting>>, n: nat)
    requires Holds(buf, ds) && GoodInterfaces(ifcs) && n == |ifcs|
    requires Sub(ds, j, InterfaceDescs(ifcs)) && j + |InterfaceDescs(ifcs)| == |ds| && Pos(ds, j) <= |buf|
    requires forall i :: j <= i < |ds| ==> Short(ds[i])
    ensures ParseInterfaces(buf, Pos(ds, j), n) == if SlotsFit(ifcs) then Ok(TreeOfInterfaces(ifcs), |buf|) else Fault
    decreases n
  {
    if ifcs == [] {
      PosAtEnd(buf, ds);
    } else {
      var m := FirstParsed(buf, ds, j, ifcs);
      if ParseInterface(buf, Pos(ds, j)).Ok? {
        InterfacesParsed(buf, ds, m, ifcs[1..], n - 1);
        InterfacesMore(buf, Pos(ds, j), n, Interface(TreeOfAlts(ifcs[0])), Pos(ds, m),
                       if SlotsFit(ifcs[1..]) then Ok(TreeOfInterfaces(ifcs[1..]), |buf|) else Fault);
      }
    }
  }

  lemma ConfigDescsGood(c: RawConfig)
    requires GoodConfig(c)
    ensures AllDescs(ConfigDescs(c)) && forall i :: 1 <= i < |ConfigDescs(c)| ==> Short(ConfigDescs(c)[i])
  {
    InterfaceDescsGood(c.interfaces);
  }

  lemma ConfigFields(buf: seq<Byte>, ds: seq<seq<Byte>>)
    requires Holds(buf, ds) && ds != [] && |ds[0]| >= CONFIG_SIZE
    ensures ConfigOf(buf) == ConfigOf(ds[0])
  {
    DescBytes(buf, ds, 0);
  }

  lemma ConfigLaid(c: RawConfig)
    requires GoodConfig(c)
    ensures var ds, j := ConfigDescs(c), 1 + |c.extras|;
            ds != [] && ds[0] == c.raw && Sub(ds, 1, c.extras) && Stops(ds, j) &&
            Sub(ds, j, InterfaceDescs(c.interfaces)) &&
            j + |InterfaceDescs(c.interfaces)| == |ds|
  {
    var ds, ifcs := ConfigDescs(c), InterfaceDescs(c.interfaces);
    SubParts(ds, 0, [c.raw] + c.extras, ifcs);
    SubParts(ds, 0, [c.raw], c.extras);
    InterfaceDescsGood(c.interfaces);
    if ifcs != [] {
      SubAt(ds, 1 + |c.extras|, ifcs, 0);
    }
  }

  lemma ConfigurationIs(buf: seq<Byte>, start: nat, p: Parsed<seq<Interface>>)
    requires buf != [] && ConfigOf(buf).bNumInterfaces <= MAX_INTERFACES && buf[0] <= |buf|
    requires SkipExtras(buf, buf[0], true) == Skipped(start) &&
             p == ParseInterfaces(buf, start, ConfigOf(buf).bNumInterfaces)
    ensures p.Ok? ==> ParseConfiguration(buf) == Tree(Config(ConfigOf(buf), p.value, buf[buf[0]..start]), |buf| - p.end)
    ensures p.Fault? ==> ParseConfiguration(buf) == Faulted
  {
  }

  lemma {:induction false} ConfigParsed(buf: seq<Byte>, ds: seq<seq<Byte>>, c: RawConfig, j: nat)
    requires GoodConfig(c) && Holds(buf, ds) && j == 1 + |c.extras| && (forall i :: 1 <= i < |ds| ==> Short(ds[i]))
    requires ds != [] && ds[0] == c.raw && Sub(ds, 1, c.extras) && Stops(ds, j)
    requires Sub(ds, j, InterfaceDescs(c.interfaces)) && j + |InterfaceDescs(c.interfaces)| == |ds|
    ensures ParseConfiguration(buf) == if SlotsFit(c.interfaces) then Tree(TreeOf(c), 0) else Faulted
  {
    ConfigStarts(buf, ds, c, j);
    InterfacesParsed(buf, ds, j, c.interfaces, |c.interfaces|);
    ConfigurationIs(buf, Pos(ds, j),
                    if SlotsFit(c.interfaces) then Ok(TreeOfInterfaces(c.interfaces), |buf|) else Fault);
  }

  lemma ConfigStarts(buf: seq<Byte>, ds: seq<seq<Byte>>, c: RawConfig, j: nat)
    requires GoodConfig(c) && Holds(buf, ds) && j == 1 + |c.extras|
    requires ds != [] && ds[0] == c.raw && Sub(ds, 1, c.extras) && Stops(ds, j)
    ensures buf != [] && buf[0] <= |buf| && ConfigOf(buf) == ConfigOf(c.raw) && Pos(ds, j) <= |buf|
    ensures ConfigOf(buf).bNumInterfaces == |c.interfaces| <= MAX_INTERFACES
    ensures SkipExtras(buf, buf[0], true) == Skipped(Pos(ds, j)) && buf[0] <= Pos(ds, j)
    ensures buf[buf[0]..Pos(ds, j)] == Flat(c.extras)
  {
    DescAt(buf, ds, 0);
    ConfigFields(buf, ds);
    SkipRun(buf, ds, 1, c.extras, true);
  }

  /** Parsing inverts printing, with nothing left over, for every configuration whose slots fit; with any
      other one the parser writes past the slots of some interface. */
  lemma {:induction false} RoundTrip(c: RawConfig)
    requires GoodConfig(c)
    ensures ParseConfiguration(Print(c)) == if SlotsFit(c.interfaces) then Tree(TreeOf(c), 0) else Faulted
  {
    ConfigDescsGood(c);
    FlatHolds(ConfigDescs(c));
    ConfigLaid(c);
    ConfigParsed(Print(c), ConfigDescs(c), c, 1 + |c.extras|);
  }

  /** Different numbers for the interfaces. */
  predicate DistinctNumbers(ifcs: seq<seq<RawAltsetting>>)
    requires GoodInterfaces(ifcs)
  {
    forall i, j :: 0 <= i < j < |ifcs| ==> NumberOf(ifcs[i]) != NumberOf(ifcs[j])
  }

  lemma {:induction false} TotalOfAbsent(ifcs: seq<seq<RawAltsetting>>, fno: nat)
    requires GoodInterfaces(ifcs) && forall i :: 0 <= i < |ifcs| ==> NumberOf(ifcs[i]) != fno
    ensures Total(ifcs, fno) == 0
  {
    if ifcs != [] {
      assert forall i :: 0 <= i < |ifcs| - 1 ==> ifcs[1..][i] == ifcs[i + 1];
      TotalOfAbsent(ifcs[1..], fno);
    }
  }

  /** With different numbers, the slots fit if and only if no interface has more than 255 alternate settings. */
  lemma {:induction false} FitWhenDistinct(ifcs: seq<seq<RawAltsetting>>)
    requires GoodInterfaces(ifcs) && DistinctNumbers(ifcs)
    ensures SlotsFit(ifcs) <==> forall i :: 0 <= i < |ifcs| ==> |ifcs[i]| <= 255
  {
    if ifcs != [] {
      assert GoodInterface(ifcs[0]);
      assert forall i :: 0 <= i < |ifcs| - 1 ==> ifcs[1..][i] == ifcs[i + 1];
      TotalOfAbsent(ifcs[1..], NumberOf(ifcs[0]));
      FitWhenDistinct(ifcs[1..]);
    }
  }

  /** 256 alternate settings, as many as there are setting numbers, get no tree. */
  lemma AllAlternates() returns (c: RawConfig)
    ensures GoodConfig(c) && DistinctNumbers(c.interfaces) && |c.interfaces| == 1 && |c.interfaces[0]| == 256
    ensures ParseConfiguration(Print(c)) == Faulted
  {
    var alts := seq(256, i requires 0 <= i < 256 => RawAltsetting([9, INTERFACE, 0, i, 0, 0, 0, 0, 0], [], []));
    c := RawConfig([9, CONFIG, 0, 0, 1, 0, 0, 0, 0], [], [alts]);
    assert forall i :: 0 <= i < 256 ==> GoodAlt(alts[i]);
    assert GoodInterface(alts);
    RoundTrip(c);
    FitWhenDistinct(c.interfaces);
    assert |c.interfaces[0]| == 256;
  }
}
