/** What the parser makes of any bytes, well-formed or not: which lengths and types it refuses, at every level. */
module DescriptorOutcomes {
  import opened Lists
  import opened Descriptors
  import opened DescriptorParser
  import opened DescriptorScans

  // ----- Runs of other descriptors -----

  /** A device, configuration, interface or endpoint descriptor starts at `p`. */
  predicate Standard(buf: seq<Byte>, p: nat) {
    p + 1 < |buf| && buf[p + 1] in {1, 2, 4, 5}
  }

  /** A run of class or vendor specific descriptors is over at `p`. */
  predicate Over(buf: seq<Byte>, p: nat, checked: bool) {
    p <= |buf| &&
    (p + 2 > |buf| || (Standard(buf, p) && buf[p] >= 2 && (checked ==> p + buf[p] <= |buf|)))
  }

  /** It goes on behind the descriptor at `p`. */
  predicate GoesOnBehind(buf: seq<Byte>, p: nat) {
    p + 2 <= |buf| && !Standard(buf, p) && 2 <= buf[p] && p + buf[p] <= |buf|
  }

  ghost predicate AllGoOn(buf: seq<Byte>, start: nat, i: nat, k: nat) {
    forall j, q :: i <= j < k && Place(buf, start, j) == Some(q) ==> GoesOnBehind(buf, q)
  }

  /** The run from `start` is over at the place after `k` steps, and not before. */
  ghost predicate RunEnds(buf: seq<Byte>, start: nat, k: nat, end: nat, checked: bool) {
    Place(buf, start, k) == Some(end) && Over(buf, end, checked) && AllGoOn(buf, start, 0, k)
  }

  lemma {:induction false} SkipFrom(buf: seq<Byte>, start: nat, pos: nat, i: nat, checked: bool) returns (k: nat)
    requires Place(buf, start, i) == Some(pos) && pos <= |buf|
    ensures match SkipExtras(buf, pos, checked)
            case Skipped(end) =>
              i <= k && Place(buf, start, k) == Some(end) && Over(buf, end, checked) && AllGoOn(buf, start, i, k)
            case BadLength =>
              forall l: nat, q: nat :: i <= l && Place(buf, start, l) == Some(q) && AllGoOn(buf, start, i, l) ==>
                                         !Over(buf, q, checked)
    decreases |buf| - pos
  {
    k := i;
    if GoesOnBehind(buf, pos) {
      k := SkipFrom(buf, start, pos + buf[pos], i + 1, checked);
      forall l: nat, q: nat | i <= l && Place(buf, start, l) == Some(q) && AllGoOn(buf, start, i, l) &&
                              SkipExtras(buf, pos, checked) == BadLength
        ensures !Over(buf, q, checked)
      {
        if l > i {
          assert AllGoOn(buf, start, i + 1, l);
        }
      }
    } else if SkipExtras(buf, pos, checked) == BadLength {
      forall l: nat, q: nat | i <= l && Place(buf, start, l) == Some(q) && AllGoOn(buf, start, i, l)
        ensures !Over(buf, q, checked)
      {
        assert l == i || GoesOnBehind(buf, pos);
      }
    }
  }

  lemma OneEndOfRun(buf: seq<Byte>, start: nat, k: nat, end: nat, l: nat, q: nat, checked: bool)
    requires RunEnds(buf, start, k, end, checked) && RunEnds(buf, start, l, q, checked)
    ensures k == l && end == q
  {
  }

  /** A run is skipped to where it is over, and fails if and only if it never is. */
  lemma SkipIff(buf: seq<Byte>, start: nat, checked: bool)
    requires start <= |buf|
    ensures forall end: nat :: SkipExtras(buf, start, checked) == Skipped(end) <==>
                               exists k: nat :: RunEnds(buf, start, k, end, checked)
  {
    var r := SkipExtras(buf, start, checked);
    var k := SkipFrom(buf, start, start, 0, checked);
    if r.Skipped? {
      assert RunEnds(buf, start, k, r.end, checked);
    }
    forall end: nat, l: nat | RunEnds(buf, start, l, end, checked) ensures r == Skipped(end) {
      if r.Skipped? {
        OneEndOfRun(buf, start, k, r.end, l, end, checked);
      }
    }
  }

  // ----- Endpoints -----

  /** An endpoint descriptor of full length starts at `p`. */
  predicate FullEndpointAt(buf: seq<Byte>, p: nat) {
    p + 1 < |buf| && buf[p + 1] == 5 && buf[p] >= 7
  }

  /** An endpoint is refused when its length is not there or the run behind it is bad; a descriptor of another type,
      or a shorter one, is left where it is and gives an endpoint of zeroes; a single byte is too little to tell. */
  lemma EndpointOutcome(buf: seq<Byte>, pos: nat)
    requires pos <= |buf|
    ensures var p := ParseEndpoint(buf, pos);
            (p.Fault? <==> pos + 1 == |buf| && buf[pos] <= 1) &&
            (pos == |buf| || pos + buf[pos] > |buf| ==> p == Error) &&
            (pos + 1 < |buf| && pos + buf[pos] <= |buf| && !FullEndpointAt(buf, pos) ==>
              p == Ok(Endpoint(EndpointDesc(0, 0, 0, 0, 0, 0, 0, 0), []), pos)) &&
            (FullEndpointAt(buf, pos) && pos + buf[pos] <= |buf| ==>
              var next := pos + buf[pos];
              match SkipExtras(buf, next, false)
              case BadLength => p == Error
              case Skipped(end) => p == Ok(Endpoint(EndpointOf(buf, pos), buf[next..end]), end))
  {
  }

  // ----- Alternate settings -----

  /** What an alternate setting comes to, from behind its extra descriptors, where `eps` is what its endpoints come to:
      another configuration or device ends it; more than 32 endpoints are refused. */
  predicate SettingEnds(buf: seq<Byte>, p: Parsed<AltStep>, pos: nat, extra: seq<Byte>, end: nat,
                        eps: Parsed<seq<Endpoint>>, last: bool)
    requires pos + 9 <= |buf| && end <= |buf|
  {
    if end + 2 <= |buf| && buf[end + 1] in {1, 2} then
      p == Ok(AltStep(Altsetting(InterfaceOf(buf, pos), [], extra), false), end)
    else if buf[pos + 4] > 32 then p == Error
    else match eps
         case Error => p == if last then Fault else Error
         case Fault => p == Fault
         case Ok(v, e) =>
           p == Ok(AltStep(Altsetting(InterfaceOf(buf, pos), v, extra),
                           e + 9 <= |buf| && buf[e + 1] == 4 && buf[e + 3] > 0), e)
  }

  /** An alternate setting is refused when its length is not there or the run behind it is bad; otherwise it ends as
      `SettingEnds` says. */
  lemma AltOutcome(buf: seq<Byte>, pos: nat, last: bool)
    requires pos + 9 <= |buf|
    ensures var p, next := ParseAlt(buf, pos, last), pos + buf[pos];
            if next > |buf| then p == Error
            else match SkipExtras(buf, next, false)
                 case BadLength => p == Error
                 case Skipped(end) =>
                   SettingEnds(buf, p, pos, buf[next..end], end, ParseEndpoints(buf, end, buf[pos + 4]), last)
  {
    var next := pos + buf[pos];
    if next <= |buf| {
      var r := SkipExtras(buf, next, false);
      if r.Skipped? {
        BehindEnds(buf, pos, r.end, buf[next..r.end], last);
      }
    }
  }

  lemma BehindEnds(buf: seq<Byte>, pos: nat, end: nat, extra: seq<Byte>, last: bool)
    requires pos + 9 <= |buf| && end <= |buf|
    ensures SettingEnds(buf, ParseBehind(buf, end, InterfaceOf(buf, pos), extra, last), pos, extra, end,
                        ParseEndpoints(buf, end, buf[pos + 4]), last)
  {
  }

  // ----- Interfaces and the configuration -----

  /** Anything but an interface ends the interfaces with an empty one; a count that fails is fatal; and 9 bytes and a
      slot are wanted for every setting. */
  lemma InterfaceOutcome(buf: seq<Byte>, pos: nat)
    requires pos <= |buf|
    ensures var p := ParseInterface(buf, pos);
            (pos == |buf| ==> p == Error) &&
            (pos < |buf| && !(pos + 1 < |buf| && buf[pos + 1] == 4) ==> p == Ok(Interface([]), |buf|)) &&
            (pos + 1 < |buf| && buf[pos + 1] == 4 ==>
              match LaterAlts(buf, pos, if pos + 2 < |buf| then buf[pos + 2] else 0)
              case None => p == Fault
              case Some(n) => p == AsInterface(ParseAlts(buf, pos, (1 + n) % 256)))
  {
  }

  lemma AltsOutcome(buf: seq<Byte>, pos: nat, room: nat)
    requires pos <= |buf|
    ensures pos + 9 > |buf| ==> ParseAlts(buf, pos, room) == Ok([], pos)
    ensures pos + 9 <= |buf| && room == 0 ==> ParseAlts(buf, pos, room) == Fault
  {
  }

  lemma InterfacesOutcome(buf: seq<Byte>, pos: nat, n: nat)
    requires pos <= |buf|
    ensures var p := ParseInterfaces(buf, pos, n);
            (n == 0 || pos == |buf| ==> p == Ok(seq(n, i => Interface([])), pos)) &&
            (n > 0 && pos < |buf| ==>
              match ParseInterface(buf, pos)
              case Error => p == Error
              case Fault => p == Fault
              case Ok(ifc, end) =>
                var rest := ParseInterfaces(buf, end, n - 1);
                p == if rest.Ok? then Ok([ifc] + rest.value, rest.end) else rest)
  {
  }

  /** What a configuration comes to, where `ifcs` is what its interfaces, from `start` on, come to. */
  predicate ConfigurationEnds(buf: seq<Byte>, r: ConfigResult, start: nat, ifcs: Parsed<seq<Interface>>)
    requires buf != [] && buf[0] <= start <= |buf|
  {
    match ifcs
    case Error => r == Rejected
    case Fault => r == Faulted
    case Ok(v, end) => end <= |buf| && r == Tree(Config(ConfigOf(buf), v, buf[buf[0]..start]), |buf| - end)
  }

  /** A configuration is rejected when there is nothing, when it announces more than 32 interfaces, when its length is
      not there, or when the run behind it is bad; otherwise its interfaces decide. */
  lemma ConfigurationOutcome(buf: seq<Byte>)
    ensures var r := ParseConfiguration(buf);
            if buf == [] || (|buf| > 4 && buf[4] > 32) || buf[0] > |buf| then r == Rejected
            else match SkipExtras(buf, buf[0], true)
                 case BadLength => r == Rejected
                 case Skipped(start) =>
                   ConfigurationEnds(buf, r, start, ParseInterfaces(buf, start, if |buf| > 4 then buf[4] else 0))
  {
  }
}
