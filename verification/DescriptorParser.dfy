/** The recursive-descent parser of a configuration (descriptors.c): what it computes, as functions on the
    buffer and the position it has reached, and the code, with its loops, proved to compute that. */
module DescriptorParser {
  import opened Lists
  import opened Descriptors

  /** A value and the position behind it. `Fault` stands for code that reads or writes outside its memory,
      depends on a variable that was never set, or never returns. */
  datatype Parsed<T> = Ok(value: T, end: nat) | Error | Fault

  /** A result for the rest of a buffer, behind what is `done`. */
  function Behind<T>(done: seq<T>, p: Parsed<seq<T>>): Parsed<seq<T>> {
    if p.Ok? then Ok(done + p.value, p.end) else p
  }

  lemma BehindNothing<T>(p: Parsed<seq<T>>)
    ensures Behind([], p) == p
  {
    assert p.Ok? ==> [] + p.value == p.value;
  }

  lemma BehindMore<T>(done: seq<T>, x: T, p: Parsed<seq<T>>)
    ensures Behind(done, Behind([x], p)) == Behind(done + [x], p)
  {
    assert p.Ok? ==> done + ([x] + p.value) == (done + [x]) + p.value;
  }

  datatype Skip = Skipped(end: nat) | BadLength

  /** The run of class or vendor specific descriptors from `pos` on. Only the loop of the configuration
      (`checked`) compares their lengths with what is left; the others step over the end of the buffer,
      their unsigned `buflen` wraps around, and they fail on the zero length they find there. */
  function SkipExtras(buf: seq<Byte>, pos: nat, checked: bool): (s: Skip)
    requires pos <= |buf|
    ensures s.Skipped? ==> pos <= s.end <= |buf|
    decreases |buf| - pos
  {
    if |buf| - pos < 2 then Skipped(pos)
    else if buf[pos] < 2 || (checked && pos + buf[pos] > |buf|) then BadLength
    else if Proper(buf[pos + 1]) then Skipped(pos)
    else if pos + buf[pos] > |buf| then BadLength
    else SkipExtras(buf, pos + buf[pos], checked)
  }

  function ParseEndpoint(buf: seq<Byte>, pos: nat): (p: Parsed<Endpoint>)
    requires pos <= |buf|
    ensures p.Ok? ==> pos <= p.end <= |buf|
  {
    if pos == |buf| || pos + buf[pos] > |buf| then Error
    else if pos + 1 == |buf| then Fault
    else if buf[pos + 1] != ENDPOINT || buf[pos] < ENDPOINT_SIZE then Ok(NO_ENDPOINT, pos)
    else
      var next := pos + buf[pos];
      match SkipExtras(buf, next, false)
      case BadLength => Error
      case Skipped(end) => Ok(Endpoint(EndpointOf(buf, pos), buf[next..end]), end)
  }

  function ParseEndpoints(buf: seq<Byte>, pos: nat, n: nat): (p: Parsed<seq<Endpoint>>)
    requires pos <= |buf|
    ensures p.Ok? ==> pos <= p.end <= |buf| && |p.value| == n
    decreases n
  {
    if n == 0 then Ok([], pos)
    else match ParseEndpoint(buf, pos)
         case Error => Error
         case Fault => Fault
         case Ok(ep, end) => Behind([ep], ParseEndpoints(buf, end, n - 1))
  }

  lemma EndpointsChained(buf: seq<Byte>, pos: nat, n: nat, all: Parsed<seq<Endpoint>>, p: Parsed<Endpoint>,
                         rest: Parsed<seq<Endpoint>>)
    requires pos <= |buf| && n > 0 && all == ParseEndpoints(buf, pos, n) && p == ParseEndpoint(buf, pos)
    requires p.Ok? ==> rest == ParseEndpoints(buf, p.end, n - 1)
    ensures p.Error? ==> all == Error
    ensures p.Fault? ==> all == Fault
    ensures p.Ok? ==> all == Behind([p.value], rest)
  {
  }

  /** The start of an interface descriptor with number `fno`; only the bytes behind `pos` are looked at. */
  predicate IsInterface(buf: seq<Byte>, pos: int, fno: int)
    requires pos >= -1
  {
    At(buf, pos + 1) == INTERFACE && At(buf, pos + 2) == fno
  }

  /** A byte as usbi_get_intf_altno sees it, through a pointer to `char`. */
  function Signed(b: Byte): (i: int)
    ensures -128 <= i < 128 && (i == b || i == b - 256)
  {
    if b > 127 then b - 256 else b
  }

  /** The walk of usbi_get_intf_altno that began at `start`, from `pos` on: how many interface descriptors with
      number `fno` it steps on. Its comparison with the unsigned `buflen` also ends it when it has stepped back
      behind its start. It fails when the byte behind its place is before the buffer, or when it is still going after
      `steps` steps. */
  function Walk(buf: seq<Byte>, start: nat, pos: int, fno: nat, steps: nat): Option<nat>
    decreases steps
  {
    if pos < start || pos >= |buf| then Some(0)
    else if steps == 0 then None
    else
      var next := pos + Signed(buf[pos]);
      if next < -1 then None
      else match Walk(buf, start, next, fno, steps - 1)
           case None => None
           case Some(n) => Some(n + if IsInterface(buf, next, fno) then 1 else 0)
  }

  /** usbi_get_intf_altno, less one. After as many steps as there are positions it has been somewhere twice. */
  function LaterAlts(buf: seq<Byte>, pos: nat, fno: nat): Option<nat> {
    Walk(buf, pos, pos, fno, if pos <= |buf| then |buf| - pos else 0)
  }

  /** Does the parser take what comes next for another alternate setting of the same interface? */
  predicate Alternate(buf: seq<Byte>, pos: nat) {
    pos + INTERFACE_SIZE <= |buf| && At(buf, pos + 1) == INTERFACE && At(buf, pos + 3) != 0
  }

  /** An alternate setting, and whether the descriptor behind it is another one of the same interface. */
  datatype AltStep = AltStep(alt: Altsetting, more: bool)

  /** The part of the loop over alternate settings behind the descriptor and its extra ones. When an endpoint
      fails, the code frees the endpoints of the slot behind the one it fills, over and over: after the
      `last` slot there is none. */
  function ParseBehind(buf: seq<Byte>, pos: nat, desc: InterfaceDesc, extra: seq<Byte>,
                       last: bool): (p: Parsed<AltStep>)
    requires pos <= |buf|
    ensures p.Ok? ==> pos <= p.end <= |buf| && (p.value.more ==> Alternate(buf, p.end))
  {
    if pos + 2 <= |buf| && (buf[pos + 1] == CONFIG || buf[pos + 1] == DEVICE) then
      Ok(AltStep(Altsetting(desc, [], extra), false), pos)
    else if desc.bNumEndpoints > MAX_ENDPOINTS then Error
    else match ParseEndpoints(buf, pos, desc.bNumEndpoints)
         case Error => if last then Fault else Error
         case Fault => Fault
         case Ok(eps, end) => Ok(AltStep(Altsetting(desc, eps, extra), Alternate(buf, end)), end)
  }

  function ParseAlt(buf: seq<Byte>, pos: nat, last: bool): (p: Parsed<AltStep>)
    requires pos + INTERFACE_SIZE <= |buf|
    ensures p.Ok? ==> pos <= p.end <= |buf| && (p.value.more ==> Alternate(buf, p.end))
    ensures p.Ok? && p.end == pos ==> buf[pos] == 0
  {
    if pos + buf[pos] > |buf| then Error
    else
      var next := pos + buf[pos];
      match SkipExtras(buf, next, false)
      case BadLength => Error
      case Skipped(end) => ParseBehind(buf, end, InterfaceOf(buf, pos), buf[next..end], last)
  }

  /** The alternate settings of one interface, filled into `room` slots. */
  function ParseAlts(buf: seq<Byte>, pos: nat, room: nat): (p: Parsed<seq<Altsetting>>)
    requires pos <= |buf|
    ensures p.Ok? ==> pos <= p.end <= |buf| && |p.value| <= room
    decreases room
  {
    if pos + INTERFACE_SIZE > |buf| then Ok([], pos)
    else if room == 0 then Fault
    else match ParseAlt(buf, pos, room == 1)
         case Error => Error
         case Fault => Fault
         case Ok(step, end) =>
           if step.more then Behind([step.alt], ParseAlts(buf, end, room - 1)) else Ok([step.alt], end)
  }

  /** The results of the loop, `all` from one pass `p` on, and `rest` behind it. */
  predicate Chained(all: Parsed<seq<Altsetting>>, p: Parsed<AltStep>, rest: Parsed<seq<Altsetting>>) {
    match p
    case Error => all == Error
    case Fault => all == Fault
    case Ok(step, end) => all == if step.more then Behind([step.alt], rest) else Ok([step.alt], end)
  }

  lemma AltsChained(buf: seq<Byte>, pos: nat, room: nat, all: Parsed<seq<Altsetting>>, p: Parsed<AltStep>)
    returns (rest: Parsed<seq<Altsetting>>)
    requires pos + INTERFACE_SIZE <= |buf| && room > 0 && all == ParseAlts(buf, pos, room) &&
             p == ParseAlt(buf, pos, room == 1)
    ensures Chained(all, p, rest)
    ensures p.Ok? && p.value.more ==> rest == ParseAlts(buf, p.end, room - 1)
  {
    rest := if p.Ok? && p.value.more then ParseAlts(buf, p.end, room - 1) else Error;
  }

  /** One pass of the loop, behind what is `done`. */
  lemma AltsBehind(buf: seq<Byte>, pos: nat, room: nat, done: seq<Altsetting>, all: Parsed<seq<Altsetting>>,
                   p: Parsed<AltStep>)
    requires pos + INTERFACE_SIZE <= |buf| && room > 0 && p == ParseAlt(buf, pos, room == 1)
    requires all == Behind(done, ParseAlts(buf, pos, room))
    ensures match p
            case Error => all == Error
            case Fault => all == Fault
            case Ok(step, end) =>
              all == if step.more then Behind(done + [step.alt], ParseAlts(buf, end, room - 1))
                     else Ok(done + [step.alt], end)
  {
    var rest := AltsChained(buf, pos, room, ParseAlts(buf, pos, room), p);
    if p.Ok? {
      BehindMore(done, p.value.alt, rest);
    }
  }

  /** The slots allocated when `n` later descriptors have the same number; the count is kept in one byte. */
  function Slots(n: nat): nat {
    (1 + n) % 256
  }

  function AsInterface(p: Parsed<seq<Altsetting>>): Parsed<Interface> {
    match p
    case Ok(alts, end) => Ok(Interface(alts), end)
    case Error => Error
    case Fault => Fault
  }

  function ParseInterface(buf: seq<Byte>, pos: nat): (p: Parsed<Interface>)
    requires pos <= |buf|
    ensures p.Ok? ==> pos <= p.end <= |buf|
  {
    if pos == |buf| then Error
    else if At(buf, pos + 1) != INTERFACE then Ok(NO_INTERFACE, |buf|)
    else match LaterAlts(buf, pos, At(buf, pos + 2))
         case None => Fault
         case Some(n) => AsInterface(ParseAlts(buf, pos, Slots(n)))
  }

  /** Interfaces for `n` slots; those the buffer has no descriptors for stay empty. */
  function ParseInterfaces(buf: seq<Byte>, pos: nat, n: nat): (p: Parsed<seq<Interface>>)
    requires pos <= |buf|
    ensures p.Ok? ==> pos <= p.end <= |buf| && |p.value| == n
    decreases n
  {
    if n == 0 || pos == |buf| then Ok(seq(n, i => NO_INTERFACE), pos)
    else match ParseInterface(buf, pos)
         case Error => Error
         case Fault => Fault
         case Ok(ifc, end) => Behind([ifc], ParseInterfaces(buf, end, n - 1))
  }

  lemma InterfacesMore(buf: seq<Byte>, pos: nat, n: nat, ifc: Interface, next: nat, rest: Parsed<seq<Interface>>)
    requires pos < |buf| && n > 0 && ParseInterface(buf, pos) == Ok(ifc, next) &&
             rest == ParseInterfaces(buf, next, n - 1)
    ensures ParseInterfaces(buf, pos, n) == Behind([ifc], rest)
  {
  }

  /** One interface, behind what is `done`. */
  lemma InterfacesBehind(buf: seq<Byte>, pos: nat, n: nat, done: seq<Interface>, all: Parsed<seq<Interface>>,
                         p: Parsed<Interface>)
    requires pos < |buf| && n > 0 && p == ParseInterface(buf, pos)
    requires all == Behind(done, ParseInterfaces(buf, pos, n))
    ensures match p
            case Error => all == Error
            case Fault => all == Fault
            case Ok(ifc, end) => all == Behind(done + [ifc], ParseInterfaces(buf, end, n - 1))
  {
    if p.Ok? {
      var rest := ParseInterfaces(buf, p.end, n - 1);
      InterfacesMore(buf, pos, n, p.value, p.end, rest);
      BehindMore(done, p.value, rest);
    }
  }

  /** `Tree` carries the tree and how many bytes were left over. */
  datatype ConfigResult = Tree(config: Config, left: nat) | Rejected | Faulted

  function ParseConfiguration(buf: seq<Byte>): ConfigResult {
    if buf == [] || ConfigOf(buf).bNumInterfaces > MAX_INTERFACES then Rejected
    else if buf[0] > |buf| then Rejected
    else match SkipExtras(buf, buf[0], true)
         case BadLength => Rejected
         case Skipped(start) =>
           match ParseInterfaces(buf, start, ConfigOf(buf).bNumInterfaces)
           case Error => Rejected
           case Fault => Faulted
           case Ok(ifcs, end) => Tree(Config(ConfigOf(buf), ifcs, buf[buf[0]..start]), |buf| - end)
  }

  // ----- The code -----

  /** The loops over class or vendor specific descriptors in the three parsers. */
  method SkipLoop(buf: seq<Byte>, start: nat, checked: bool) returns (s: Skip)
    requires start <= |buf|
    ensures s == SkipExtras(buf, start, checked)
  {
    var pos: nat, buflen: nat := start, |buf| - start;
    while buflen >= 2
      invariant pos + buflen == |buf| && SkipExtras(buf, pos, checked) == SkipExtras(buf, start, checked)
    {
      var bLength, kind := buf[pos], buf[pos + 1];
      if bLength < 2 || (checked && bLength > buflen) {
        return BadLength;
      }
      if kind == ENDPOINT || kind == INTERFACE || kind == CONFIG || kind == DEVICE {
        break;
      }
      if bLength > buflen {
        // The next length is read from the zeroed bytes behind the buffer.
        return BadLength;
      }
      pos := pos + bLength;
      buflen := buflen - bLength;
    }
    return Skipped(pos);
  }

  /** usbi_parse_endpoint. */
  method ReadEndpoint(buf: seq<Byte>, start: nat) returns (p: Parsed<Endpoint>)
    requires start <= |buf|
    ensures p == ParseEndpoint(buf, start)
  {
    var buflen := |buf| - start;
    if buflen == 0 {
      return Error;
    }
    var bLength := buf[start];
    if bLength > buflen {
      return Error;
    }
    if buflen == 1 {
      // The type of the header was never set.
      return Fault;
    }
    if buf[start + 1] != ENDPOINT || bLength < ENDPOINT_SIZE {
      return Ok(NO_ENDPOINT, start);
    }
    var desc := EndpointOf(buf, start);
    var extra := start + bLength;
    var s := SkipLoop(buf, extra, false);
    match s {
      case BadLength => return Error;
      case Skipped(end) => return Ok(Endpoint(desc, buf[extra..end]), end);
    }
  }

  /** usbi_get_intf_altno, less one. */
  method CountLaterAlts(buf: seq<Byte>, start: nat, fno: nat) returns (n: Option<nat>)
    requires start <= |buf|
    ensures n == LaterAlts(buf, start, fno)
  {
    var p: int, len: int, altno: nat := start, 0, 0;
    var steps: nat := |buf| - start;
    while 0 <= len < |buf| - start
      invariant p == start + len
      invariant match Walk(buf, start, p, fno, steps)
                case None => LaterAlts(buf, start, fno).None?
                case Some(m) => LaterAlts(buf, start, fno) == Some(altno + m)
      decreases steps
    {
      if steps == 0 {
        // The code goes on for ever.
        return None;
      }
      var hlen := Signed(buf[p]);
      if p + hlen < -1 {
        return None;
      }
      p := p + hlen;
      len := len + hlen;
      if At(buf, p + 1) == INTERFACE && At(buf, p + 2) == fno {
        altno := altno + 1;
      }
      steps := steps - 1;
    }
    return Some(altno);
  }

  /** The endpoints of one alternate setting. */
  method ReadEndpoints(buf: seq<Byte>, start: nat, n: nat) returns (p: Parsed<seq<Endpoint>>)
    requires start <= |buf|
    ensures p == ParseEndpoints(buf, start, n)
  {
    var pos: nat, eps := start, [];
    BehindNothing(ParseEndpoints(buf, start, n));
    for i := 0 to n
      invariant pos <= |buf| && |eps| == i
      invariant ParseEndpoints(buf, start, n) == Behind(eps, ParseEndpoints(buf, pos, n - i))
    {
      var retval := ReadEndpoint(buf, pos);
      match retval {
        case Error => return Error;
        case Fault => return Fault;
        case Ok(ep, end) =>
          BehindMore(eps, ep, ParseEndpoints(buf, end, n - i - 1));
          eps := eps + [ep];
          pos := end;
      }
    }
    assert eps + [] == eps;
    return Ok(eps, pos);
  }

  /** One pass of the loop over alternate settings. */
  method ReadAlt(buf: seq<Byte>, start: nat, last: bool) returns (p: Parsed<AltStep>)
    requires start + INTERFACE_SIZE <= |buf|
    ensures p == ParseAlt(buf, start, last)
  {
    var bLength := buf[start];
    if start + bLength > |buf| {
      return Error;
    }
    var desc := InterfaceOf(buf, start);
    var behind := start + bLength;
    var s := SkipLoop(buf, behind, false);
    if s == BadLength {
      return Error;
    }
    p := ReadBehind(buf, s.end, desc, buf[behind..s.end], last);
  }

  /** The rest of the pass, behind the extra descriptors. */
  method ReadBehind(buf: seq<Byte>, pos: nat, desc: InterfaceDesc, extra: seq<Byte>, last: bool)
    returns (p: Parsed<AltStep>)
    requires pos <= |buf|
    ensures p == ParseBehind(buf, pos, desc, extra, last)
  {
    if |buf| - pos >= 2 && (buf[pos + 1] == CONFIG || buf[pos + 1] == DEVICE) {
      return Ok(AltStep(Altsetting(desc, [], extra), false), pos);
    }
    if desc.bNumEndpoints > MAX_ENDPOINTS {
      return Error;
    }
    var eps := ReadEndpoints(buf, pos, desc.bNumEndpoints);
    match eps {
      case Error =>
        // Frees `altsettings[num_altsettings].endpoints`, which is nothing yet if that slot exists.
        return if last then Fault else Error;
      case Fault => return Fault;
      case Ok(endpoints, end) =>
        var more := |buf| - end >= INTERFACE_SIZE && buf[end + 1] == INTERFACE && buf[end + 3] != 0;
        return Ok(AltStep(Altsetting(desc, endpoints, extra), more), end);
    }
  }

  /** One pass, in the loop below: `all` is what the loop comes to. */
  method ReadNextAlt(buf: seq<Byte>, pos: nat, slots: nat, done: seq<Altsetting>, ghost all: Parsed<seq<Altsetting>>)
    returns (result: Option<Parsed<seq<Altsetting>>>, alts: seq<Altsetting>, end: nat)
    requires pos + INTERFACE_SIZE <= |buf| && |done| < slots
    requires all == Behind(done, ParseAlts(buf, pos, slots - |done|))
    ensures result.Some? ==> result.value == all
    ensures result.None? ==> end <= |buf| && |alts| == |done| + 1
    ensures result.None? ==> all == Behind(alts, ParseAlts(buf, end, slots - |alts|))
  {
    var alt := ReadAlt(buf, pos, |done| + 1 == slots);
    AltsBehind(buf, pos, slots - |done|, done, all, alt);
    match alt {
      case Error => return Some(Error), [], 0;
      case Fault => return Some(Fault), [], 0;
      case Ok(step, next) =>
        alts, end := done + [step.alt], next;
        result := if step.more then None else Some(Ok(alts, end));
    }
  }

  /** The loop of usbi_parse_interface over alternate settings, with `slots` of them allocated. */
  method ReadAlts(buf: seq<Byte>, start: nat, slots: nat) returns (p: Parsed<seq<Altsetting>>)
    requires start <= |buf|
    ensures p == ParseAlts(buf, start, slots)
  {
    var pos: nat, altsettings := start, [];
    ghost var all := ParseAlts(buf, start, slots);
    BehindNothing(all);
    while |buf| - pos >= INTERFACE_SIZE
      invariant pos <= |buf| && |altsettings| <= slots
      invariant all == Behind(altsettings, ParseAlts(buf, pos, slots - |altsettings|))
      decreases slots - |altsettings|
    {
      if |altsettings| == slots {
        return Fault;
      }
      var result;
      result, altsettings, pos := ReadNextAlt(buf, pos, slots, altsettings, all);
      if result.Some? {
        return result.value;
      }
    }
    assert altsettings + [] == altsettings;
    return Ok(altsettings, pos);
  }

  /** usbi_parse_interface. */
  method ReadInterface(buf: seq<Byte>, start: nat) returns (p: Parsed<Interface>)
    requires start <= |buf|
    ensures p == ParseInterface(buf, start)
  {
    if start == |buf| {
      return Error;
    }
    if At(buf, start + 1) != INTERFACE {
      return Ok(NO_INTERFACE, |buf|);
    }
    var later := CountLaterAlts(buf, start, At(buf, start + 2));
    if later.None? {
      return Fault;
    }
    var alts := ReadAlts(buf, start, Slots(later.value));
    match alts {
      case Error => return Error;
      case Fault => return Fault;
      case Ok(altsettings, end) => return Ok(Interface(altsettings), end);
    }
  }

  /** The last loop of usbi_parse_configuration. */
  method ReadInterfaces(buf: seq<Byte>, start: nat, n: nat) returns (p: Parsed<seq<Interface>>)
    requires start <= |buf|
    ensures p == ParseInterfaces(buf, start, n)
  {
    var pos: nat, interfaces := start, [];
    ghost var all := ParseInterfaces(buf, start, n);
    BehindNothing(all);
    var i := 0;
    while i < n && pos < |buf|
      invariant pos <= |buf| && |interfaces| == i <= n
      invariant all == Behind(interfaces, ParseInterfaces(buf, pos, n - i))
    {
      var retval := ReadInterface(buf, pos);
      InterfacesBehind(buf, pos, n - i, interfaces, all, retval);
      match retval {
        case Error => return Error;
        case Fault => return Fault;
        case Ok(ifc, end) =>
          interfaces := interfaces + [ifc];
          pos := end;
      }
      i := i + 1;
    }
    return Ok(interfaces + seq(n - i, j => NO_INTERFACE), pos);
  }

  /** usbi_parse_configuration. */
  method ReadConfiguration(buf: seq<Byte>) returns (r: ConfigResult)
    ensures r == ParseConfiguration(buf)
  {
    if buf == [] {
      return Rejected;
    }
    var desc := ConfigOf(buf);
    if desc.bNumInterfaces > MAX_INTERFACES {
      return Rejected;
    }
    if buf[0] > |buf| {
      return Rejected;
    }
    var s := SkipLoop(buf, buf[0], true);
    match s {
      case BadLength => return Rejected;
      case Skipped(start) =>
        var extra := buf[buf[0]..start];
        var interfaces := ReadInterfaces(buf, start, desc.bNumInterfaces);
        match interfaces {
          case Error => return Rejected;
          case Fault => return Faulted;
          case Ok(ifcs, end) => return Tree(Config(desc, ifcs, extra), |buf| - end);
        }
    }
  }
}
