/** The linear scanners over the bytes of a configuration (devices.c), and their agreement with the tree. */
module DescriptorScanners {
  import opened Lists
  import opened Descriptors
  import opened DescriptorParser

  datatype Scan<T> = Found(desc: T) | ParseError | NoResources | BadArg

  /** The fields that every endpoint descriptor has; the scanner leaves the two others alone. */
  datatype CommonFields = CommonFields(
    bLength: nat, bDescriptorType: nat, bEndpointAddress: nat, bmAttributes: nat, wMaxPacketSize: nat, bInterval: nat)

  function CommonOf(e: EndpointDesc): CommonFields {
    CommonFields(e.bLength, e.bDescriptorType, e.bEndpointAddress, e.bmAttributes, e.wMaxPacketSize, e.bInterval)
  }

  /** An interface descriptor with this number and alternate setting. */
  predicate IsAlt(buf: seq<Byte>, pos: nat, number: nat, alt: nat) {
    IsInterface(buf, pos, number) && At(buf, pos + 3) == alt
  }

  /** Can a scanner step over the descriptor at `pos`? */
  predicate CanStep(buf: seq<Byte>, pos: nat) {
    At(buf, pos) > 0 && pos + At(buf, pos) <= |buf|
  }

  /** The first such descriptor from `pos` on; the scan ends when no more than `least` bytes are left. */
  function FindAlt(buf: seq<Byte>, pos: nat, number: nat, alt: nat, least: nat): (p: Option<nat>)
    ensures p.Some? ==> pos <= p.value < |buf|
    decreases |buf| - pos
  {
    if pos + least >= |buf| then None
    else if IsAlt(buf, pos, number, alt) then Some(pos)
    else if CanStep(buf, pos) then FindAlt(buf, pos + At(buf, pos), number, alt, least)
    else None
  }

  function InterfaceDescAt(buf: seq<Byte>, pos: Option<nat>): Scan<InterfaceDesc> {
    match pos
    case None => ParseError
    case Some(p) => if p + INTERFACE_SIZE <= |buf| then Found(InterfaceOf(buf, p)) else NoResources
  }

  /** Buffer lengths are 16-bit values. */
  const U16 := 0x1_0000

  /** openusb_parse_interface_desc on a buffer of the caller. */
  method ParseInterfaceDesc(buf: seq<Byte>, number: nat, alt: nat) returns (r: Scan<InterfaceDesc>)
    requires |buf| < U16
    ensures r == if |buf| < CONFIG_SIZE then BadArg else InterfaceDescAt(buf, FindAlt(buf, 0, number, alt, 3))
  {
    if |buf| < CONFIG_SIZE {
      return BadArg;
    }
    var sp: nat, tmplen: nat := 0, |buf|;
    while tmplen > 3
      invariant sp + tmplen == |buf| && FindAlt(buf, sp, number, alt, 3) == FindAlt(buf, 0, number, alt, 3)
    {
      if buf[sp + 1] == INTERFACE && buf[sp + 2] == number && buf[sp + 3] == alt {
        if tmplen < INTERFACE_SIZE {
          return NoResources;
        }
        return Found(InterfaceOf(buf, sp));
      }
      if buf[sp] > 0 && tmplen >= buf[sp] {
        tmplen := tmplen - buf[sp];
        sp := sp + buf[sp];
      } else {
        return ParseError;
      }
    }
    return ParseError;
  }

  /** The `n`-th descriptor of a type from `pos` on, before the next one of the type `stop` behind `start`. */
  function NthDesc(buf: seq<Byte>, start: nat, pos: nat, kind: nat, n: nat, stop: nat): (p: Option<nat>)
    ensures p.Some? ==> pos <= p.value < |buf|
    decreases |buf| - pos
  {
    if pos + 2 > |buf| || (pos != start && buf[pos + 1] == stop) then None
    else if buf[pos + 1] == kind && n == 0 then Some(pos)
    else if CanStep(buf, pos) then
      NthDesc(buf, start, pos + buf[pos], kind, if buf[pos + 1] == kind then n - 1 else n, stop)
    else None
  }

  /** usbi_nth_desc. */
  method FindNthDesc(buf: seq<Byte>, start: nat, kind: nat, n: nat, stop: nat) returns (p: Option<nat>)
    requires start <= |buf| < U16 && n < 256
    ensures p == NthDesc(buf, start, start, kind, n, stop)
  {
    var sp: nat, buflen: nat, left: nat := start, |buf| - start, n;
    while buflen >= 2
      invariant sp + buflen == |buf| && start <= sp && left < 256
      invariant NthDesc(buf, start, sp, kind, left, stop) == NthDesc(buf, start, start, kind, n, stop)
    {
      if sp != start && buf[sp + 1] == stop {
        return None;
      }
      if buf[sp + 1] == kind {
        if left == 0 {
          return Some(sp);
        }
        left := left - 1;
      }
      if buf[sp] == 0 || buflen < buf[sp] {
        return None;
      }
      buflen := buflen - buf[sp];
      sp := sp + buf[sp];
    }
    return None;
  }

  /** What is found for an endpoint of the alternate setting at `pos`. */
  function EndpointDescAt(buf: seq<Byte>, pos: Option<nat>, index: nat): Scan<CommonFields> {
    match pos
    case None => ParseError
    case Some(p) =>
      if index >= At(buf, p + 4) then BadArg
      else match NthDesc(buf, p, p, ENDPOINT, index, INTERFACE)
           case None => ParseError
           case Some(e) => if e + ENDPOINT_SIZE <= |buf| then Found(CommonOf(EndpointOf(buf, e))) else NoResources
  }

  /** openusb_parse_endpoint_desc on a buffer of the caller. */
  method ParseEndpointDesc(buf: seq<Byte>, number: nat, alt: nat, index: nat) returns (r: Scan<CommonFields>)
    requires |buf| < U16 && index < 256
    ensures r == if |buf| < CONFIG_SIZE then BadArg else EndpointDescAt(buf, FindAlt(buf, 0, number, alt, 4), index)
  {
    if |buf| < CONFIG_SIZE {
      return BadArg;
    }
    var sp: nat, tmplen: nat := 0, |buf|;
    while tmplen > 4
      invariant sp + tmplen == |buf| && FindAlt(buf, sp, number, alt, 4) == FindAlt(buf, 0, number, alt, 4)
    {
      if buf[sp + 1] == INTERFACE && buf[sp + 2] == number && buf[sp + 3] == alt {
        if index >= buf[sp + 4] {
          return BadArg;
        }
        var p := FindNthDesc(buf, sp, ENDPOINT, index, INTERFACE);
        if p.None? {
          return ParseError;
        }
        tmplen := tmplen - (p.value - sp);
        if tmplen < ENDPOINT_SIZE {
          return NoResources;
        }
        return Found(CommonOf(EndpointOf(buf, p.value)));
      }
      if buf[sp] > 0 && tmplen >= buf[sp] {
        tmplen := tmplen - buf[sp];
        sp := sp + buf[sp];
      } else {
        return ParseError;
      }
    }
    return ParseError;
  }

  /** What is left to count from `pos` on, added to a count kept in one byte; nothing when the scan fails. */
  function CountAltsFrom(buf: seq<Byte>, pos: nat, number: nat, count: nat): Option<nat>
    decreases |buf| - pos
  {
    if pos + 3 > |buf| || (At(buf, pos + 1) == INTERFACE && At(buf, pos + 2) > number) then Some(count)
    else
      var count' := if IsInterface(buf, pos, number) then (count + 1) % 256 else count;
      if CanStep(buf, pos) then CountAltsFrom(buf, pos + At(buf, pos), number, count') else None
  }

  /** usbi_get_num_altsettings; `None` stands for -1. */
  method GetNumAltsettings(buf: seq<Byte>, number: nat) returns (n: Option<nat>)
    requires |buf| < U16
    ensures n == if CountAltsFrom(buf, 0, number, 0) == Some(0) then None else CountAltsFrom(buf, 0, number, 0)
  {
    if |buf| == 0 {
      return None;
    }
    var p: nat, buflen: nat, numAlt: nat := 0, |buf|, 0;
    while buflen >= 3
      invariant p + buflen == |buf| && numAlt < 256
      invariant CountAltsFrom(buf, p, number, numAlt) == CountAltsFrom(buf, 0, number, 0)
    {
      if buf[p + 1] == INTERFACE && buf[p + 2] == number {
        numAlt := (numAlt + 1) % 256;
      } else if buf[p + 1] == INTERFACE && buf[p + 2] > number {
        break;
      }
      if buf[p] > 0 && buflen >= buf[p] {
        buflen := buflen - buf[p];
        p := p + buf[p];
      } else {
        return None;
      }
    }
    return if numAlt > 0 then Some(numAlt) else None;
  }
}
