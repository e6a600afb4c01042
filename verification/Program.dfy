/** Port binding of the loaded XDP program: reference counts in userspace, two kernel
    maps whose writes may fail, and the filter that reads them. */
module Program {
  import opened Wrappers
  import opened Egress
  import opened Parser

  /** The kernel maps as the filter sees them. */
  datatype Maps = Maps(ports: map<u16, byte>, count: nat)

  /** `has_bound_ports` and `is_bound_port`; without a count map only the port counts. */
  predicate Selected(maps: Maps, countAvailable: bool, port: u16)
  {
    (countAvailable ==> maps.count != 0) && port in maps.ports && maps.ports[port] != 0
  }

  class XdpProgram {
    const boundPortsProgram: bool
    const portsAvailable: bool
    const countAvailable: bool
    var maps: Maps
    var boundPorts: map<u16, nat>
    /** Whether every map write so far succeeded. */
    ghost var allWritten: bool

    function Refcount(port: u16): nat
      reads this
    {
      if port in boundPorts then boundPorts[port] else 0
    }

    /** Bound ports are selected by the filter; with no failed write, only those are, and the count
        map holds their number. */
    ghost predicate Valid()
      reads this
    {
      && (forall p :: p in boundPorts ==> boundPorts[p] > 0)
      && (portsAvailable ==> forall p :: p in boundPorts ==> Selected(maps, countAvailable, p))
      && (!portsAvailable ==> boundPorts == map[])
      && (allWritten && portsAvailable ==> forall p :: p in maps.ports && maps.ports[p] != 0 ==> p in boundPorts)
      && (allWritten && countAvailable ==> maps.count == |boundPorts|)
    }

    constructor (boundPortsProgram: bool, portsAvailable: bool, countAvailable: bool)
      ensures Valid() && boundPorts == map[] && allWritten && this.boundPortsProgram == boundPortsProgram
      ensures this.portsAvailable == portsAvailable && this.countAvailable == countAvailable
    {
      this.boundPortsProgram := boundPortsProgram;
      this.portsAvailable, this.countAvailable := portsAvailable, countAvailable;
      maps, boundPorts, allWritten := Maps(map[], 0), map[], true;
    }

    /** A kernel map write: all or nothing. */
    method SetPort(port: u16, value: byte, succeeds: bool) returns (ok: bool)
      modifies this`maps, this`allWritten
      ensures ok == succeeds && allWritten == (old(allWritten) && ok)
      ensures maps == if ok then old(maps).(ports := old(maps).ports[port := value]) else old(maps)
    {
      ok := succeeds;
      allWritten := allWritten && ok;
      if ok { maps := maps.(ports := maps.ports[port := value]); }
    }

    /** `set_bound_port_count`. */
    method SetCount(count: nat, succeeds: bool) returns (ok: bool)
      modifies this`maps, this`allWritten
      ensures ok == (!countAvailable || succeeds) && allWritten == (old(allWritten) && ok)
      ensures maps == if countAvailable && ok then old(maps).(count := count) else old(maps)
    {
      if !countAvailable { return true; }
      ok := succeeds;
      allWritten := allWritten && ok;
      if ok { maps := maps.(count := count); }
    }

    /** The count write, or nothing where there is no count map. */
    predicate CountWritten(countWrite: bool) { !countAvailable || countWrite }

    /** The map writes for the first user of a port, undone as far as possible when the
        second one fails. */
    method Select(port: u16, portWrite: bool, countWrite: bool, rollbackWrite: bool) returns (ok: bool)
      requires Valid() && portsAvailable && port !in boundPorts
      modifies this`maps, this`allWritten
      ensures ok == (portWrite && CountWritten(countWrite))
      ensures (portWrite && countWrite ==> allWritten == old(allWritten))
      ensures maps.ports - {port} == old(maps.ports) - {port}
      ensures !ok ==> Valid()
      ensures ok ==> maps.ports == old(maps.ports)[port := 1] && allWritten == old(allWritten)
      ensures ok ==> maps.count == if countAvailable then |boundPorts| + 1 else old(maps.count)
    {
      ok := SetPort(port, 1, portWrite);
      if !ok { return; }
      ok := SetCount(|boundPorts| + 1, countWrite);
      if !ok {
        var _ := SetPort(port, 0, rollbackWrite);
      }
    }

    /** `bind_port`: the count of this port goes up by one, or nothing is bound.  The
        three flags say which of the map writes succeed. */
    method BindPort(port: u16, portWrite: bool, countWrite: bool, rollbackWrite: bool) returns (ok: bool)
      requires Valid()
      modifies this
      ensures Valid()
      ensures forall p :: Refcount(p) == old(Refcount(p)) + if ok && portsAvailable && p == port then 1 else 0
      ensures ok <==>
        boundPortsProgram && (!portsAvailable || old(Refcount(port)) > 0 || (portWrite && CountWritten(countWrite)))
      ensures portWrite && countWrite ==> allWritten == old(allWritten)
      ensures maps.ports - {port} == old(maps.ports) - {port} && (!boundPortsProgram ==> maps == old(maps))
    {
      if !boundPortsProgram { return false; }
      if !portsAvailable { return true; }
      var refcount := Refcount(port);
      if refcount == 0 {
        ok := Select(port, portWrite, countWrite, rollbackWrite);
        if !ok { return; }
      }
      boundPorts := boundPorts[port := refcount + 1];
      return true;
    }

    /** `unbind_port`: the count goes down by one; the last user clears the map entry.
        When only the count write fails the port is unbound and an error is reported. */
    method UnbindPort(port: u16, portWrite: bool, countWrite: bool) returns (ok: bool)
      requires Valid()
      modifies this
      ensures Valid()
      ensures forall p :: p != port ==> Refcount(p) == old(Refcount(p))
      ensures Refcount(port) == old(Refcount(port))
        - if boundPortsProgram && (old(Refcount(port)) > 1 || (old(Refcount(port)) == 1 && portWrite)) then 1 else 0
      ensures ok <==> boundPortsProgram && (old(Refcount(port)) != 1 || (portWrite && CountWritten(countWrite)))
      ensures portWrite && countWrite ==> allWritten == old(allWritten)
      ensures maps.ports - {port} == old(maps.ports) - {port} && (!boundPortsProgram ==> maps == old(maps))
    {
      if !boundPortsProgram { return false; }
      if !portsAvailable || port !in boundPorts { return true; }
      var refcount := boundPorts[port];
      if refcount > 1 {
        boundPorts := boundPorts[port := refcount - 1];
        return true;
      }
      ok := Deselect(port, portWrite, countWrite);
    }

    /** The writes for the last user of a port. */
    method Deselect(port: u16, portWrite: bool, countWrite: bool) returns (ok: bool)
      requires Valid() && portsAvailable && port in boundPorts
      modifies this
      ensures Valid() && ok == (portWrite && CountWritten(countWrite))
      ensures boundPorts == if portWrite then old(boundPorts) - {port} else old(boundPorts)
      ensures portWrite && countWrite ==> allWritten == old(allWritten)
      ensures maps.ports - {port} == old(maps.ports) - {port}
    {
      ok := SetPort(port, 0, portWrite);
      if !ok { return; }
      boundPorts := boundPorts - {port};
      assert forall p :: p in boundPorts ==> boundPorts.Keys != {};
      ok := SetCount(|boundPorts|, countWrite);
    }
  }

  /** What the bound-ports program does with a frame. */
  predicate Redirects(maps: Maps, countAvailable: bool, frame: seq<byte>)
  {
    var port := EbpfPort(frame);
    port.Some? && Selected(maps, countAvailable, port.value)
  }

  /** In every reachable state, a frame that userspace would deliver to a bound port is
      redirected to userspace. */
  lemma BoundFramesAreRedirected(program: XdpProgram, frame: seq<byte>)
    requires program.Valid() && ParseEthernetIpv4Udp(frame).Udp?
    requires program.Refcount(ParseEthernetIpv4Udp(frame).parsed.destinationPort) > 0
    ensures Redirects(program.maps, program.countAvailable, frame)
  {
    ParsersAgree(frame, ParseEthernetIpv4Udp(frame).parsed.destinationPort);
  }

  /** With no failed write, exactly the bound ports are selected. */
  lemma SelectedIffBound(program: XdpProgram, port: u16)
    requires program.Valid() && program.portsAvailable && program.allWritten
    ensures Selected(program.maps, program.countAvailable, port) <==> program.Refcount(port) > 0
  {
  }

  // ---------------------------------------------------------------- port ranges

  /** `bound_port_range` of the filter; all zero means disabled. */
  function FilterRange(start: u16, end: u16): Option<(u16, u16)>
  {
    if (start == 0 && end == 0) || start > end then None else Some((start, end))
  }

  /** `XdpProgramConfig::validate` for a range. */
  predicate ValidateRange(start: u16, end: u16)
  {
    start <= end && !(start == 0 && end == 0)
  }

  /** What the port-range program does with a frame. */
  predicate RangeRedirects(start: u16, end: u16, frame: seq<byte>)
  {
    var port, range := EbpfPort(frame), FilterRange(start, end);
    port.Some? && range.Some? && range.value.0 <= port.value <= range.value.1
  }

  /** The loader accepts exactly the ranges that the filter acts on, and of the frames that
      userspace would deliver the filter redirects precisely those whose port lies in an
      accepted range. */
  lemma RangeAcceptedIffActive(start: u16, end: u16, frame: seq<byte>)
    ensures ValidateRange(start, end) <==> start <= end && 0 < end
    ensures ValidateRange(start, end) <==> FilterRange(start, end) == Some((start, end))
    ensures ParseEthernetIpv4Udp(frame).Udp? ==>
      (RangeRedirects(start, end, frame) <==>
         ValidateRange(start, end) && start <= ParseEthernetIpv4Udp(frame).parsed.destinationPort <= end)
  {
    if ParseEthernetIpv4Udp(frame).Udp? { ParsersAgree(frame, ParseEthernetIpv4Udp(frame).parsed.destinationPort); }
  }
}
