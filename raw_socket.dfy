/**
 * The platform-independent face of the raw socket layer: `Socket::new`,
 * `send_raw_packet`, `read_raw_packet` and `read_raw_packet_timeout`
 * dispatch to the back-end of the platform the crate is built for, and the
 * getters hand back the addresses stored at construction.
 *
 * A `Platform` names the build target and carries the oracles of its
 * foreign calls. The timeout wrapper is an oracle too: `finished` says
 * whether the background read completed before the deadline.
 */
module RawSocket {
  import opened NetTypes
  import LinuxBackend
  import WindowsBackend

  /** The results of the Linux foreign calls: socket(), ioctl, sendto and recvfrom. */
  datatype LinuxOs = LinuxOs(
    socketResult: int,
    kernel: LinuxBackend.Kernel,
    sendto: LinuxBackend.SendTo,
    recv: LinuxBackend.RecvReply)

  /** The results of the Windows foreign calls: GetAdaptersInfo, pcap_open, pcap_inject and pcap_next_ex. */
  datatype WindowsOs = WindowsOs(
    enumResult: nat,
    adapters: WindowsBackend.AdapterInfo?,
    pcapOpen: WindowsBackend.PcapOpen,
    inject: WindowsBackend.Inject,
    next: WindowsBackend.PcapNext)

  /** The build target. */
  datatype Platform = Linux(linux: LinuxOs) | Windows(windows: WindowsOs) | Unsupported

  /** A socket has the fields its platform's build gives the struct. */
  predicate BuiltFor(s: Socket, p: Platform)
  {
    match p
    case Linux(_) => s.handle.Descriptor?
    case Windows(_) => s.handle.Adapter?
    case Unsupported => s.handle.NoHandle?
  }

  /** The adapter list of a Windows platform is `nodes`. */
  ghost predicate Enumerated(p: Platform, nodes: seq<WindowsBackend.AdapterInfo>)
  {
    p.Windows? ==> WindowsBackend.ListFrom(p.windows.adapters, nodes)
  }

  /** On Linux, the bound new_linux leaves to its caller: a name that reaches ifr_name fits it. */
  predicate NameFits(p: Platform, interface: seq<byte>)
  {
    p.Linux? ==> LinuxBackend.CopyFits(interface, p.linux.socketResult)
  }

  /** What Socket::new returns. */
  function Opened(p: Platform, interface: seq<byte>, nodes: seq<WindowsBackend.AdapterInfo>): (r: Result<Socket>)
    requires NameFits(p, interface)
  {
    match p
    case Linux(os) => LinuxBackend.LinuxOpen(interface, os.socketResult, os.kernel)
    case Windows(os) => WindowsBackend.WindowsOpen(interface, os.enumResult, nodes, os.pcapOpen)
    case Unsupported => Err(OS)
  }

  /** Socket::new. */
  method New(p: Platform, interface: seq<byte>, ghost nodes: seq<WindowsBackend.AdapterInfo>) returns (r: Result<Socket>)
    requires Enumerated(p, nodes) && NameFits(p, interface)
    ensures r == Opened(p, interface, nodes)
    ensures r.Ok? ==> BuiltFor(r.value, p)
  {
    match p {
      case Linux(os) =>
        var kernel := new LinuxBackend.IoctlKernel(os.kernel);
        r := LinuxBackend.NewLinux(interface, os.socketResult, kernel);
      case Windows(os) =>
        r := WindowsBackend.NewWindows(interface, os.enumResult, os.adapters, nodes, os.pcapOpen);
      case Unsupported =>
        r := Err(OS);
    }
  }

  /** What send_raw_packet returns. */
  function SendResult(s: Socket, buffer: seq<byte>, p: Platform): (r: Result<()>)
    requires BuiltFor(s, p)
  {
    match p
    case Linux(os) => LinuxBackend.SendResult(s, buffer, os.sendto)
    case Windows(os) => WindowsBackend.SendRawPacketWindows(s, buffer, os.inject)
    case Unsupported => Err(OS)
  }

  /** send_raw_packet: only Sockets or, off Linux and Windows, OS can come back. */
  method SendRawPacket(s: Socket, buffer: seq<byte>, p: Platform) returns (r: Result<()>)
    requires BuiltFor(s, p)
    ensures r == SendResult(s, buffer, p)
    ensures r.Err? ==> r.kind == (if p.Unsupported? then OS else Sockets)
  {
    match p {
      case Linux(os) =>
        var sent, _ := LinuxBackend.SendRawPacketLinux(s, buffer, os.sendto);
        r := sent;
      case Windows(os) =>
        r := WindowsBackend.SendRawPacketWindows(s, buffer, os.inject);
      case Unsupported =>
        r := Err(OS);
    }
  }

  /** The oracle of the platform's read call fits the caller's buffer. */
  predicate ReadFits(p: Platform, capacity: nat)
  {
    match p
    case Linux(os) => LinuxBackend.FitsBuffer(os.recv, capacity)
    case Windows(os) => WindowsBackend.DeliversCaplen(os.next)
    case Unsupported => true
  }

  /** What read_raw_packet returns. */
  function ReadResult(p: Platform): (r: Result<()>)
  {
    match p
    case Linux(os) => LinuxBackend.ReadResult(os.recv)
    case Windows(os) => WindowsBackend.ReadResult(os.next)
    case Unsupported => Err(OS)
  }

  /** The caller's buffer after read_raw_packet. */
  function AfterRead(buffer: seq<byte>, p: Platform): (b: seq<byte>)
    requires ReadFits(p, |buffer|)
    ensures |b| == |buffer|
  {
    match p
    case Linux(os) => LinuxBackend.Received(buffer, os.recv)
    case Windows(os) => WindowsBackend.Received(buffer, os.next)
    case Unsupported => buffer
  }

  /** read_raw_packet. */
  method ReadRawPacket(s: Socket, buffer: array<byte>, p: Platform) returns (r: Result<()>)
    requires BuiltFor(s, p) && ReadFits(p, buffer.Length)
    modifies buffer
    ensures r == ReadResult(p)
    ensures buffer[..] == AfterRead(old(buffer[..]), p)
  {
    match p {
      case Linux(os) =>
        r := LinuxBackend.ReadRawPacketLinux(s, buffer, os.recv);
      case Windows(os) =>
        r := WindowsBackend.ReadRawPacketWindows(s, buffer, os.next);
      case Unsupported =>
        r := Err(OS);
    }
  }

  /** The match in read_raw_packet_timeout: no result in time is TimeOut, a result is passed on. */
  function FromTimeout(outcome: Option<Result<()>>): (r: Result<()>)
  {
    match outcome
    case None => Err(TimeOut)
    case Some(result) => result
  }

  /**
   * read_raw_packet_timeout. The background read is not cancelled: it runs to
   * completion whether or not it finished in time, and after a timeout
   * nothing is promised about the buffer.
   */
  method ReadRawPacketTimeout(s: Socket, buffer: array<byte>, p: Platform, finished: bool) returns (r: Result<()>)
    requires BuiltFor(s, p) && ReadFits(p, buffer.Length)
    modifies buffer
    ensures r == FromTimeout(if finished then Some(ReadResult(p)) else None)
    ensures finished ==> buffer[..] == AfterRead(old(buffer[..]), p)
  {
    var result := ReadRawPacket(s, buffer, p);
    r := FromTimeout(if finished then Some(result) else None);
  }

  /** A read that finishes in time is the plain read; one that does not is TimeOut whatever it would have returned. */
  lemma TimeoutOutcome(p: Platform, finished: bool)
    ensures FromTimeout(if finished then Some(ReadResult(p)) else None) == if finished then ReadResult(p) else Err(TimeOut)
    ensures forall r: Result<()> :: FromTimeout(Some(r)) == r
  {
  }

  /** get_src_ip: the address stored when the socket was opened. */
  function GetSrcIp(s: Socket): (ip: Ipv4)
  {
    s.srcIp
  }

  /** get_src_mac: the hardware address stored when the socket was opened. */
  function GetSrcMac(s: Socket): (mac: Mac)
  {
    s.srcMac
  }

  /**
   * The getters of an opened socket report what resolution found: on Linux
   * the address and hardware address of the three queries, on Windows the
   * entry of the last adapter whose name matched.
   */
  lemma GettersReportResolved(p: Platform, interface: seq<byte>, nodes: seq<WindowsBackend.AdapterInfo>)
    requires NameFits(p, interface) && Opened(p, interface, nodes).Ok?
    ensures p.Linux? ==> NoNul(interface) && |interface| + 1 <= LinuxBackend.IFNAMSIZ
    ensures p.Linux? ==>
      && var info := LinuxBackend.Resolve(p.linux.kernel, p.linux.socketResult, LinuxBackend.NameField(interface));
      && info.Ok?
      && GetSrcIp(Opened(p, interface, nodes).value) == info.value.ip
      && GetSrcMac(Opened(p, interface, nodes).value) == info.value.mac
      && Opened(p, interface, nodes).value.handle == Descriptor(p.linux.socketResult, info.value.ifindex)
    ensures p.Windows? ==>
      && WindowsBackend.Lookup(interface, nodes).Some?
      && (GetSrcIp(Opened(p, interface, nodes).value), GetSrcMac(Opened(p, interface, nodes).value))
           == WindowsBackend.Lookup(interface, nodes).value
    ensures !p.Unsupported?
  {
    match p {
      case Linux(os) =>
        LinuxBackend.LinuxOpenOutcome(interface, os.socketResult, os.kernel);
      case Windows(os) =>
        WindowsBackend.WindowsOpenOutcome(interface, os.enumResult, nodes, os.pcapOpen);
      case Unsupported =>
    }
  }

  /** Opening fails only with the kinds its platform can produce; in particular Windows never reports Parse. */
  lemma OpenErrorKinds(p: Platform, interface: seq<byte>, nodes: seq<WindowsBackend.AdapterInfo>)
    requires NameFits(p, interface)
    ensures var r := Opened(p, interface, nodes);
      && (p.Unsupported? ==> r == Err(OS))
      && (p.Linux? && r.Err? ==> r.kind in {Parse, Initialize, Sockets})
      && (p.Windows? && r.Err? ==> r.kind in {InvalidArgument, Sockets})
  {
    match p {
      case Linux(os) =>
        LinuxBackend.LinuxOpenOutcome(interface, os.socketResult, os.kernel);
      case Windows(os) =>
        WindowsBackend.WindowsOpenOutcome(interface, os.enumResult, nodes, os.pcapOpen);
      case Unsupported =>
    }
  }
}
