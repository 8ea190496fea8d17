/**
 * The Linux back-end of the raw socket layer: an AF_PACKET socket, the
 * interface resolution by three ioctl queries on one shared `struct ifreq`,
 * and send/receive through sendto/recvfrom.
 *
 * The kernel is an oracle: `Kernel` says what an ioctl returns and what it
 * leaves in the request's union for a given descriptor, command and
 * 16-byte ifr_name field, and an `IoctlKernel` object logs the queries it
 * receives; `SendTo` says what sendto returns; a `RecvReply`
 * says what recvfrom returns and writes.
 */
module LinuxBackend {
  import opened NetTypes

  /** Size of the ifr_name field of struct ifreq. */
  const IFNAMSIZ := 16
  /** Size of the ifr_ifru union of struct ifreq on 64-bit Linux (its largest member is struct ifmap). */
  const IFRU_LEN := 24
  /** Size of the sll_addr field of struct sockaddr_ll. */
  const SLL_ADDR_LEN := 8

  /** The bytes of the ifr_ifru union. */
  type Union = s: seq<byte> | |s| == IFRU_LEN witness Zeros(IFRU_LEN)

  datatype IoctlCmd = SIOCGIFINDEX | SIOCGIFADDR | SIOCGIFHWADDR

  /** The order in which get_interface_info issues its queries. */
  const QUERY_ORDER: seq<IoctlCmd> := [SIOCGIFINDEX, SIOCGIFADDR, SIOCGIFHWADDR]

  /** What one ioctl returns and, when it does not return -1, leaves in the union. */
  datatype IoctlReply = IoctlReply(ret: int, ifru: Union)

  /** The kernel's answer to ioctl(fd, cmd, &ifr) for the given ifr_name field. */
  type Kernel = (int, IoctlCmd, seq<byte>) -> IoctlReply

  /** The resolved interface: index, IPv4 address and hardware address. */
  datatype IfInfo = IfInfo(ifindex: int, ip: Ipv4, mac: Mac)

  function Zeros(n: nat): (z: seq<byte>)
    ensures |z| == n && forall i :: 0 <= i < n ==> z[i] == 0
  {
    seq(n, _ => 0)
  }

  /** The ifr_name field after the name and its NUL are copied into the zeroed field. */
  function NameField(ifname: seq<byte>): (f: seq<byte>)
    requires |ifname| + 1 <= IFNAMSIZ
    ensures |f| == IFNAMSIZ && f[..|ifname|] == ifname
    ensures forall i :: |ifname| <= i < IFNAMSIZ ==> f[i] == 0
  {
    ifname + Zeros(IFNAMSIZ - |ifname|)
  }

  /** Four bytes read as a little-endian two's-complement 32-bit integer (an x86 or ARM i32). */
  function I32(b: seq<byte>): (v: int)
    requires |b| == 4
    ensures -0x8000_0000 <= v < 0x8000_0000
    ensures v % 0x1_0000_0000 == (b[0] as int + 0x100 * b[1] as int + 0x1_0000 * b[2] as int + 0x100_0000 * b[3] as int)
  {
    var u := b[0] as int + 0x100 * b[1] as int + 0x1_0000 * b[2] as int + 0x100_0000 * b[3] as int;
    if u < 0x8000_0000 then u else u - 0x1_0000_0000
  }

  /** The union read as ifru_ifindex (offset 0). */
  function IndexOf(u: Union): (index: int)
  {
    I32(u[0..4])
  }

  /** The union read as a sockaddr_in: sin_addr follows sin_family and sin_port (offset 4). */
  function AddrOf(u: Union): (ip: Ipv4)
  {
    u[4..8]
  }

  /** The first six bytes of sa_data of the union read as a sockaddr: after sa_family (offset 2). */
  function HwAddrOf(u: Union): (mac: Mac)
  {
    u[2..8]
  }

  /**
   * Runs the queries `cmds` in order against one request, stopping after the
   * first that returns -1: the unions the successful ones left, or the error,
   * together with the queries that were issued.
   */
  function RunQueries(kernel: Kernel, fd: int, field: seq<byte>, cmds: seq<IoctlCmd>): (res: (Result<seq<Union>>, seq<IoctlCmd>))
    ensures res.1 <= cmds
    ensures cmds != [] ==> res.1 != []
    ensures res.0.Ok? ==> |res.0.value| == |cmds|
  {
    if cmds == [] then (Ok([]), [])
    else
      var reply := kernel(fd, cmds[0], field);
      if reply.ret == -1 then (Err(Sockets), [cmds[0]])
      else
        var tail := RunQueries(kernel, fd, field, cmds[1..]);
        var out := if tail.0.Ok? then Ok([reply.ifru] + tail.0.value) else tail.0;
        (out, [cmds[0]] + tail.1)
  }

  /**
   * Running queries succeeds exactly when none returns -1, and then yields
   * each one's union in order, all queries having been issued; a failure is
   * Sockets, reported at the last query issued, every earlier one having
   * succeeded.
   */
  lemma {:induction false} RunQueriesOutcome(kernel: Kernel, fd: int, field: seq<byte>, cmds: seq<IoctlCmd>)
    ensures var res := RunQueries(kernel, fd, field, cmds);
      && (res.0.Ok? <==> forall i :: 0 <= i < |cmds| ==> kernel(fd, cmds[i], field).ret != -1)
      && (res.0.Ok? ==> res.1 == cmds && |res.0.value| == |cmds|)
      && (res.0.Ok? ==> forall i :: 0 <= i < |cmds| ==> res.0.value[i] == kernel(fd, cmds[i], field).ifru)
      && (res.0.Err? ==> res.0.kind == Sockets)
      && (res.0.Err? ==> kernel(fd, res.1[|res.1| - 1], field).ret == -1)
      && (res.0.Err? ==> forall i :: 0 <= i < |res.1| - 1 ==> kernel(fd, res.1[i], field).ret != -1)
    decreases |cmds|
  {
    if cmds != [] && kernel(fd, cmds[0], field).ret != -1 {
      var tail := cmds[1..];
      RunQueriesOutcome(kernel, fd, field, tail);
      var res := RunQueries(kernel, fd, field, cmds);
      var sub := RunQueries(kernel, fd, field, tail);
      assert res.1 == [cmds[0]] + sub.1;
      assert forall i :: 1 <= i < |cmds| ==> cmds[i] == tail[i - 1];
      if sub.0.Ok? {
        assert res.0.value == [kernel(fd, cmds[0], field).ifru] + sub.0.value;
      } else {
        assert res.0 == sub.0;
        assert forall i :: 1 <= i < |res.1| ==> res.1[i] == sub.1[i - 1];
      }
    }
  }

  /** What get_interface_info returns for the given ifr_name field. */
  function Resolve(kernel: Kernel, fd: int, field: seq<byte>): (r: Result<IfInfo>)
  {
    var (res, _) := RunQueries(kernel, fd, field, QUERY_ORDER);
    match res
    case Err(k) => Err(k)
    case Ok(us) => Ok(IfInfo(IndexOf(us[0]), AddrOf(us[1]), HwAddrOf(us[2])))
  }

  /** The queries get_interface_info issues for the given ifr_name field. */
  function Issued(kernel: Kernel, fd: int, field: seq<byte>): (cmds: seq<IoctlCmd>)
  {
    RunQueries(kernel, fd, field, QUERY_ORDER).1
  }

  /**
   * Resolution succeeds exactly when none of the three queries returns -1 and
   * then reports the index, address and hardware address the kernel left in
   * the union; otherwise it fails with Sockets at the first failing query,
   * after which no query is issued.
   */
  lemma ResolveOutcome(kernel: Kernel, fd: int, field: seq<byte>)
    ensures var a, b, c := kernel(fd, SIOCGIFINDEX, field), kernel(fd, SIOCGIFADDR, field), kernel(fd, SIOCGIFHWADDR, field);
      && (Resolve(kernel, fd, field).Ok? <==> a.ret != -1 && b.ret != -1 && c.ret != -1)
      && (Resolve(kernel, fd, field).Ok? ==>
            Resolve(kernel, fd, field).value == IfInfo(IndexOf(a.ifru), AddrOf(b.ifru), HwAddrOf(c.ifru))
            && Issued(kernel, fd, field) == QUERY_ORDER)
      && (Resolve(kernel, fd, field).Err? ==> Resolve(kernel, fd, field).kind == Sockets)
      && (a.ret == -1 ==> Issued(kernel, fd, field) == [SIOCGIFINDEX])
      && (a.ret != -1 && b.ret == -1 ==> Issued(kernel, fd, field) == [SIOCGIFINDEX, SIOCGIFADDR])
      && (a.ret != -1 && b.ret != -1 ==> Issued(kernel, fd, field) == QUERY_ORDER)
  {
    var res := RunQueries(kernel, fd, field, QUERY_ORDER);
    RunQueriesOutcome(kernel, fd, field, QUERY_ORDER);
    assert forall i :: 0 <= i < 3 ==> QUERY_ORDER[i] == [SIOCGIFINDEX, SIOCGIFADDR, SIOCGIFHWADDR][i];
    if kernel(fd, SIOCGIFINDEX, field).ret == -1 {
      assert res.1 <= QUERY_ORDER && res.1 != [];
      assert res.1[..1] == [SIOCGIFINDEX];
    } else if kernel(fd, SIOCGIFADDR, field).ret == -1 {
      assert res.0.Err? by {
        assert kernel(fd, QUERY_ORDER[1], field).ret == -1;
      }
      assert |res.1| != 1 && |res.1| != 3 by {
        assert res.1 == QUERY_ORDER[..|res.1|];
      }
      assert res.1 == QUERY_ORDER[..2];
    } else {
      assert |res.1| == 3 by {
        assert res.1 == QUERY_ORDER[..|res.1|];
      }
    }
  }

  /**
   * The kernel side of ioctl: its answers, and a ghost log of every query it
   * received, in order.
   */
  class IoctlKernel {
    const answer: Kernel
    ghost var log: seq<IoctlCmd>

    constructor (answer: Kernel)
      ensures this.answer == answer && log == []
    {
      this.answer := answer;
      log := [];
    }
  }

  /** The request record shared by the three queries. */
  class IfRequest {
    const name: array<byte>
    const ifru: array<byte>

    ghost predicate Valid()
    {
      name.Length == IFNAMSIZ && ifru.Length == IFRU_LEN && name != ifru
    }

    constructor ()
      ensures Valid() && fresh(name) && fresh(ifru)
      ensures name[..] == Zeros(IFNAMSIZ) && ifru[..] == Zeros(IFRU_LEN)
    {
      name := new byte[IFNAMSIZ](_ => 0);
      ifru := new byte[IFRU_LEN](_ => 0);
    }

    /** Copies the name and its NUL into ifr_name; the bytes must fit, which no caller in the source checks. */
    method LoadName(ifname: seq<byte>)
      requires Valid() && |ifname| + 1 <= IFNAMSIZ
      modifies name
      ensures name[..] == Overwritten(old(name[..]), ifname + [0], |ifname| + 1)
    {
      Memcpy(name, ifname + [0], |ifname| + 1);
    }

    /** One ioctl: the kernel reads ifr_name, logs the query and, unless it returns -1, fills the union. */
    method Ioctl(fd: int, cmd: IoctlCmd, kernel: IoctlKernel) returns (ret: int)
      requires Valid()
      modifies ifru, kernel
      ensures ret == kernel.answer(fd, cmd, name[..]).ret
      ensures ifru[..] == if ret == -1 then old(ifru[..]) else kernel.answer(fd, cmd, name[..]).ifru
      ensures kernel.log == old(kernel.log) + [cmd]
    {
      var reply := kernel.answer(fd, cmd, name[..]);
      ret := reply.ret;
      if ret != -1 {
        Memcpy(ifru, reply.ifru, IFRU_LEN);
      }
      kernel.log := kernel.log + [cmd];
    }
  }

  /** get_if_index: SIOCGIFINDEX, then the union's ifru_ifindex. */
  method GetIfIndex(fd: int, ifr: IfRequest, kernel: IoctlKernel) returns (r: Result<int>)
    requires ifr.Valid()
    modifies ifr.ifru, kernel
    ensures var reply := kernel.answer(fd, SIOCGIFINDEX, ifr.name[..]);
      && r == (if reply.ret == -1 then Err(Sockets) else Ok(IndexOf(reply.ifru)))
      && ifr.ifru[..] == if reply.ret == -1 then old(ifr.ifru[..]) else reply.ifru
    ensures kernel.log == old(kernel.log) + [SIOCGIFINDEX]
  {
    var ret := ifr.Ioctl(fd, SIOCGIFINDEX, kernel);
    if ret == -1 {
      return Err(Sockets);
    }
    r := Ok(I32(ifr.ifru[0..4]));
  }

  /** get_if_ip: SIOCGIFADDR, then sin_addr of the union read as a sockaddr_in. */
  method GetIfIp(fd: int, ifr: IfRequest, kernel: IoctlKernel) returns (r: Result<Ipv4>)
    requires ifr.Valid()
    modifies ifr.ifru, kernel
    ensures var reply := kernel.answer(fd, SIOCGIFADDR, ifr.name[..]);
      && r == (if reply.ret == -1 then Err(Sockets) else Ok(AddrOf(reply.ifru)))
      && ifr.ifru[..] == if reply.ret == -1 then old(ifr.ifru[..]) else reply.ifru
    ensures kernel.log == old(kernel.log) + [SIOCGIFADDR]
  {
    var ret := ifr.Ioctl(fd, SIOCGIFADDR, kernel);
    if ret == -1 {
      return Err(Sockets);
    }
    r := Ok(ifr.ifru[4..8]);
  }

  /** get_if_mac: SIOCGIFHWADDR, then the first six bytes of sa_data. */
  method GetIfMac(fd: int, ifr: IfRequest, kernel: IoctlKernel) returns (r: Result<Mac>)
    requires ifr.Valid()
    modifies ifr.ifru, kernel
    ensures var reply := kernel.answer(fd, SIOCGIFHWADDR, ifr.name[..]);
      && r == (if reply.ret == -1 then Err(Sockets) else Ok(HwAddrOf(reply.ifru)))
      && ifr.ifru[..] == if reply.ret == -1 then old(ifr.ifru[..]) else reply.ifru
    ensures kernel.log == old(kernel.log) + [SIOCGIFHWADDR]
  {
    var ret := ifr.Ioctl(fd, SIOCGIFHWADDR, kernel);
    if ret == -1 {
      return Err(Sockets);
    }
    r := Ok(ifr.ifru[2..8]);
  }

  /**
   * get_interface_info: loads the C string into one request record and runs
   * the index, address and hardware-address queries on it in that order.
   * The kernel's log grows by exactly the queries issued.
   */
  method GetInterfaceInfo(fd: int, ifname: seq<byte>, kernel: IoctlKernel) returns (r: Result<IfInfo>)
    requires NoNul(ifname) && |ifname| + 1 <= IFNAMSIZ
    modifies kernel
    ensures r == Resolve(kernel.answer, fd, NameField(ifname))
    ensures kernel.log == old(kernel.log) + Issued(kernel.answer, fd, NameField(ifname))
  {
    var req := new IfRequest();
    req.LoadName(ifname);
    ghost var field := req.name[..];
    assert field == NameField(ifname);
    ResolveOutcome(kernel.answer, fd, field);
    var index := GetIfIndex(fd, req, kernel);
    if index.Err? {
      return Err(index.kind);
    }
    var ip := GetIfIp(fd, req, kernel);
    if ip.Err? {
      return Err(ip.kind);
    }
    var mac := GetIfMac(fd, req, kernel);
    if mac.Err? {
      return Err(mac.kind);
    }
    r := Ok(IfInfo(index.value, ip.value, mac.value));
  }

  /**
   * The bound new_linux leaves to its caller: when the name converts and
   * socket() succeeds, the name and its NUL are copied into the sixteen-byte
   * ifr_name, so they must fit. The source checks neither this nor anything
   * equivalent.
   */
  predicate CopyFits(interface: seq<byte>, fd: int)
  {
    NoNul(interface) && fd >= 0 ==> |interface| + 1 <= IFNAMSIZ
  }

  /** What new_linux returns for the interface name, the descriptor socket() returned and the kernel. */
  function LinuxOpen(interface: seq<byte>, fd: int, kernel: Kernel): (r: Result<Socket>)
    requires CopyFits(interface, fd)
  {
    if !NoNul(interface) then Err(Parse)
    else if fd < 0 then Err(Initialize)
    else match Resolve(kernel, fd, NameField(interface))
      case Err(k) => Err(k)
      case Ok(info) => Ok(Socket(Descriptor(fd, info.ifindex), info.ip, info.mac))
  }

  /** True when new_linux gets as far as the resolution queries. */
  predicate QueriesKernel(interface: seq<byte>, fd: int)
  {
    NoNul(interface) && fd >= 0
  }

  /** new_linux: C string conversion, socket(), then get_interface_info on that descriptor. */
  method NewLinux(interface: seq<byte>, fd: int, kernel: IoctlKernel) returns (r: Result<Socket>)
    requires CopyFits(interface, fd)
    modifies kernel
    ensures r == LinuxOpen(interface, fd, kernel.answer)
    ensures kernel.log == old(kernel.log) + if QueriesKernel(interface, fd) then Issued(kernel.answer, fd, NameField(interface)) else []
  {
    if !NoNul(interface) {
      return Err(Parse);
    }
    if fd < 0 {
      return Err(Initialize);
    }
    var info := GetInterfaceInfo(fd, interface, kernel);
    if info.Err? {
      return Err(info.kind);
    }
    r := Ok(Socket(Descriptor(fd, info.value.ifindex), info.value.ip, info.value.mac));
  }

  /**
   * The outcomes of opening: Parse exactly for a name with a NUL byte;
   * Initialize for a negative descriptor, with no query issued; a resolver
   * failure unchanged; and on success a socket holding the descriptor and the
   * resolved index, address and hardware address.
   */
  lemma LinuxOpenOutcome(interface: seq<byte>, fd: int, kernel: Kernel)
    requires CopyFits(interface, fd)
    ensures LinuxOpen(interface, fd, kernel) == Err(Parse) <==> !NoNul(interface)
    ensures NoNul(interface) && fd < 0 ==> LinuxOpen(interface, fd, kernel) == Err(Initialize)
    ensures QueriesKernel(interface, fd) ==>
      match Resolve(kernel, fd, NameField(interface))
      case Err(k) => LinuxOpen(interface, fd, kernel) == Err(Sockets) && k == Sockets
      case Ok(info) => LinuxOpen(interface, fd, kernel) == Ok(Socket(Descriptor(fd, info.ifindex), info.ip, info.mac))
    ensures LinuxOpen(interface, fd, kernel).Ok? ==> QueriesKernel(interface, fd)
  {
    if QueriesKernel(interface, fd) {
      ResolveOutcome(kernel, fd, NameField(interface));
    }
  }

  /** The guards new_linux passes before copying the name into ifr_name: CString::new's NUL check and socket()'s result. */
  predicate AdmittedAsWritten(interface: seq<byte>, fd: int)
  {
    NoNul(interface) && fd >= 0
  }

  /**
   * As written, a sixteen-byte name such as "enp0s20f0u1u2u3u" on a working
   * descriptor passes both guards, yet it and its NUL are seventeen bytes
   * copied into the sixteen-byte ifr_name field.
   */
  lemma OverlongNameAdmittedAsWritten()
    ensures exists interface, fd :: AdmittedAsWritten(interface, fd) && !CopyFits(interface, fd)
  {
    var interface: seq<byte> := seq(16, _ => 0x61);
    assert AdmittedAsWritten(interface, 3) && !CopyFits(interface, 3);
  }

  /**
   * new_linux with the missing bound added after the descriptor check: a name
   * that converts but does not fit ifr_name with its NUL is refused with
   * InvalidArgument before any query.
   */
  function LinuxOpenChecked(interface: seq<byte>, fd: int, kernel: Kernel): (r: Result<Socket>)
  {
    if !CopyFits(interface, fd) then Err(InvalidArgument) else LinuxOpen(interface, fd, kernel)
  }

  /** new_linux with the bound checked. */
  method NewLinuxChecked(interface: seq<byte>, fd: int, kernel: IoctlKernel) returns (r: Result<Socket>)
    modifies kernel
    ensures r == LinuxOpenChecked(interface, fd, kernel.answer)
    ensures kernel.log == old(kernel.log) + if QueriesKernel(interface, fd) && CopyFits(interface, fd) then Issued(kernel.answer, fd, NameField(interface)) else []
  {
    if NoNul(interface) && fd >= 0 && |interface| + 1 > IFNAMSIZ {
      return Err(InvalidArgument);
    }
    r := NewLinux(interface, fd, kernel);
  }

  /**
   * The corrected open agrees with new_linux wherever the copy fits, keeps
   * Parse for a name with a NUL and Initialize for a negative descriptor
   * whatever the length, and for an overlong name never consults the kernel.
   */
  lemma LinuxOpenCheckedOutcome(interface: seq<byte>, fd: int, k1: Kernel, k2: Kernel)
    ensures CopyFits(interface, fd) ==> LinuxOpenChecked(interface, fd, k1) == LinuxOpen(interface, fd, k1)
    ensures LinuxOpenChecked(interface, fd, k1) == Err(Parse) <==> !NoNul(interface)
    ensures NoNul(interface) && fd < 0 ==> LinuxOpenChecked(interface, fd, k1) == Err(Initialize)
    ensures LinuxOpenChecked(interface, fd, k1) == Err(InvalidArgument) <==> !CopyFits(interface, fd)
    ensures !CopyFits(interface, fd) ==> LinuxOpenChecked(interface, fd, k1) == LinuxOpenChecked(interface, fd, k2)
    ensures LinuxOpenChecked(interface, fd, k1).Ok? ==> QueriesKernel(interface, fd) && |interface| + 1 <= IFNAMSIZ
  {
    if CopyFits(interface, fd) {
      LinuxOpenOutcome(interface, fd, k1);
    }
  }

  /** A struct sockaddr_ll, field by field. */
  datatype SockaddrLl = SockaddrLl(family: int, protocol: int, ifindex: int, hatype: int, pkttype: int, halen: int, addr: seq<byte>)

  /** What sendto returns for the descriptor, the buffer and the destination. */
  type SendTo = (int, seq<byte>, SockaddrLl) -> int

  /** The destination send_raw_packet_linux builds: the stored index, halen 6, the source MAC padded with zeros. */
  predicate IsDestinationFor(d: SockaddrLl, ifindex: int, mac: Mac)
  {
    && d.family == 0 && d.protocol == 0 && d.hatype == 0 && d.pkttype == 0
    && d.ifindex == ifindex
    && d.halen == MAC_LEN
    && |d.addr| == SLL_ADDR_LEN
    && d.addr[..MAC_LEN] == mac
    && d.addr[MAC_LEN..] == [0, 0]
  }

  /** The destination as a value. */
  function LinkDestination(ifindex: int, mac: Mac): (d: SockaddrLl)
    ensures IsDestinationFor(d, ifindex, mac)
  {
    SockaddrLl(0, 0, ifindex, 0, 0, MAC_LEN, mac + [0, 0])
  }

  /** The description of the destination determines it. */
  lemma DestinationUnique(d: SockaddrLl, ifindex: int, mac: Mac)
    requires IsDestinationFor(d, ifindex, mac)
    ensures d == LinkDestination(ifindex, mac)
  {
    assert d.addr == d.addr[..MAC_LEN] + d.addr[MAC_LEN..];
  }

  /** Builds the sockaddr_ll: a zeroed sll_addr whose first six bytes are set one by one from the MAC. */
  method Destination(ifindex: int, mac: Mac) returns (d: SockaddrLl)
    ensures IsDestinationFor(d, ifindex, mac)
  {
    var addr := new byte[SLL_ADDR_LEN](_ => 0);
    for i := 0 to MAC_LEN
      invariant addr[..i] == mac[..i]
      invariant forall k :: i <= k < SLL_ADDR_LEN ==> addr[k] == 0
    {
      addr[i] := mac[i];
    }
    d := SockaddrLl(0, 0, ifindex, 0, 0, MAC_LEN, addr[..]);
  }

  /** What send_raw_packet_linux returns: Sockets when sendto to the link destination returns a negative count. */
  function SendResult(s: Socket, buffer: seq<byte>, sendto: SendTo): (r: Result<()>)
    requires s.handle.Descriptor?
  {
    if sendto(s.handle.socket, buffer, LinkDestination(s.handle.ifindex, s.srcMac)) < 0 then Err(Sockets) else Ok(())
  }

  /** send_raw_packet_linux. */
  method SendRawPacketLinux(s: Socket, buffer: seq<byte>, sendto: SendTo) returns (r: Result<()>, ghost dest: SockaddrLl)
    requires s.handle.Descriptor?
    ensures IsDestinationFor(dest, s.handle.ifindex, s.srcMac)
    ensures r.Ok? <==> sendto(s.handle.socket, buffer, dest) >= 0
    ensures r.Err? ==> r.kind == Sockets
    ensures r == SendResult(s, buffer, sendto)
  {
    var addr := Destination(s.handle.ifindex, s.srcMac);
    DestinationUnique(addr, s.handle.ifindex, s.srcMac);
    dest := addr;
    var length := sendto(s.handle.socket, buffer, addr);
    if length < 0 {
      return Err(Sockets), dest;
    }
    r := Ok(());
  }

  /** What recvfrom returns and the frame bytes it writes at the start of the buffer. */
  datatype RecvReply = RecvReply(ret: int, frame: seq<byte>)

  /** recvfrom writes at most the buffer's length, and nothing when it fails. */
  predicate FitsBuffer(reply: RecvReply, capacity: nat)
  {
    reply.ret >= 0 ==> |reply.frame| <= capacity
  }

  /** What read_raw_packet_linux returns: Sockets for a negative length. */
  function ReadResult(reply: RecvReply): (r: Result<()>)
  {
    if reply.ret < 0 then Err(Sockets) else Ok(())
  }

  /** The buffer after recvfrom. */
  function Received(buffer: seq<byte>, reply: RecvReply): (b: seq<byte>)
    requires FitsBuffer(reply, |buffer|)
    ensures |b| == |buffer|
  {
    if reply.ret < 0 then buffer else Overwritten(buffer, reply.frame, |reply.frame|)
  }

  /** read_raw_packet_linux: one recvfrom into the caller's buffer. */
  method ReadRawPacketLinux(s: Socket, buffer: array<byte>, reply: RecvReply) returns (r: Result<()>)
    requires s.handle.Descriptor?
    requires FitsBuffer(reply, buffer.Length)
    modifies buffer
    ensures r == ReadResult(reply)
    ensures buffer[..] == Received(old(buffer[..]), reply)
  {
    if reply.ret >= 0 {
      Memcpy(buffer, reply.frame, |reply.frame|);
    }
    if reply.ret < 0 {
      return Err(Sockets);
    }
    r := Ok(());
  }
}
