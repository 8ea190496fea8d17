/**
 * The Windows back-end of the raw socket layer: adapter lookup over the list
 * GetAdaptersInfo fills, an npcap adapter opened with pcap_open, and
 * send/receive through pcap_inject/pcap_next_ex.
 *
 * The library and the OS are oracles: the result code of the second
 * GetAdaptersInfo call together with the linked list of records it filled,
 * a `PcapOpen` function from the arguments of pcap_open to the adapter
 * pointer (0 for NULL), an `Inject` function for pcap_inject's result, and
 * a `PcapNext` reply for pcap_next_ex.
 */
module WindowsBackend {
  import opened NetTypes

  /** Size of the Address field of IP_ADAPTER_INFO (MAX_ADAPTER_ADDRESS_LENGTH). */
  const MAX_ADAPTER_ADDRESS_LENGTH := 8

  type AdapterAddress = s: seq<byte> | |s| == MAX_ADAPTER_ADDRESS_LENGTH witness [0, 0, 0, 0, 0, 0, 0, 0]

  /** One IP_ADAPTER_INFO record; the code only reads it. */
  class AdapterInfo {
    /** AdapterName, a NUL-terminated character field. */
    const adapterName: seq<byte>
    /** Address, whose first six bytes are the MAC. */
    const address: AdapterAddress
    /** The four bytes at IpAddressList.Context, which the code copies as the IPv4 address. */
    const ipContext: Ipv4
    const next: AdapterInfo?

    constructor (adapterName: seq<byte>, address: AdapterAddress, ipContext: Ipv4, next: AdapterInfo?)
      ensures this.adapterName == adapterName && this.address == address
      ensures this.ipContext == ipContext && this.next == next
    {
      this.adapterName := adapterName;
      this.address := address;
      this.ipContext := ipContext;
      this.next := next;
    }
  }

  /** `nodes` is the list reached from `head` by following `next` until NULL. */
  ghost predicate ListFrom(head: AdapterInfo?, nodes: seq<AdapterInfo>)
    decreases |nodes|
  {
    if nodes == [] then head == null
    else head == nodes[0] && ListFrom(nodes[0].next, nodes[1..])
  }

  /** str_from_cstr: the bytes of a C string up to, not including, its first NUL. */
  function CStr(raw: seq<byte>): (s: seq<byte>)
    ensures NoNul(s) && s <= raw
    ensures |s| < |raw| ==> raw[|s|] == 0
  {
    if raw == [] || raw[0] == 0 then [] else [raw[0]] + CStr(raw[1..])
  }

  /** The record's printable name equals the requested one exactly. */
  predicate Matches(name: seq<byte>, a: AdapterInfo)
  {
    name == CStr(a.adapterName)
  }

  /** What the scan keeps from a matching record: the IPv4 bytes and the first six address bytes. */
  function Entry(a: AdapterInfo): (entry: (Ipv4, Mac))
  {
    (a.ipContext, a.address[..MAC_LEN])
  }

  /** What the scan holds after passing `nodes`: each match overwrites the previous one. */
  function Lookup(name: seq<byte>, nodes: seq<AdapterInfo>): (found: Option<(Ipv4, Mac)>)
    decreases |nodes|
  {
    if nodes == [] then None
    else if Matches(name, nodes[|nodes| - 1]) then Some(Entry(nodes[|nodes| - 1]))
    else Lookup(name, nodes[..|nodes| - 1])
  }

  /** Record k matches and no later record does. */
  predicate IsLastMatch(name: seq<byte>, nodes: seq<AdapterInfo>, k: int)
  {
    && 0 <= k < |nodes|
    && Matches(name, nodes[k])
    && forall j :: k < j < |nodes| ==> !Matches(name, nodes[j])
  }

  /** The lookup finds nothing exactly when no record matches, and otherwise the entry of the last match. */
  lemma {:induction false} LookupFindsLastMatch(name: seq<byte>, nodes: seq<AdapterInfo>)
    ensures Lookup(name, nodes).None? <==> forall i :: 0 <= i < |nodes| ==> !Matches(name, nodes[i])
    ensures forall k :: IsLastMatch(name, nodes, k) ==> Lookup(name, nodes) == Some(Entry(nodes[k]))
    decreases |nodes|
  {
    if nodes != [] {
      var init := nodes[..|nodes| - 1];
      LookupFindsLastMatch(name, init);
      assert forall i :: 0 <= i < |init| ==> init[i] == nodes[i];
      forall k | IsLastMatch(name, nodes, k)
        ensures Lookup(name, nodes) == Some(Entry(nodes[k]))
      {
        if k < |nodes| - 1 {
          assert IsLastMatch(name, init, k);
        }
      }
    }
  }

  /** No record's printable name holds a NUL, so a name with a NUL byte never matches. */
  lemma NulNameNeverMatches(name: seq<byte>, nodes: seq<AdapterInfo>)
    requires !NoNul(name)
    ensures Lookup(name, nodes).None?
  {
    LookupFindsLastMatch(name, nodes);
    forall i | 0 <= i < |nodes|
      ensures !Matches(name, nodes[i])
    {
      assert NoNul(CStr(nodes[i].adapterName));
    }
  }

  /** What get_interface_info returns: Sockets if enumeration failed, InvalidArgument if no record matched. */
  function AdapterResult(name: seq<byte>, enumResult: nat, nodes: seq<AdapterInfo>): (r: Result<(Ipv4, Mac)>)
  {
    if enumResult != 0 then Err(Sockets)
    else match Lookup(name, nodes)
      case None => Err(InvalidArgument)
      case Some(info) => Ok(info)
  }

  /**
   * get_interface_info: walks the adapter list without stopping at a match.
   * `scanned` counts the records looked at.
   */
  method GetInterfaceInfo(name: seq<byte>, enumResult: nat, head: AdapterInfo?, ghost nodes: seq<AdapterInfo>)
    returns (r: Result<(Ipv4, Mac)>, ghost scanned: nat)
    requires ListFrom(head, nodes)
    ensures r == AdapterResult(name, enumResult, nodes)
    ensures scanned == if enumResult != 0 then 0 else |nodes|
  {
    scanned := 0;
    if enumResult != 0 {
      return Err(Sockets), scanned;
    }
    var adapter := head;
    var adapterInfo: Option<(Ipv4, Mac)> := None;
    while adapter != null
      invariant scanned <= |nodes|
      invariant ListFrom(adapter, nodes[scanned..])
      invariant adapterInfo == Lookup(name, nodes[..scanned])
      decreases |nodes| - scanned
    {
      assert nodes[..scanned + 1][..scanned] == nodes[..scanned];
      if name == CStr(adapter.adapterName) {
        var mac: Mac := adapter.address[..MAC_LEN];
        adapterInfo := Some((adapter.ipContext, mac));
      }
      adapter := adapter.next;
      scanned := scanned + 1;
    }
    assert nodes[..scanned] == nodes;
    match adapterInfo {
      case None => r := Err(InvalidArgument);
      case Some(info) => r := Ok(info);
    }
  }

  /** A match leads to that entry, enumeration failure to Sockets, and no match to InvalidArgument. */
  lemma AdapterResultOutcome(name: seq<byte>, enumResult: nat, nodes: seq<AdapterInfo>)
    ensures enumResult != 0 ==> AdapterResult(name, enumResult, nodes) == Err(Sockets)
    ensures enumResult == 0 && (forall i :: 0 <= i < |nodes| ==> !Matches(name, nodes[i])) ==>
      AdapterResult(name, enumResult, nodes) == Err(InvalidArgument)
    ensures enumResult == 0 ==> forall k :: IsLastMatch(name, nodes, k) ==>
      AdapterResult(name, enumResult, nodes) == Ok(Entry(nodes[k]))
  {
    LookupFindsLastMatch(name, nodes);
  }

  const PCAP_SNAPLEN := 65535
  const PCAP_OPENFLAG_PROMISCUOUS := 1
  /** The read timeout in milliseconds new_windows passes to pcap_open. */
  const PCAP_READ_TIMEOUT := 1

  /** The bytes of "rpcap://\Device\NPF_". */
  const SOURCE_PREFIX: seq<byte> := [0x72, 0x70, 0x63, 0x61, 0x70, 0x3a, 0x2f, 0x2f,
                                     0x5c, 0x44, 0x65, 0x76, 0x69, 0x63, 0x65, 0x5c,
                                     0x4e, 0x50, 0x46, 0x5f]

  /** The arguments new_windows passes to pcap_open (no remote authentication). */
  datatype PcapOpenRequest = PcapOpenRequest(source: seq<byte>, snaplen: int, flags: int, readTimeout: int)

  /** The adapter pointer pcap_open returns, 0 for NULL. */
  type PcapOpen = PcapOpenRequest -> nat

  function OpenRequest(interface: seq<byte>): (req: PcapOpenRequest)
  {
    PcapOpenRequest(SOURCE_PREFIX + interface, PCAP_SNAPLEN, PCAP_OPENFLAG_PROMISCUOUS, PCAP_READ_TIMEOUT)
  }

  /** What new_windows returns. */
  function WindowsOpen(interface: seq<byte>, enumResult: nat, nodes: seq<AdapterInfo>, pcapOpen: PcapOpen): (r: Result<Socket>)
  {
    match AdapterResult(interface, enumResult, nodes)
    case Err(k) => Err(k)
    case Ok((ip, mac)) =>
      if !NoNul(SOURCE_PREFIX + interface) then Err(Parse)
      else if pcapOpen(OpenRequest(interface)) == 0 then Err(Sockets)
      else Ok(Socket(Adapter(pcapOpen(OpenRequest(interface))), ip, mac))
  }

  /** new_windows: adapter lookup, then pcap_open on the npcap source name. */
  method NewWindows(interface: seq<byte>, enumResult: nat, head: AdapterInfo?, ghost nodes: seq<AdapterInfo>, pcapOpen: PcapOpen)
    returns (r: Result<Socket>)
    requires ListFrom(head, nodes)
    ensures r == WindowsOpen(interface, enumResult, nodes, pcapOpen)
  {
    var info, _ := GetInterfaceInfo(interface, enumResult, head, nodes);
    if info.Err? {
      return Err(info.kind);
    }
    var source := SOURCE_PREFIX + interface;
    if !NoNul(source) {
      return Err(Parse);
    }
    var adapter := pcapOpen(PcapOpenRequest(source, PCAP_SNAPLEN, PCAP_OPENFLAG_PROMISCUOUS, PCAP_READ_TIMEOUT));
    if adapter == 0 {
      return Err(Sockets);
    }
    r := Ok(Socket(Adapter(adapter), info.value.0, info.value.1));
  }

  /**
   * Opening never fails with Parse: a name with a NUL byte matches no
   * adapter and fails with InvalidArgument first. Success holds the
   * matched entry and the adapter pcap_open returned for promiscuous
   * capture of up to 65535 bytes.
   */
  lemma WindowsOpenOutcome(interface: seq<byte>, enumResult: nat, nodes: seq<AdapterInfo>, pcapOpen: PcapOpen)
    ensures WindowsOpen(interface, enumResult, nodes, pcapOpen) != Err(Parse)
    ensures enumResult == 0 && !NoNul(interface) ==> WindowsOpen(interface, enumResult, nodes, pcapOpen) == Err(InvalidArgument)
    ensures enumResult != 0 ==> WindowsOpen(interface, enumResult, nodes, pcapOpen) == Err(Sockets)
    ensures WindowsOpen(interface, enumResult, nodes, pcapOpen).Ok? ==>
      && Lookup(interface, nodes).Some?
      && var s := WindowsOpen(interface, enumResult, nodes, pcapOpen).value;
      && (s.srcIp, s.srcMac) == Lookup(interface, nodes).value
      && s.handle == Adapter(pcapOpen(PcapOpenRequest(SOURCE_PREFIX + interface, 65535, PCAP_OPENFLAG_PROMISCUOUS, 1)))
      && s.handle.adapter != 0
  {
    if !NoNul(interface) {
      NulNameNeverMatches(interface, nodes);
    } else {
      assert NoNul(SOURCE_PREFIX + interface) by {
        assert forall i :: 0 <= i < |SOURCE_PREFIX| ==> (SOURCE_PREFIX + interface)[i] == SOURCE_PREFIX[i];
        assert forall i :: |SOURCE_PREFIX| <= i < |SOURCE_PREFIX + interface| ==>
          (SOURCE_PREFIX + interface)[i] == interface[i - |SOURCE_PREFIX|];
      }
    }
  }

  /** What pcap_inject returns for the adapter and the buffer. */
  type Inject = (nat, seq<byte>) -> int

  /** send_raw_packet_windows: Sockets when pcap_inject returns a negative count. */
  function SendRawPacketWindows(s: Socket, buffer: seq<byte>, inject: Inject): (r: Result<()>)
    requires s.handle.Adapter?
    ensures r.Ok? <==> inject(s.handle.adapter, buffer) >= 0
    ensures r.Err? ==> r.kind == Sockets
  {
    if inject(s.handle.adapter, buffer) < 0 then Err(Sockets) else Ok(())
  }

  /** pcap_next_ex's result code, the header's caplen, and the packet bytes it points to. */
  datatype PcapNext = PcapNext(code: int, caplen: nat, data: seq<byte>)

  /** What the reader does with a pcap_next_ex result code. */
  datatype PcapStep = TimedOut | Failed | Deliver

  /** pcap_next_ex sets the header and data pointers only when it reads a packet (it returns 1). */
  predicate HeaderFilled(code: int)
  {
    code > 0
  }

  /** The library delivers at least caplen bytes for a packet it reports. */
  predicate DeliversCaplen(next: PcapNext)
  {
    HeaderFilled(next.code) ==> next.caplen <= |next.data|
  }

  /** The step as the source writes it: anything other than 0 is taken as a packet. */
  function PcapStepAsWritten(code: int): (step: PcapStep)
  {
    if code == 0 then TimedOut else Deliver
  }

  /** PCAP_ERROR (-1) is taken as a packet, although the header pointer is then still null. */
  lemma ErrorTakenAsPacketAsWritten()
    ensures PcapStepAsWritten(-1) == Deliver && !HeaderFilled(-1)
  {
  }

  /** The intended step: a negative code is an error, as pcap_inject's is. */
  function PcapStepOf(code: int): (step: PcapStep)
    ensures step == TimedOut <==> code == 0
    ensures step == Deliver <==> HeaderFilled(code)
  {
    if code == 0 then TimedOut else if code < 0 then Failed else Deliver
  }

  /** The number of bytes copied: the capture length cut to the buffer's length. */
  function CopyLength(capacity: nat, caplen: nat): (n: nat)
    ensures n <= capacity && n <= caplen
    ensures n == capacity || n == caplen
  {
    if capacity < caplen then capacity else caplen
  }

  /** What read_raw_packet_windows returns; truncation is not an error. */
  function ReadResult(next: PcapNext): (r: Result<()>)
  {
    match PcapStepOf(next.code)
    case TimedOut => Err(TimeOut)
    case Failed => Err(Sockets)
    case Deliver => Ok(())
  }

  /** The buffer after the read: for a packet, its first CopyLength bytes replaced, the rest as before. */
  function Received(buffer: seq<byte>, next: PcapNext): (b: seq<byte>)
    requires DeliversCaplen(next)
    ensures |b| == |buffer|
  {
    if PcapStepOf(next.code) == Deliver
    then Overwritten(buffer, next.data, CopyLength(|buffer|, next.caplen))
    else buffer
  }

  /** read_raw_packet_windows: one pcap_next_ex, then memcpy into the caller's buffer. */
  method ReadRawPacketWindows(s: Socket, buffer: array<byte>, next: PcapNext) returns (r: Result<()>)
    requires s.handle.Adapter?
    requires DeliversCaplen(next)
    modifies buffer
    ensures r == ReadResult(next)
    ensures buffer[..] == Received(old(buffer[..]), next)
  {
    if next.code == 0 {
      return Err(TimeOut);
    }
    if next.code < 0 {
      return Err(Sockets);
    }
    var size := if buffer.Length < next.caplen then buffer.Length else next.caplen;
    Memcpy(buffer, next.data, size);
    r := Ok(());
  }

  /**
   * A packet read copies exactly min(buffer length, caplen) bytes, leaves
   * the rest of the buffer as it was and succeeds even when the capture is
   * longer than the buffer; a timeout or an error leaves the buffer untouched.
   */
  lemma ReadOutcome(buffer: seq<byte>, next: PcapNext)
    requires DeliversCaplen(next)
    ensures next.code == 0 ==> ReadResult(next) == Err(TimeOut) && Received(buffer, next) == buffer
    ensures next.code < 0 ==> ReadResult(next) == Err(Sockets) && Received(buffer, next) == buffer
    ensures next.code > 0 ==>
      && ReadResult(next) == Ok(())
      && var n := if |buffer| < next.caplen then |buffer| else next.caplen;
      && Received(buffer, next)[..n] == next.data[..n]
      && Received(buffer, next)[n..] == buffer[n..]
  {
  }
}
