/**
 * Values shared by both platform back-ends of the raw socket layer:
 * bytes, fixed-width addresses, the error taxonomy, and the socket record.
 */
module NetTypes {

  newtype byte = x: int | 0 <= x < 256

  const IPV4_LEN := 4
  const MAC_LEN := 6

  /** An IPv4 address as its four network-order bytes. */
  type Ipv4 = s: seq<byte> | |s| == IPV4_LEN witness [0, 0, 0, 0]

  /** A hardware address as its six bytes. */
  type Mac = s: seq<byte> | |s| == MAC_LEN witness [0, 0, 0, 0, 0, 0]

  /** The kinds of CursedError the socket layer reports; message text is not modelled. */
  datatype ErrorKind = OS | Parse | Initialize | Sockets | TimeOut | InvalidArgument

  datatype Result<+T> = Ok(value: T) | Err(kind: ErrorKind)

  datatype Option<+T> = None | Some(value: T)

  /**
   * The platform part of a socket: a packet-socket descriptor and the
   * interface index (Linux), an npcap adapter pointer (Windows), or nothing
   * (any other platform, where no socket can be opened).
   */
  datatype Handle =
    | Descriptor(socket: int, ifindex: int)
    | Adapter(adapter: nat)
    | NoHandle

  /** The Socket struct: its fields are set at construction and never updated. */
  datatype Socket = Socket(handle: Handle, srcIp: Ipv4, srcMac: Mac)

  /** True when a name can become a C string: CString::new refuses interior NUL bytes. */
  predicate NoNul(s: seq<byte>)
  {
    forall i :: 0 <= i < |s| ==> s[i] != 0
  }

  /** The first n bytes of src followed by what dst held from n on: the effect of memcpy(dst, src, n). */
  function Overwritten(dst: seq<byte>, src: seq<byte>, n: nat): (r: seq<byte>)
    requires n <= |dst| && n <= |src|
    ensures |r| == |dst|
    ensures forall i :: 0 <= i < n ==> r[i] == src[i]
    ensures forall i :: n <= i < |dst| ==> r[i] == dst[i]
  {
    src[..n] + dst[n..]
  }

  /** memcpy(dst, src, n) into a caller-owned buffer, in place. */
  method Memcpy(dst: array<byte>, src: seq<byte>, n: nat)
    requires n <= dst.Length && n <= |src|
    modifies dst
    ensures dst[..] == Overwritten(old(dst[..]), src, n)
  {
    forall i | 0 <= i < n {
      dst[i] := src[i];
    }
  }
}
