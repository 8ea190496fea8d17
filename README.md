# Raw socket layer of cursock, modelled in Dafny

This project models `Socket` from cursock (`src/socket.rs`). `Socket` is a raw link-layer channel on a
named network interface. The model covers:

- opening a socket;
- resolving the interface's index, IPv4 address and MAC;
- sending and receiving frames;
- the mapping of a timed-out read to an error;
- the getters for the stored source addresses.

Each foreign call is an oracle and its result is an input. On Linux these are `socket`, `ioctl`,
`sendto` and `recvfrom`. On Windows they are `GetAdaptersInfo`, `pcap_open`, `pcap_inject` and
`pcap_next_ex`. The model states what the code does with those results.

Modules:

- `NetTypes` (`net_types.dfy`): bytes, `Ipv4` (4 bytes), `Mac` (6 bytes), the error kinds of
  `CursedError`, `Result`/`Option`, and the `Socket` record. Its `handle` is `Descriptor(socket,
  ifindex)` on Linux, `Adapter(pointer)` on Windows and `NoHandle` on any other target. `Memcpy`
  copies into a caller's buffer in place.
- `LinuxBackend` (`linux_backend.dfy`): one `struct ifreq` (`IfRequest`, a class whose `ifr_name`
  and `ifr_ifru` are arrays) is loaded with the name and updated by three `ioctl` queries in turn.
  The kernel is an `IoctlKernel` object: its answers are an oracle, and a ghost log records every
  query it receives.
  The module also covers building the `sockaddr_ll` destination with a loop, `send_raw_packet_linux`,
  `read_raw_packet_linux` and `new_linux`.
- `WindowsBackend` (`windows_backend.dfy`): the walk over the linked list of `IP_ADAPTER_INFO`
  records (`AdapterInfo` objects reached through `next`), `new_windows`, pcap injection, and the
  `pcap_next_ex` read with its truncating copy into the caller's buffer.
- `RawSocket` (`raw_socket.dfy`): the platform dispatch of `new`, `send_raw_packet` and
  `read_raw_packet`, the `Option`-to-`Result` mapping of `read_raw_packet_timeout`, and the getters.
  The build target is a `Platform` value (`Linux`, `Windows` or `Unsupported`). It carries the
  oracles of its foreign calls.

Byte layouts assumed for the `ifreq` union (64-bit Linux, little-endian):

- `ifru_ifindex` is an i32 at offset 0;
- `sin_addr` of a `sockaddr_in` is at offset 4;
- `sa_data` of a `sockaddr` is at offset 2.

`str_from_cstr` is modelled as the bytes before the first NUL. Interface names are the bytes of
the Rust `&str`.

Facts of the code the model keeps:

- `new_windows` passes a read timeout of 1 ms to `pcap_open` (src/socket.rs:254).
- The Windows IPv4 bytes are copied from the `ipaddresslist.context` field of the matching record
  (src/socket.rs:570-574).
- The adapter scan never stops at a match, so the last matching record wins.
- `new_linux` checks the name only for NUL bytes before copying it into the 16-byte `ifr_name`.
  `LinuxOpen` and `NewLinux` follow the code and leave the missing length bound to their caller as
  a precondition (`CopyFits`). `LinuxOpenChecked` adds the bound (see Findings).
- `read_raw_packet_windows` checks only for a `pcap_next_ex` result of 0. The model's read takes
  the corrected path for a negative result (see Findings and Left out).

## Model

| member | source | states |
|---|---|---|
| `NetTypes.Memcpy` | src/socket.rs:342 | the destination's first n bytes become the source's, and every later byte is unchanged |
| `LinuxBackend.NameField` | src/socket.rs:429-439 | the 16-byte `ifr_name` holds the name, then NUL padding to the end |
| `LinuxBackend.IfRequest.LoadName` | src/socket.rs:435-439 | copies the name and its NUL into `ifr_name`; only valid when they fit in 16 bytes |
| `LinuxBackend.IfRequest.Ioctl` | src/socket.rs:461 | the kernel reads `ifr_name` and logs the query; unless it returns -1 it leaves its answer in the union, and `ifr_name` is unchanged |
| `LinuxBackend.I32` | src/socket.rs:473 | four union bytes read as a little-endian i32: in the i32 range and congruent to the unsigned value |
| `LinuxBackend.GetIfIndex` | src/socket.rs:460-476 | one SIOCGIFINDEX query is logged. A return of -1 gives Sockets and leaves the union as it was; otherwise the union holds the kernel's answer and the result is its `ifru_ifindex` |
| `LinuxBackend.GetIfIp` | src/socket.rs:479-505 | one SIOCGIFADDR query is logged. A return of -1 gives Sockets and leaves the union as it was; otherwise the union holds the kernel's answer and the result is its 4 `sin_addr` bytes |
| `LinuxBackend.GetIfMac` | src/socket.rs:508-532 | one SIOCGIFHWADDR query is logged. A return of -1 gives Sockets and leaves the union as it was; otherwise the union holds the kernel's answer and the result is the first 6 bytes of `sa_data` |
| `LinuxBackend.RunQueries` | src/socket.rs:441-456 | running the queries in order issues a non-empty prefix of them, and on success returns one union per query |
| `LinuxBackend.RunQueriesOutcome` | src/socket.rs:441-456 | the run succeeds exactly when no query returns -1, and then every query was issued and each one's union is returned. Failure is Sockets: the last issued query returned -1 and every earlier one succeeded |
| `LinuxBackend.ResolveOutcome` | src/socket.rs:424-457 | resolution succeeds exactly when no query returns -1, and then gives the index, IP and MAC from the three answers. If the index query fails, no other query is issued. If the IP query fails, the MAC query is not issued |
| `LinuxBackend.GetInterfaceInfo` | src/socket.rs:424-457 | loading one request record and running the three queries on it gives exactly the resolution result, and the kernel's log grows by exactly the query trace |
| `LinuxBackend.NewLinux` | src/socket.rs:165-220 | returns the open result of the name, descriptor and kernel, for a caller that keeps a converted name within `ifr_name` when `socket()` succeeds. The kernel's log grows by the query trace when the NUL and descriptor checks pass, and not at all otherwise |
| `LinuxBackend.LinuxOpenOutcome` | src/socket.rs:166-202 | Parse exactly when the name holds a NUL byte. A NUL-free name on a negative descriptor gives Initialize, whatever its length. A resolver error comes back unchanged (it is always Sockets). Success stores the descriptor and the resolved index, IP and MAC |
| `LinuxBackend.OverlongNameAdmittedAsWritten` | src/socket.rs:166-178 | as written, a 16-byte name on a working descriptor passes both guards, yet the name plus NUL does not fit `ifr_name` |
| `LinuxBackend.NewLinuxChecked` | src/socket.rs:165-220 | the corrected open: Parse, then Initialize, then InvalidArgument for a name that does not fit `ifr_name`, with the kernel's log left unchanged; otherwise `new_linux`'s result and trace |
| `LinuxBackend.LinuxOpenCheckedOutcome` | src/socket.rs:166-202 | the corrected open agrees with `new_linux` wherever the copy fits; InvalidArgument exactly for a converted, overlong name on a working descriptor, and then the result does not depend on the kernel; Parse and Initialize as before; success only for a name that fits |
| `LinuxBackend.LinkDestination` | src/socket.rs:375-383 | the destination has `sll_ifindex` = stored index, `sll_halen` = 6, `sll_addr[0..6]` = source MAC, `sll_addr[6..8]` = 0, and all other fields 0 |
| `LinuxBackend.DestinationUnique` | src/socket.rs:375-386 | those field values determine the destination completely |
| `LinuxBackend.Destination` | src/socket.rs:374-386 | after the byte-by-byte loop over a zeroed `sll_addr`, the destination has exactly those field values |
| `LinuxBackend.SendRawPacketLinux` | src/socket.rs:373-416 | `sendto` gets that destination. A negative count gives Sockets and a non-negative count gives Ok |
| `LinuxBackend.ReadRawPacketLinux` | src/socket.rs:277-309 | a negative `recvfrom` length gives Sockets and leaves the buffer unchanged. Otherwise the result is Ok and the frame is at the start of the buffer |
| `WindowsBackend.CStr` | src/socket.rs:561 | the printable name is the prefix of the raw field before its first NUL, and contains no NUL |
| `WindowsBackend.LookupFindsLastMatch` | src/socket.rs:552-580 | the scan holds nothing exactly when no record's name matches; otherwise it holds the IP and MAC of the last matching record |
| `WindowsBackend.NulNameNeverMatches` | src/socket.rs:561 | a requested name containing a NUL byte matches no record |
| `WindowsBackend.GetInterfaceInfo` | src/socket.rs:535-592 | the list walk gives the lookup result. A nonzero `GetAdaptersInfo` code gives Sockets with no record scanned; otherwise every record is scanned |
| `WindowsBackend.AdapterResultOutcome` | src/socket.rs:543-591 | enumeration failure gives Sockets, no match gives InvalidArgument, and a last match k gives Ok with record k's entry |
| `WindowsBackend.NewWindows` | src/socket.rs:222-275 | returns the Windows open result: lookup first, then the C-string check, then `pcap_open`, which fails with Sockets when it returns NULL |
| `WindowsBackend.WindowsOpenOutcome` | src/socket.rs:222-275 | never Parse: a NUL name fails lookup with InvalidArgument. Success holds the matched IP and MAC and the non-null adapter that `pcap_open` returned for `rpcap://\Device\NPF_<name>`, 65535, promiscuous, 1 ms |
| `WindowsBackend.SendRawPacketWindows` | src/socket.rs:347-371 | Ok exactly when `pcap_inject` returns a non-negative count; otherwise Sockets |
| `WindowsBackend.ErrorTakenAsPacketAsWritten` | src/socket.rs:319-330 | as written, `pcap_next_ex` returning -1 is treated as a packet even though no header was filled |
| `WindowsBackend.PcapStepOf` | src/socket.rs:323-328 | a result code of 0 gives a timeout; the code delivers a packet exactly when the header is filled |
| `WindowsBackend.CopyLength` | src/socket.rs:336-340 | the copy size is at most both the buffer length and caplen, and equals one of them |
| `WindowsBackend.ReadRawPacketWindows` | src/socket.rs:311-345 | returns `ReadResult` of the reply, and the buffer afterwards is `WindowsBackend.Received` of the old buffer and the reply (corrected for a negative code) |
| `WindowsBackend.ReadOutcome` | src/socket.rs:323-344 | code 0 gives TimeOut with the buffer untouched. A packet gives Ok with exactly min(buffer length, caplen) bytes copied and the rest unchanged, even for an oversized capture. A negative code gives Sockets with the buffer untouched (the corrected path) |
| `RawSocket.New` | src/socket.rs:46-65 | dispatches to `new_linux` or `new_windows`; any other target gives OS. A socket built on success has its platform's handle. On Linux it carries `new_linux`'s name bound |
| `RawSocket.OpenErrorKinds` | src/socket.rs:46-65 | an unsupported target always gives OS. Linux fails only with Parse, Initialize or Sockets. Windows fails only with InvalidArgument or Sockets |
| `RawSocket.SendRawPacket` | src/socket.rs:74-93 | gives the back-end's send result; the only error kinds are Sockets, or OS on an unsupported target |
| `RawSocket.ReadRawPacket` | src/socket.rs:102-121 | gives the back-end's read result and buffer; an unsupported target gives OS and leaves the buffer unchanged |
| `RawSocket.ReadRawPacketTimeout` | src/socket.rs:122-134 | a read that does not finish in time gives TimeOut. One that finishes gives the plain read's result and buffer |
| `RawSocket.TimeoutOutcome` | src/socket.rs:128-133 | `None` gives TimeOut and `Some(r)` gives r, whatever r is |
| `RawSocket.GettersReportResolved` | src/socket.rs:145-150 | the contract of `GetSrcIp` and `GetSrcMac`: on an opened socket they return the IP and MAC found at open time, on Linux from the three queries together with the descriptor and index, on Windows from the last matching adapter |

## Findings

| source | as written | input that shows it | evidently intended | confidence | as-written member | corrected member |
|---|---|---|---|---|---|---|
| src/socket.rs:166-178, 435-439 | the only check on the name is for interior NUL bytes, then `memcpy` writes the name plus NUL into the 16-byte `ifr_name` | a 16-byte name such as `enp0s20f0u1u2u3u`, which needs 17 bytes | refuse names longer than 15 bytes before copying (here with InvalidArgument, after the descriptor check) | not executed; high | `LinuxBackend.OverlongNameAdmittedAsWritten` (the guards `AdmittedAsWritten`; `LinuxOpen` / `NewLinux` require `CopyFits`) | `LinuxBackend.LinuxOpenCheckedOutcome` (on `LinuxOpenChecked` / `NewLinuxChecked`) |
| src/socket.rs:319-330 | only a result of 0 is checked, so a negative `pcap_next_ex` result dereferences the header pointer, which is still null | `pcap_next_ex` returning -1 (`PCAP_ERROR`) | report a negative result as a Sockets error and leave the buffer untouched | not executed; medium | `WindowsBackend.ErrorTakenAsPacketAsWritten` (the step `PcapStepAsWritten`) | `WindowsBackend.PcapStepOf` (used by `ReadRawPacketWindows`) |

## Left out

- Foreign calls (`socket`, `ioctl`, `recvfrom`, `sendto`, `close`, `pcap_open`, `pcap_next_ex`, `pcap_inject`, `pcap_geterr`, `GetAdaptersInfo`): OS and library I/O. They appear only as oracle inputs.
- The first, sizing call to `GetAdaptersInfo` and the buffer it sizes: the model receives the filled list directly.
- The `debug` flag, `println!` and `perror`: printing only.
- The body of the `timeout!` macro (a background thread that is not cancelled): this is concurrency. The wrapper's verdict is the input `finished`. The model runs the read to completion in both cases.
- WindowsBackend.PcapStepOf: takes the corrected path. A negative `pcap_next_ex` result is Failed, where src/socket.rs:323-330 goes on to read the null header.
- WindowsBackend.ReadRawPacketWindows: takes the corrected path. A negative `pcap_next_ex` result gives Sockets and leaves the buffer untouched; the source reads the null header instead.
- WindowsBackend.ReadOutcome: its negative-code clause is about the corrected path, not about the source.
- RawSocket.ReadRawPacket: on Windows it uses the corrected read above, and so does RawSocket.ReadRawPacketTimeout.
- LinuxBackend.NewLinux: requires `CopyFits`. The source copies an overlong name past `ifr_name`, and the model does not say what that copy does.
- RawSocket.New: requires the same bound on Linux (`NameFits`), for the same reason; the corrected `NewLinuxChecked` is not wired into the dispatch.
- RawSocket.ReadRawPacketTimeout: after a timeout it promises nothing about the buffer, because the background read may still be writing to it.
- `destroy` / `destroy_linux`: their only content is `close`. So the model also does not capture that `new_linux` leaves the socket open when resolution fails.
- `cfg` platform selection: modelled as the `Platform` value instead.
- `Ipv4`, `Mac`, `Handle::from`/`to`, and their formatting: defined outside the modelled file. Addresses are 4- and 6-byte sequences.
- `CursedErrorHandle` message text: only the error kind is modelled.
- The kernel's answer to an ioctl depends on the descriptor, the command and `ifr_name` only, not on what an earlier query left in the union. The three queries read only `ifr_name`, so this matches the source.
- C struct layout and union reinterpretation: only the byte offsets above are modelled.
- UTF-8 decoding in `str_from_cstr`: adapter names are compared as bytes.
- The byte count `recvfrom` returns: the source discards it (apart from printing).
