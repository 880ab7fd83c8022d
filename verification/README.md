# MOKernel, modelled and verified in Dafny

MOKernel is a small 32-bit x86 kernel in C. This project models its four self-contained cores and proves
what they promise, for all inputs and over whole runs:

- the network stack (`code/src/net.c`): the receive ring, ARP, IPv4, ICMP, UDP sending, the RFC 1071
  checksum, and the reading and printing of dotted addresses;
- the in-memory file system (`code/src/fs.c`);
- demand paging (`code/src/paging.c`, `code/src/swap.c`, `code/src/pmm.c`);
- the line editor with its history (`code/src/kernel.c`).

The C code changes globals and buffers in place, and so do the classes and array methods here: loops over
the inode array, bytes written into packet buffers, page-table entries, the shift of the history rows. Each
method is proved against a function of the old state, and the theorems are about those functions: a reference
tree for the inode table, a map of pages for the tables and frames, a queue for the ring, a full learning
history for the ARP cache, a network of hosts for the protocol. `dafny verify dfyconfig.toml` checks
everything.

## Files

| file | content |
|---|---|
| `Bytes.dfy` | C integer widths, byte order, `memcpy_n` |
| `Checksum.dfy` | the checksum as arithmetic modulo 65535 |
| `RxRing.dfy` | the receive ring as a queue of frames |
| `ArpCache.dfy` | the eight-entry cache against everything ever learned |
| `Frames.dfy` | frame layouts and what the parsers read back |
| `HostSpec.dfy` | one host's code as functions, with the recursion through `net_poll` |
| `NetStack.dfy` | the same code in place, on the ring, the buffers and the cache array |
| `Waiting.dfy`, `Wire.dfy` | a whole `ip_send` poll by poll; frames byte by byte, and what a host does with any frame |
| `Network.dfy` | any number of hosts on a lossy, duplicating, reordering wire |
| `Ping.dfy` | ping and UDP end to end |
| `IpText.dfy` | `parse_ip` and `kprint_ip` |
| `FsTable.dfy`, `FsTree.dfy`, `FsPath.dfy` | the inode table, the tree it refines, `pwd` against `cd` |
| `FileSystem.dfy`, `FsLaws.dfy` | the file system calls in place, and what a user sees from one call to the next |
| `Swap.dfy` | the swap store as a bounded map |
| `VirtualMemory.dfy`, `Paging.dfy` | pages as a map, and the tables, allocator and fault handler that implement it |
| `Editor.dfy`, `Keys.dfy`, `Terminal.dfy` | the line editor as a state machine, what each key does, and the handler with buffer, history rows and screen |

## Modelling decisions

- `u8`, `u16` and `u32` are subset types of `int`: an assignment to one of them proves the absence of
  overflow, and wrap-around is written with `%`. C strings are the characters before the NUL.
- The receive ring wraps at `sizeof(rx_buf)` = 34284, as the driver does (`code/src/net.c:297`). The card is
  configured for 32 KB with its WRAP bit set (`code/src/net.c:230-233`), which places record boundaries
  elsewhere; the queue theorem is about a producer that uses the driver's modulus. The driver's subtraction
  of 4 from the length (`code/src/net.c:274`) removes the CRC only; its comment mentions the header as well.
- What `rtl_recv` finds from some moment on is an explicit list of polls in `HostSpec`, and after its end nothing
  is found any more. So the wait in `ip_send`, which polls up to 500000 times, handles frames and may send and
  wait in turn, is the real mutual recursion with the real timeouts. `NetStack` polls the receive ring itself:
  the list there is the frames pending in the ring and then whatever the card does at later polls. `Network`
  splits every call into elementary actions, and `HostSpec.IpSendIsRun` and its companions prove that no call
  does anything else.
- `code/src/net.h:17` calls `ip_addr_t` network byte order; the code keeps host values and converts with
  `htonl` when it builds packets. The model follows the code.
- `ip_handle` trusts the header's total length. Handlers therefore see offsets into the whole 1518-byte
  `pkt_buf` with whatever older bytes it holds, and no precondition excludes malformed packets.
- `fs_create_file` and `fs_mkdir` leave the old content of a reused slot: in the tree, a file that was
  created and not yet written has some content.
- Paging is modelled twice. `VirtualMemory.FaultAsWritten` and `Paging.Mmu.PageFault` are the fault handler as
  it is written, whose `swap_read` stores to the new frame's address through the page tables
  (`code/src/swap.c:45`). `VirtualMemory.Fault` and `Paging.Mmu.PageFaultDirect` are the handler as it is meant, on
  a machine where memory can be addressed by frame; the claims about served faults, paging out and in, and
  runs with faults are about that machine, and so are the copying in `Swap.SwapStore.Read` and the write-back of a
  page on a frame above 4 MB, which the handler as written never maps. In both, `map_page` reaches the page table
  as an array of its own, not through the table's identity mapping.
- `page_directory`, `first_page_table`, `swap_storage`, the watermark, the kernel's stack and the screen lie in
  frames below 4 MB, which `paging_init` maps onto themselves. `Vm.reserved` and `Mmu.reserved` are any set of
  frames that contains them. The model has the tables and the store as arrays of their own and says nothing
  about the bytes of a page on a reserved frame: they change with every table entry, store slot or message
  written. Programs are assumed not to write to such pages (`VirtualMemory.Proper`), because a byte stored in
  the page table would be a new mapping. What is said about translations, frames and the watermark holds for
  every page, reserved or not.
- The screen `execute_command` leaves behind is an arbitrary argument of the keyboard handler.

## Where the code falls short of its intent

- Names longer than sixteen characters are stored truncated but compared in full: `FsTree.UniqueKeptIff` says
  exactly when sibling names stay unique, `FsTree.LongNameTwice` shows that every long name breaks it, and
  `FsTree.SeventeenCharacters` is an instance.
- `pwd` output does not lead back when a directory name contains a slash, which `fs_mkdir` accepts:
  `FsPath.PwdThenCdIff` gives the exact condition and `FsPath.SlashInName` an instance.
- No page fault is ever served. The allocator hands out frames from 4 MB on, where no address is mapped, so the
  first byte `swap_read` stores faults inside the handler, and that fault cannot be served either: the kernel
  panics with one or more frames lost (`VirtualMemory.FrameUnreachable`, `VirtualMemory.NeverServed`,
  `Paging.Mmu.PageFault`). The handler does what it is meant to do exactly when it should panic anyway
  (`VirtualMemory.AsMeantIff`), the kernel survives exactly the runs without a fault (`VirtualMemory.SurvivesIff`),
  `VirtualMemory.FramesLost` counts the frames, and `VirtualMemory.StoredAboveTable` is an instance.
- Even if memory could be addressed by frame, a fault above 4 MB would use up a frame and map nothing, time and
  again: `VirtualMemory.ServedIff`, `VirtualMemory.RetriesDrain`.
- An IPv4 header may announce more than was received: `Frames.DeliveredInsideIff` and
  `Frames.OverlongHeaderIsDelivered`.
- A full ARP cache forgets: `ArpCache.LookupExact` says exactly what, `ArpCache.NothingForgottenIff` exactly when,
  and `ArpCache.NinthForgetsFirst` is an instance.

## Model

| member | source | states |
|---|---|---|
| `Bytes.NetworkOrder` | code/src/net.h:85-93 | storing `htons` or `htonl` of a value lays it out most significant byte first, and reading that back gives the value, for every value |
| `Bytes.MemCopy` | code/src/net.c:19-23 | the destination holds the source bytes in the copied range and its old bytes elsewhere |
| `Checksum.IpChecksum` | code/src/net.c:468-478 | the in-place loop computes the folded, complemented word sum for every length that fits in 16 bits, odd ones included, without overflowing its 32-bit accumulator |
| `Checksum.FoldIffCongruent` | code/src/net.c:476 | carry folding identifies exactly the sums that are congruent modulo 65535, zero standing alone |
| `Checksum.Examples` | code/src/net.c:468-478 | the example of RFC 1071 gives 0x22 0x0D on the wire, and a trailing byte counts as the first of its word |
| `Checksum.VerifiesIff` | code/src/net.c:468-478 | a buffer verifies exactly when its words sum to a positive multiple of 65535 |
| `Checksum.StoredChecksumVerifies` | code/src/net.c:537-540 | storing the checksum in a zeroed field at any even offset makes the buffer verify, for every content and length (RFC 1071, section 1) |
| `Checksum.CorruptionUndetectedIff` | code/src/net.c:468-478 | overwriting one word of a verifying buffer goes unnoticed exactly when nothing changed or 0x0000 and 0xFFFF were exchanged |
| `Checksum.ByteOrderIndependent` | code/src/net.c:468-478 | the checksum of raw little-endian loads is, byte for byte in memory, the network-order checksum, for every length (RFC 1071, section 2(B)) |
| `Checksum.SwapCommutes` | code/src/net.c:468-478 | swapping the bytes of every word swaps the bytes of the checksum |
| `RxRing.RxRing.Arrive` | code/src/net.c:266-267 | the card's write, wrapping included, puts the frame behind all pending ones and disturbs none of them |
| `RxRing.RxRing.Recv` | code/src/net.c:261-301 | on any ring bytes at most 1514 bytes come out; a length field n from 5 to 1518 gives n - 4 bytes and moves the cursor to (cur + n + 7) rounded down to a multiple of 4, modulo 34284, any other gives none and moves it by 4; on a ring the card filled, the oldest frame comes out byte for byte, exactly once |
| `RxRing.RxRing.Advance` | code/src/net.c:295-298 | the 16-bit cursor arithmetic never truncates and lands on the wrapped position |
| `RxRing.RxRing.CopyOut` | code/src/net.c:284-293 | the copy in one or two pieces yields the ring bytes in order across the buffer end |
| `RxRing.RxRing.Accept` | code/src/net.c:284-300 | taking a record hands out the oldest pending frame and leaves exactly the later ones queued |
| `RxRing.RxRing.Drain` | code/src/net.c:356-361 | the polling loop delivers all pending frames in arrival order and leaves the ring empty |
| `RxRing.Enqueued` | code/src/net.c:261-301 | a record written behind the unread bytes, modulo the buffer size, extends the encoded queue by its frame |
| `RxRing.Dequeued` | code/src/net.c:261-301 | the oldest record determines its frame's length and bytes, and skipping it leaves the encoding of the rest |
| `ArpCache.ArpCacheInsert` | code/src/net.c:373-387 | the in-place scan does what the specification function `Insert` says |
| `ArpCache.ArpLookup` | code/src/net.c:389-397 | the scan returns the MAC of the first valid entry for the address, if any |
| `ArpCache.LearnHolds` | code/src/net.c:373-387 | after any history the valid slots are a prefix with distinct addresses, each with the MAC learned last |
| `ArpCache.SlotsStep` | code/src/net.c:373-387 | one more binding keeps a known address's slot, fills a free one, or evicts slot 0 |
| `ArpCache.LookupExact` | code/src/net.c:369-397 | after any history a lookup gives the last MAC learned if the address is a resident or the tenant of slot 0, and misses otherwise |
| `ArpCache.FewAddressesNothingForgotten` | code/src/net.c:369-397 | with at most eight distinct addresses the cache equals the full history |
| `ArpCache.NothingForgottenIff` | code/src/net.c:369-397 | every lookup agrees with the full history exactly up to eight distinct addresses |
| `ArpCache.NinthForgetsFirst` | code/src/net.c:385-386 | after nine addresses the first one misses although it was learned |
| `ArpCache.LatestBindingHits` | code/src/net.c:373-397 | the latest insertion hits, in any cache |
| `ArpCache.ResidentsStay` | code/src/net.c:383-386 | once full, slots 1 to 7 keep their addresses forever |
| `Frames.ArpFields` | code/src/net.c:404-444 | every field of an ARP frame is read back where RFC 826 puts it, whatever padding follows |
| `Frames.IpFields` | code/src/net.c:526-544 | every field the parsers use is read back from an `ip_send` frame and its header verifies |
| `Frames.IpRoundTrip` | code/src/net.c:480-544 | `ip_handle` hands exactly the payload `ip_send` was given, its length and the sender to the ICMP or UDP handler of the addressed host and of no other, for every payload up to 1466 bytes |
| `Frames.DeliveredInsideIff` | code/src/net.c:490-492 | the bytes handed on lie within the received ones exactly when the total length lies between the header length and the received length |
| `Frames.OverlongHeaderIsDelivered` | code/src/net.c:490-492 | a 20-byte packet that announces 1500 bytes is handed on with 1480 |
| `Frames.EchoReplyOf` | code/src/net.c:557-567 | a reply keeps code, identifier, sequence number and the first 56 data bytes, has type 0 and verifies, for every request |
| `Frames.EchoRequestFields` | code/src/net.c:573-583 | the request carries type 8, identifier, the given sequence number, zero data and verifies |
| `Frames.UdpFields` | code/src/net.c:604-609 | ports, length and data are read back from a datagram |
| `Wire.ArpBytes` | code/src/net.c:399-444 | an ARP frame byte by byte: type 0x0806, hardware type 1, protocol 0x0800, lengths 6 and 4, operation and the four addresses |
| `Wire.IpBytes` | code/src/net.c:526-544 | an IP frame byte by byte: type 0x0800, version and header length 0x45, total length, identification 1, TTL 64, protocol and both addresses, with a header that verifies |
| `Wire.EchoBytes` | code/src/net.c:553-584 | echo request and reply byte by byte: types 8 and 0, identifier 0x4D4F, sequence number, data |
| `Wire.UdpBytes` | code/src/net.c:604-609 | a datagram byte by byte: ports, length with the header, checksum 0, data |
| `Wire.OtherFramesIgnored` | code/src/net.c:331-344 | frames of less than 14 bytes, of another type, and ARP packets of less than 28 bytes change nothing but `pkt_buf` |
| `Wire.ArpHandledIff` | code/src/net.c:419-448 | an ARP packet of any operation teaches its sender's address; exactly operation 1 for the host's own address is answered, to the sender |
| `Wire.OtherPacketsIgnored` | code/src/net.c:480-499 | IPv4 packets that are cut short, have a header of less than 20 bytes, are for another address or carry no ICMP change nothing but `pkt_buf` |
| `Wire.IcmpPacketsHandled` | code/src/net.c:480-495 | an ICMP packet for the host is handed on from behind its header, options included, with the length the header announces |
| `Wire.IcmpHandledBy` | code/src/net.c:553-571 | messages of less than 8 bytes and of types other than 0 and 8 are ignored, a request is answered from its first 64 bytes, a reply's sequence number noted |
| `Waiting.SendsAfterQuietPolls` | code/src/net.c:501-545 | for every k below 500000, k polls that find nothing and then the answer make `ip_send` succeed: request and packet are sent, the packet to the answering MAC, and every later poll is left alone |
| `Waiting.GivesUpAfterQuietPolls` | code/src/net.c:511-521 | after 500000 polls that find nothing it fails, only the request was sent, and every later poll is left alone |
| `Waiting.BroadcastIsSentAtOnce` | code/src/net.c:504-508 | a packet to 255.255.255.255 goes to six 0xFF bytes without lookup or poll |
| `Waiting.KnownIsSentAtOnce` | code/src/net.c:509-545 | a packet to a cached address goes to the cached MAC without a poll |
| `Waiting.NothingSentWithoutCard` | code/src/net.c:304-305 | without a card every `ip_send` fails and nothing is sent, nested answers included |
| `HostSpec.IpSendIsRun` | code/src/net.c:501-545 | a whole `ip_send`, nested polling and timeouts included, is a run of elementary actions that takes in exactly the frames of the polls it uses up, each once and in order |
| `HostSpec.NetPollIsRun` | code/src/net.c:356-361 | so is a whole `net_poll` |
| `HostSpec.EthProcessIsRun` | code/src/net.c:331-344 | so is the handling of one frame, which is taken in before those polled meanwhile |
| `HostSpec.NetPollFindsAll` | code/src/net.c:356-361 | with only frames to find, `net_poll` leaves none behind, whatever waits and answers they cause |
| `NetStack.NetStack.EthBuild` | code/src/net.c:347-353 | the first 14 buffer bytes become the Ethernet header and no other byte changes |
| `NetStack.NetStack.NetSend` | code/src/net.c:304-325 | the frame is transmitted, and success returned, exactly when a card was found and the frame fits a transmit buffer |
| `NetStack.NetStack.ArpSendRequest` | code/src/net.c:399-416 | exactly one frame, the broadcast ARP request for the target, is sent |
| `NetStack.NetStack.ArpHandle` | code/src/net.c:419-448 | in place, the sender is learned and a request for this host is answered, as the specification says |
| `NetStack.NetStack.BuildAndSend` | code/src/net.c:526-544 | the bytes written into the 1500-byte buffer are the IP frame with its header checksum; it is sent exactly when a card was found |
| `NetStack.NetStack.IpSend` | code/src/net.c:501-545 | the resolving and waiting code ends in the state, result and remaining polls of the specification, over the receive ring and with every nested timeout |
| `NetStack.NetStack.Wait` | code/src/net.c:512-516 | the loop polls until the address is known, at most 500000 times |
| `NetStack.NetStack.RtlRecv` | code/src/net.c:261-301 | one call takes the oldest frame pending in the ring into `pkt_buf`, whose older bytes stay behind it, or finds nothing |
| `NetStack.NetStack.NetPoll` | code/src/net.c:356-361 | the loop takes frame after frame out of the ring and handles each as the specification says; if nothing arrives meanwhile it handles exactly the pending frames in order and leaves the ring empty |
| `NetStack.NetStack.EthProcess` | code/src/net.c:331-344 | dispatch on the type field, short frames ignored |
| `NetStack.NetStack.ParseIp` | code/src/net.c:480-492 | the checks on length, header length and destination, and the 16-bit payload length |
| `NetStack.NetStack.IpHandle` | code/src/net.c:480-499 | the ICMP payload reaches `icmp_handle`; nothing else changes the state |
| `NetStack.NetStack.IcmpHandle` | code/src/net.c:553-571 | a request is answered from its first 64 bytes, a reply noted, and reads stay inside `pkt_buf` whatever length was announced |
| `NetStack.NetStack.IcmpSendEcho` | code/src/net.c:573-584 | the 16 bytes sent are the echo request for the sequence number |
| `NetStack.NetStack.UdpSend` | code/src/net.c:598-612 | more than 512 bytes are refused; otherwise the datagram is sent and fits the frame |
| `Network.EveryRunIsSafe` | code/src/net.c:399-528 | with any number of hosts and frames lost, duplicated, reordered and padded, every ARP packet on the wire and every cache entry is a true binding and every frame to one address carries its owner's MAC |
| `Network.ActKeepsInv` | code/src/net.c:419-448 | each elementary action of each host keeps the network invariant |
| `Network.CredibleArpIsTrue` | code/src/net.c:423-426 | whatever ARP packet a host may find on the wire, now or later, names its true sender |
| `Network.OnWireIsCredible` | code/src/net.c:399-448 | every frame found on the wire in a later safe state is one a host could have been expected to send from the start |
| `Network.IpSendIsSafe` | code/src/net.c:501-545 | a whole `ip_send`, polling frames sent before or during the wait, the answer to its own request included, keeps the invariant in whatever state the other hosts have reached, and if it reports success its frame is addressed to the destination's owner |
| `Ping.RequestIsAnswered` | code/src/net.c:553-567 | an echo request of any length and padding is answered to its sender |
| `Ping.ReplyIsNoted` | code/src/net.c:568-570 | an echo reply sets the flag and the last sequence number and changes nothing else |
| `Ping.PingResolved` | code/src/net.c:553-584 | with resolved addresses, request and reply travel and the sender notes the sequence number it sent, with same identifier and data and verifying checksums |
| `Ping.PingFromNothing` | code/src/net.c:501-584 | between two hosts with a card, starting from an unresolved address and any cache on the other side, ARP resolves both directions and the ping completes |
| `Ping.ArpIsAnswered` | code/src/net.c:419-448 | any ARP request makes the host learn the sender, and exactly the owner of the address asked for answers |
| `Ping.AwaitsAnswer` | code/src/net.c:511-516 | the wait ends with the answer and the address is then known |
| `Ping.UdpArrives` | code/src/net.c:590-612 | a datagram reaches the UDP handler of the addressed host only, with sender, ports, length and data intact |
| `IpText.ParseIp` | code/src/net.c:661-684 | the loop accepts exactly four dot-separated digit runs, empty ones included, of value at most 255 and returns their big-endian combination without overflow |
| `IpText.KprintDec` | code/src/net.c:43-50 | the digits come out in order without leading zeros and fit the 12-character buffer, for every 32-bit value |
| `IpText.KprintIp` | code/src/net.c:53-58 | the four octets in decimal, separated by dots |
| `IpText.PrintThenParse` | code/src/net.c:661-684 | parsing a printed address gives it back, for every address |
| `IpText.ParseThenPrint` | code/src/net.c:661-684 | printing a parsed text gives it back exactly when no segment is empty or has leading zeros |
| `IpText.OctetsInOrder` | code/src/net.c:53-58 | the text of four octets, most significant first, is what is printed for the address and is read back as it |
| `IpText.DigitsOf` | code/src/net.c:43-50 | one digit for a number below ten, one more for every further place |
| `IpText.FourSegments` | code/src/net.c:661-684 | four runs of digits are accepted exactly if each has a value of at most 255, and give the address with the first as most significant octet |
| `IpText.OwnAddress` | code/src/net.c:53-58 | 0x0A00020F is printed as 10.0.2.15 and read back |
| `IpText.EmptySegments` | code/src/net.c:661-684 | "..." is accepted as address 0 |
| `IpText.TooLarge` | code/src/net.c:661-684 | "256.0.0.1" is refused |
| `FsTable.StepKeepsInv` | code/src/fs.c:106-251 | every call with any argument keeps the root, live directory parents, rooted chains and a live current directory |
| `FsTable.RunKeepsInv` | code/src/fs.c:89-251 | so do all runs from `fs_init` |
| `FsTable.DepthBound` | code/src/fs.c:48-54 | every parent chain reaches the root in at most 31 steps without repetition |
| `FsTree.UniqueKeptIff` | code/src/fs.c:114-125 | sibling names stay unique exactly when a created name is short, or the stored part of it is free, or no slot is left |
| `FsTree.LongNameTwice` | code/src/fs.c:16-20 | a name of more than sixteen characters is never refused as a duplicate and then appears twice |
| `FsTree.SeventeenCharacters` | code/src/fs.c:16-20 | a 17-character directory made twice in a fresh file system |
| `FsTree.PathsInjective` | code/src/fs.c:42-60 | distinct live slots have distinct paths |
| `FsTree.FindIsLookup` | code/src/fs.c:24-31 | a name search in a directory finds the entry at the extended path, or there is none |
| `FsTree.HasChildIsLeaf` | code/src/fs.c:63-69 | a directory counts as empty exactly when the tree has nothing directly below it |
| `FsTree.FullIff` | code/src/fs.c:34-39 | allocation fails exactly when the tree has 32 nodes |
| `FsTree.CreateSucceedsIff` | code/src/fs.c:114-127 | creation succeeds exactly when the path is absent and the tree has fewer than 32 nodes |
| `FsTree.StepRefines` | code/src/fs.c:106-251 | a call succeeds exactly when the tree operation does and then changes exactly that one path, if and only if it meets that same condition |
| `FsTree.RunRefines` | code/src/fs.c:89-251 | every step of a run from `fs_init` is a step of the tree if and only if all its creations meet the condition, as they do with names of at most sixteen characters |
| `FsTree.InitTree` | code/src/fs.c:89-103 | the initial table stands for the tree that is just a root |
| `FsPath.RoundTripIff` | code/src/fs.c:42-160 | from any state of tree shape, going to the root and typing the printed components leads back exactly when no name on the path contains a slash and every directory on it is the first match of its name |
| `FsPath.RunKeepsFirst` | code/src/fs.c:24-251 | in every reachable state, duplicate names included, every directory on the current path is the first match of its name |
| `FsPath.PwdThenCdIff` | code/src/fs.c:130-160 | in every reachable state, names of any length, the round trip leads back exactly when no name on the path contains a slash |
| `FsPath.SlashInName` | code/src/fs.c:106-160 | after `mkdir a/b` and `cd a/b` it does not |
| `FsPath.PwdThenCdReachable` | code/src/fs.c:130-160 | it always does in states reached with names, of any length, that have no slash |
| `FsPath.ComponentsOfText` | code/src/fs.c:42-60 | the printed path determines the names on it |
| `FsPath.TextOfNames` | code/src/fs.c:42-60 | for any path the text is a slash and a name for every step, each where the lengths before it put it, and nothing else; for the root a single slash |
| `FsPath.TextIsTheTidyOne` | code/src/fs.c:42-60 | for slash-free names it is the only text that starts with a slash, has no two in a row, ends in one only for the root, and has the names as its components; it has one slash per name |
| `FileSystem.FileSystem.constructor` | code/src/fs.c:89-103 | the initialisation loop builds the initial table |
| `FileSystem.FileSystem.FindIn` | code/src/fs.c:24-31 | the scan returns the first live entry with that parent and name |
| `FileSystem.FileSystem.AllocSlot` | code/src/fs.c:34-39 | the scan returns the first free slot |
| `FileSystem.FileSystem.DirEmpty` | code/src/fs.c:63-69 | the scan answers whether no live entry has that parent |
| `FileSystem.FileSystem.CopyName` | code/src/fs.c:16-20 | at most `max` characters are copied |
| `FileSystem.FileSystem.FsMkdir` | code/src/fs.c:106-127 | in place, result and table are those of the specification |
| `FileSystem.FileSystem.FsCreateFile` | code/src/fs.c:180-196 | in place, result and table are those of the specification |
| `FileSystem.FileSystem.FsWriteFile` | code/src/fs.c:199-211 | in place, result and table are those of the specification, of which `FsLaws.Written` says what is stored |
| `FileSystem.FileSystem.FsReadFile` | code/src/fs.c:214-222 | what is printed is the content of the file at that path in the tree, and it is found exactly if there is one |
| `FileSystem.FileSystem.FsCd` | code/src/fs.c:130-154 | in place, result and current directory are those of the specification |
| `FileSystem.FileSystem.FsRm` | code/src/fs.c:225-233 | in place, result and table are those of the specification |
| `FileSystem.FileSystem.FsRmdir` | code/src/fs.c:236-251 | in place, result and table are those of the specification |
| `FileSystem.FileSystem.CollectChain` | code/src/fs.c:48-54 | the upward walk ends at the root and never overflows its 32-entry stack |
| `FileSystem.FileSystem.PrintPath` | code/src/fs.c:42-60 | the text printed is the path of the entry, written out slash by slash and name by name |
| `FileSystem.FileSystem.FsPwd` | code/src/fs.c:157-160 | the text printed is the path of the current directory, written out slash by slash and name by name |
| `FsLaws.AtTheStart` | code/src/fs.c:89-103 | the root directory and 31 empty slots |
| `FsLaws.Created` | code/src/fs.c:106-196 | `mkdir` and `touch` succeed exactly for an accepted, unused name with a slot left; the lowest free slot gets the first 16 characters, size 0 and keeps its old content, and nothing else changes |
| `FsLaws.Written` | code/src/fs.c:199-211 | `write` succeeds exactly on a file, which then holds the first 255 characters and their number as its size; nothing else changes |
| `FsLaws.WriteThenRead` | code/src/fs.c:199-222 | `cat` after `write` prints the data, cut off after 255 characters |
| `FsLaws.Removed` | code/src/fs.c:225-251 | `rm` and `rmdir` free exactly the slot of the named file or childless directory |
| `FsLaws.Moved` | code/src/fs.c:76-154 | where `cd` leads for "", "/", ".", ".." and any other name, and that it changes nothing else |
| `FsLaws.DownAndUp` | code/src/fs.c:130-154 | `cd` into a directory and `cd ..` lead back |
| `FsLaws.MadeAndRemoved` | code/src/fs.c:106-251 | what was made under a name of at most sixteen characters is removed under that name, and no other slot has changed |
| `Swap.StoreExact` | code/src/swap.c:52-72 | after any run of writes the store holds exactly the first 256 distinct pages, each as last written |
| `Swap.SwapStore.constructor` | code/src/swap.c:15-21 | initialisation gives the empty map |
| `Swap.SwapStore.FindIndex` | code/src/swap.c:23-33 | the scan finds the page's slot exactly when the map has the page |
| `Swap.SwapStore.Exists` | code/src/swap.c:35-38 | the page is present exactly when the map has it, for any address inside it |
| `Swap.SwapStore.Read` | code/src/swap.c:40-50 | memory addressed by frame: all 4096 bytes of the page are copied to the frame and no other memory changes |
| `Swap.SwapStore.WritePage` | code/src/swap.c:52-72 | the map is updated for a known page, extended while there is room, and otherwise unchanged |
| `VirtualMemory.StepInv` | code/src/paging.c:55-131 | faults (handler as meant), unmappings, write-backs and program writes off the reserved frames keep present entries injective on frames below the watermark |
| `VirtualMemory.RunInv` | code/src/paging.c:21-131 | so do all runs |
| `VirtualMemory.BootTranslation` | code/src/paging.c:31-39 | right after booting every address below 4 MB translates to itself and no other address at all |
| `VirtualMemory.UnmapEffect` | code/src/paging.c:86-96 | unmapping takes away exactly the translations of one page |
| `VirtualMemory.PokeEffect` | code/src/paging.c:73-80 | a stored byte is at its address and nowhere else, and no translation changes |
| `VirtualMemory.FrameUnreachable` | code/src/swap.c:40-50 | the frame a fault takes has no mapping at its own address, neither before nor after the fault |
| `VirtualMemory.NeverServed` | code/src/paging.c:98-131 | as written no fault at any address in any state is served: the handler panics, frames are lost and nothing else changes |
| `VirtualMemory.AsMeantIff` | code/src/paging.c:98-131 | the handler as written and as meant agree exactly when the page is not stored or no frame is left |
| `VirtualMemory.SurvivesIff` | code/src/paging.c:98-131 | as written the kernel survives exactly the runs without a fault |
| `VirtualMemory.FramesLost` | code/src/pmm.c:20-29 | a fault loses one frame, and one more for every frame taken whose address is itself a stored page, while memory lasts |
| `VirtualMemory.StoredAboveTable` | code/src/paging.c:98-131 | with a page stored for 4 MB right after booting, the fault on it loses two frames and panics |
| `VirtualMemory.ServedIff` | code/src/paging.c:62-71 | handler as meant, memory addressable by frame: a fault ends with the address mapped exactly when the page is stored, a frame is left and the address is below 4 MB |
| `VirtualMemory.RetriesDrain` | code/src/paging.c:62-119 | handler as meant: n faults on a stored page above 4 MB spend n frames and change nothing else |
| `VirtualMemory.FaultEffect` | code/src/paging.c:98-119 | handler as meant: a served page gets a fresh frame in [4 MB, 16 MB) with the stored bytes, every other translation is unchanged, and so are the bytes of every other page off the reserved frames |
| `VirtualMemory.StoredPageKept` | code/src/swap.c:52-72 | a page stored and not mapped stays as stored over any run without a fault on it |
| `VirtualMemory.PageOutAndIn` | code/src/paging.c:86-119 | handler as meant: a page off the reserved frames that is written back and unmapped comes back with its bytes at the next fault on it, whatever happens in between, and that fault changes no other page |
| `VirtualMemory.UntouchedPageKept` | code/src/paging.c:55-131 | a page keeps its frame, and off the reserved frames its bytes, over any run that does not touch it |
| `VirtualMemory.FramesFresh` | code/src/pmm.c:20-29 | handler as meant: the k-th frame handed out in a run is the k-th page above the starting watermark, so none is handed out twice |
| `Paging.Mmu.constructor` | code/src/paging.c:21-53 | the 1024 entries map the first 4 MB onto themselves, present, writable and supervisor, the directory has that one table, the store is empty, allocation starts at 4 MB of 16, and pages off the reserved frames show memory as it was |
| `Paging.Mmu.PmmAllocPage` | code/src/pmm.c:20-29 | the watermark page, or 0 when memory is used up |
| `Paging.Mmu.MapPage` | code/src/paging.c:55-84 | below 4 MB one entry is written, with the frame given and the low twelve bits of the flags, present bit set; above, nothing is |
| `Paging.EntryFlags` | code/src/paging.c:80 | an entry keeps frame, writable bit, user bit and every other flag, for all flags, and is present |
| `Paging.Mmu.UnmapPage` | code/src/paging.c:86-96 | the page disappears, every other page keeps its translation, and off the reserved frames its bytes |
| `Paging.Mmu.PageFault` | code/src/paging.c:98-131 | the handler as written, nested faults of its own copy included, answers and changes the state as specified: only the watermark moves |
| `Paging.Mmu.PageFaultDirect` | code/src/paging.c:98-131 | the handler as meant, memory addressable by frame: tables, memory, allocator and swap together do what the page map says, panics included, and a served page's entry is its frame with present, writable and user set; bytes of pages on reserved frames are not part of it |
| `Paging.Mmu.Walk` | code/src/paging.c:73-79 | the address the two-level tables give |
| `Paging.Mmu.LoadByte` | code/src/paging.c:98-119 | a load through the tables from a page off the reserved frames sees the byte of its page |
| `Paging.Mmu.StoreByte` | code/src/paging.c:55-84 | a store through the tables to a page off the reserved frames changes one byte of one page and no translation: no aliasing |
| `Paging.StoreThenLoad` | code/src/paging.c:55-84 | a load after a store gives the byte stored at that address, and at every other address the byte it had |
| `Paging.Mmu.SwapOut` | code/src/swap.c:52-72 | writing back a mapped page off the reserved frames stores its bytes |
| `Editor.KeyInv` | code/src/kernel.c:342-443 | every scan code keeps the line below 256 characters and free of NUL, newline and backspace, the history at most ten long and the position inside it |
| `Editor.HistoryIsLastTen` | code/src/kernel.c:404-419 | for every sequence of scan codes the history is the last ten nonempty submitted lines in order |
| `Editor.TypingAppends` | code/src/kernel.c:434-440 | typing any sequence of text keys appends exactly their characters, as far as 255 fit, and changes nothing else |
| `Editor.UpsShow` | code/src/kernel.c:304-310 | after Enter the k-th step up shows the k-th line from the end and then stays at the oldest |
| `Editor.DownsUndoUps` | code/src/kernel.c:312-321 | steps down take back steps up exactly |
| `Editor.UpsRecall` | code/src/kernel.c:304-422 | after any scan codes that end with Enter, the k-th press of arrow-up shows the k-th most recent of all lines ever submitted |
| `Editor.BackspaceWordIs` | code/src/kernel.c:323-340 | Ctrl-W removes exactly the last word and the spaces behind it |
| `Keys.Keyboard` | code/src/kernel.c:258-270 | which character every key gives with and without shift, and which keys give none |
| `Keys.TextKey` | code/src/kernel.c:434-440 | a text key appends its character while the line has fewer than 255, with Ctrl held too unless it is w or p |
| `Keys.TypedThenErased` | code/src/kernel.c:423-440 | a text key and then backspace leave everything as it was |
| `Keys.Backspaces` | code/src/kernel.c:423-432 | n backspaces remove exactly the last n characters, or all |
| `Keys.EnterKey` | code/src/kernel.c:402-422 | Enter empties the line, adds it to the last ten unless empty, and moves behind the newest |
| `Keys.ModifierKeys` | code/src/kernel.c:354-385 | 0xE0, both shift keys and Ctrl, pressed and released |
| `Keys.OtherCodesIgnored` | code/src/kernel.c:359-387 | releases, keys without a character and other extended keys change nothing |
| `Keys.ShiftedKey` | code/src/kernel.c:378-389 | with either shift key held a text key gives its shifted character |
| `Keys.CtrlW` | code/src/kernel.c:391-395 | Ctrl-W removes exactly the last word and the spaces behind it |
| `Keys.CtrlP` | code/src/kernel.c:396-399 | Ctrl-P does what arrow-up does |
| `Keys.UpsAndDowns` | code/src/kernel.c:304-372 | k presses of arrow-up and j of arrow-down after Enter show the line k - j from the end |
| `Keys.Sessions` | code/src/kernel.c:342-443 | over all scan code sequences the line has at most 255 characters and the history is the last ten nonempty lines |
| `Terminal.Terminal.constructor` | code/src/kernel.c:666 | the initial state agrees with whatever the boot code printed |
| `Terminal.Terminal.Kprint` | code/src/kernel.c:35-55 | cursor and cells after printing any text |
| `Terminal.CharShown` | code/src/kernel.c:35-55 | newline goes to the next row of 160 bytes, backspace blanks the cell before, any other character fills a cell in attribute 7 |
| `Terminal.TextShown` | code/src/kernel.c:35-55 | text fills one cell after the other and no other |
| `Terminal.Terminal.CmdClearDisplay` | code/src/kernel.c:281-290 | the line is emptied in the buffer and blanked on screen, the prompt untouched |
| `Terminal.Terminal.CmdSetRow` | code/src/kernel.c:292-302 | buffer and screen show the recalled row and blanks as far as any earlier line reached |
| `Terminal.Terminal.DoHistoryUp` | code/src/kernel.c:304-310 | in place, line and position follow the editor's step and the screen shows the line and nothing of the one before |
| `Terminal.Terminal.DoHistoryDown` | code/src/kernel.c:312-321 | in place, line and position follow the editor's step and the screen shows the line and nothing of the one before |
| `Terminal.Terminal.BackspaceWord` | code/src/kernel.c:323-340 | in place, the two loops drop the last word and blank it on screen |
| `Terminal.Terminal.ShiftRows` | code/src/kernel.c:411-414 | the in-place character loops move every row down by one |
| `Terminal.Terminal.Remember` | code/src/kernel.c:406-417 | the history rows become the old ones with the line appended, the oldest dropped when full |
| `Terminal.Terminal.Enter` | code/src/kernel.c:402-422 | Enter submits the line and leaves an empty one behind "OS> ", printed onto whatever screen the command left |
| `Terminal.Terminal.KeyboardHandlerMain` | code/src/kernel.c:342-443 | one scan code does the editor's step, which `Keys` tells key by key; the cells from the prompt on show the buffer followed by blanks as far as any line since that prompt reached, the cursor stands behind it, and after Enter "OS> " is printed |

## Left out

- Port I/O, PCI enumeration, NIC registers, interrupt tables, timers and inline assembly: hardware plumbing.
- The timeouts of `net_send` and `net_cmd_ping`: a frame handed to the card counts as sent.
- The transmit descriptors `tx_buf` and `tx_cur`: a transmitted frame is appended to a trace.
- `net_cmd_ifconfig`, `net_cmd_ping`'s loop, `arp_print_cache`, `kprint_mac`, help text and the dispatch in `execute_command`: output and wide branching with shallow claims.
- `Swap.SwapStore.Read`: the destination is addressed by frame; what becomes of the copy through the page tables is `Paging.Mmu.PageFault`.
- `udp_handle`: a stub in the code; delivery to it is proved, an effect it does not have is not.
- `fs_list_files` and all printed messages: return values are kept.
- `swap_test_store`: it does not look for an existing entry, so the bounded map does not hold for it.
- `pmm_free_page`: it does nothing.
- `Terminal.Terminal.Kprint`: the copy of each character to the serial port is not modelled, nor are screen bounds, which the code does not check.
- The mouse driver and attribute bytes other than those the editor writes.
- TLB invalidation, control registers and the messages of `page_fault_handler`.
- `FileSystem.FileSystem.FsWriteFile`: characters behind the terminating NUL of a shorter text are not modelled, because no call reads them.
