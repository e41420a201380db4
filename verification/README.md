# Verification model of the CYW43439 driver and its TCP/IP stack

The Go program drives a CYW43439 radio over a half-duplex bus and carries its own small TCP/IP stack. This project
models the parts of it that keep state over time and proves what they promise, on all inputs and over all runs.

**TCP over ring buffers** (`Ring`, `Fifo`, `Tcp`, `Socket`, `SocketApi`, `SocketTable`, `Tcp*`). The rings are real
2048-byte arrays with 16-bit counters that wrap. A socket is a class whose methods assign fields and move bytes between
rings and packet buffer; every method is proved equal to a function of module `Tcp` on connection values, and the
theorems are about runs of that function under a network that loses, repeats and reorders: what the receiver accepts is
a prefix of the peer's stream, the transmit ring stays aligned with the sequence numbers, the two state machines move in
lockstep, what arrives at the receive point is acknowledged, and a timer runs while bytes wait for an acknowledgment.
`TcpEndToEnd` and `TcpDelivery` put two connections together. Connection values carry four histories the
program does not keep: bytes accepted, handed to the application, written by it, and dropped as acknowledged.

**Memory behind a window** (`ChipMemory`, `Bus`, `Backplane`, `HexFirmware`, `FirmwareUpload`, `HciQueue`, `Hci`). The
chip decodes command words and is a flat 2^32-byte memory behind a three-byte window register whose writes may be lost,
or land and still be reported as failed. `Device` holds the cached window and the scratch buffer, which is also the
buffer the firmware uploader and the HCI writer send from. All accesses are proved to be flat overlays and fetches; on
top of that the uploader is an exact overlay and the HCI ring a packet queue.

**SDPCM credit** (`Credit`, `Sdpcm`). Frames and credits form a log; the driver's mutually recursive send, wait and
receive methods are proved to append only legal entries to it, however deeply sends nest.

**Wire formats and small protocols** (`Checksum`, `Ipv4`, `TcpOptions`, `Transport`, `Receive`, `Arp`, `DnsName`, `Dns`,
`Mdns`, `DhcpWire`, `DhcpLease`, `DhcpServer`, `DhcpClient`, `DhcpRun`, `DhcpDelivery`). Build and parse are written
separately and connected by round trips; the ARP table is an exact LRU; the DHCP client and server run against each
other.

Time is an integer in milliseconds, read once per step. Where Go would panic on a slice bound, the model returns an
outcome of its own.

## What turned out not to hold

Each of these is a theorem that gives the exact condition; where it fails for ordinary calls, a lemma shows the failing
family.

- Payload and sequence number of a segment belong together, whatever the ring holds, exactly when `seqNum` is the number
  of the ring's oldest byte: output always peeks from the tail (`TcpTransmit.PairingExact`). After an active open that
  means nothing may be in flight, and two writes in a row break it (`TcpTransmit.SecondWriteRepeatsFirst`). A `Send` of
  more than the ring holds, or two calls without an acknowledgment between, leaves the condition. The end-to-end theorem
  is therefore about senders that wait.
- A passive open leaves `sndUna` at the initial sequence number, one below byte 0. The final acknowledgment never empties
  the ring there (`TcpTransmit.FullAckDrains`), a bare acknowledgment drops a byte the peer does not have
  (`TcpTransmit.PassiveOpenDropsUnacked`), and no retransmission ever stands where its payload belongs
  (`TcpTransmit.PassiveRetransmitShifted`).
- `Close` puts its FIN behind everything written if and only if all of it was sent, counted from byte 0's own number
  (`TcpClose.CloseExact`). On a passive side `seqNum` can stand one short of that: a text one byte longer than a segment,
  then Close, and the FIN has the last byte's number (`TcpClose.PassiveCloseTruncates`). The timer's FIN is right if and
  only if the ring is empty and the open was active (`TcpClose.LateFinExact`). But with an empty ring the timer is off
  (`TcpClose.CloseNeverRetries`), so over all runs of either open a FIN that is lost is never sent again where it belongs
  (`TcpClose.LostFinStaysLost`). Send, Close and the loss of the one segment with the text make the peer take the stream
  for finished without it (`TcpClose.SendCloseTruncates`).
- A segment a whole turn of the sequence space old is accepted (`TcpReceive.AcceptedExactly`).
- A segment is acknowledged if and only if it brings text, or the FIN, at the receive point (`TcpAnswers.AnswersInOrder`).
  So once an acknowledgment is lost, repeating the segment gets no other.
- Text written to an empty ring gets a timer if and only if the next hop is known and the peer's window is open; otherwise
  nothing sends it but another call (`TcpTimer.ArmedExactly`).
- A SYN-ACK is sent once, without a timer: if it is lost, neither the timer nor a repeated SYN brings another one
  (`TcpAnswers.SynAckNotRepeated`).
- Any SYN with an acknowledgment completes an active open and any acknowledgment a passive one, whatever number it
  acknowledges (`TcpLifecycle.OpensExactly`).
- Acknowledgments renew the window before the peer's FIN, not after it (`TcpAnswers.WindowObeyed`).
- TIME-WAIT lasts two seconds when it is reached from FIN-WAIT-2; from FIN-WAIT-1 with no timer running it ends at the
  first poll (`TcpLifecycle.TimeWaitExact`).
- Connecting a bound socket keeps segments unambiguous if and only if no opened socket has the same addresses, which
  nobody checks (`SocketTable.ConnectExact`); where it fails, one of the two sockets never hears its segments
  (`SocketTable.CollisionStarves`).
- A connection that completed its handshake is handed to the application if and only if that accepts before the next one
  completes (`SocketTable.AcceptExact`).
- The window cache's poison value works for exactly those first accesses whose top two address bytes both differ from
  0xAA (`Backplane.PoisonExact`).
- The firmware uploader ignores a failed neighbour read and writes zeros in its place; the result is exact if and only if
  the neighbours were zero (`FirmwareUpload.RecordExact`).
- A transfer is announced to the chip under its own size if and only if that is below 2048 (`Bus.SizeExact`). The length
  guards let 2048 through: for ioctls with 2017 to 2020 bytes of data (`Sdpcm.IoctlSizeExact`) and frames of 2027 to 2030
  bytes (`Sdpcm.FrameSizeExact`) the chip is told zero.
- The host never moves its HCI write pointer back. Wherever it stands, a frame leaves the controller's ring, and the
  pointer behind it, as they were if and only if each byte that lands there equals what stood there
  (`HciQueue.SpillExact`).
- A query is answered exactly when its labels, joined by single dots, equal the host name, not when the name asked for
  does: a trailing or doubled dot makes no difference, and a label of 192 to 255 bytes is never answered
  (`Mdns.QueryAnswered`).
- A name is read back as it was encoded if and only if every label is below 192 bytes long (`DnsName.ParseWireExact`).
- The DHCP client recognises its messages by the transaction number alone, and all clients use the same one
  (`stack/dhcp.go:59`). Another client's acknowledgment is accepted exactly when the numbers agree
  (`DhcpRun.ForeignAck`).
- A refusal stops the DHCP client for good, with the address it has (`DhcpClient.RefusalStops`); and a renewal is repeated
  if and only if fewer than three messages were repeated before the lease was given, because the counter is not reset
  (`DhcpClient.RenewalInherits`).
- An IPv4 packet whose header, with or without options, checks panics the receiver exactly when it is addressed to it and
  announces a total length below its header's (`Ipv4.ShortTotalPanics`, `Receive.ShortTotalFrame`). `ReadHCI` panics
  exactly on a packet of more than 2045 bytes for which the caller's buffer has room (`Hci.Bluetooth.ReadHCI`), the
  uploader exactly on a record that does not fit 256 bytes with its padding (`FirmwareUpload.UploadLines`), and `sendUDP`
  exactly on a datagram beyond the packet buffer, before its size error could be returned (`Transport.SendUdp`).

## Model

| member | source | states |
|---|---|---|
| Rings.Ring.Write | stack/socket.go:95-118 | what fits is appended to the bytes held, in at most two pieces, with counters that wrap at 2^16; the rest is refused and its count returned |
| Rings.Ring.Peek | stack/socket.go:180-200 | the oldest bytes are copied out, nothing is consumed, and the destination keeps every other byte |
| Rings.Ring.Advance | stack/socket.go:203-205 | exactly the first n bytes held are gone |
| Rings.Ring.Read | stack/socket.go:121-142 | the oldest bytes go to the destination and leave the ring |
| Rings.Ring.Reset | stack/socket.go:208-222 | empties the ring |
| Rings.SpanWrite | stack/socket.go:95-118 | two-piece storing at the head of a ring of any size appends, for every fill level and position |
| Rings.SpanDrop | stack/socket.go:203-205 | moving a 16-bit tail drops bytes from the front, across the wrap of counter and array |
| Fifo.Do | stack/socket.go:84-205 | every ring operation in range acts as the same operation on an unbounded queue cut at 2048 bytes |
| Fifo.Conservation | stack/socket.go:84-205 | over any interleaving: bytes held at the start, then bytes in, equal bytes out, then bytes held |
| Tcp.StepSound | stack/tcp.go:74-264 | no step of a connection overfills a ring or loses a byte between history and ring |
| Sockets.Socket.Input | stack/tcp.go:74-170 | the nine-state segment dispatch on fields and rings is the connection function Input, whose answers are those of `TcpAnswers.AnswersExactly` |
| Sockets.Socket.ProcessAck | stack/tcp.go:173-186 | drops exactly the newly acknowledged bytes, if any; the timer starts anew while bytes are left (`TcpTimer.PartialAckRearms`) and stops when none are |
| Sockets.Socket.Timer | stack/tcp.go:189-212 | TIME-WAIT expiry, give-up after eight retransmissions, and rewind to sndUna with doubled timeout |
| Sockets.Socket.Output | stack/tcp.go:216-264 | one segment with the ring's oldest bytes, at most window, MSS and MTU allow |
| Sockets.Socket.SendTcp | stack/tcp.go:279-333 | the segment handed down carries the fields and payload at hand, and seqNum moves by payload, SYN and FIN |
| Sockets.Socket.Close | stack/api.go:217-245 | FIN and the closing state from an open connection, reset from any other |
| Sockets.Socket.Reset | stack/socket.go:208-222 | back to a blank free socket; what was sent stays on the wire |
| Sockets.Socket.StartConnect | stack/api.go:61-70 | SYN-SENT with a fresh initial number, SYN sent, timer armed |
| Sockets.Socket.Spawn | stack/tcp.go:386-403 | the socket a SYN on a listener creates |
| SocketApi.Send | stack/api.go:151-185 | while polls deliver anything and the clock goes on, the bytes written are the first total of data, in order, and all of them exactly if no error is returned; it writes at least what had room at the start, gives up only on a full ring, on time only after the last poll, and otherwise on the poll that failed |
| SocketApi.Recv | stack/api.go:188-214 | hands over the next accepted bytes, at once if there are any; with none, end of stream exactly when the connection takes no more, and time-out only after the last poll |
| TcpReceive.ReceiveInOrder | stack/tcp.go:96-116 | over every run with an honest peer, for both kinds of open: accepted bytes are a prefix of the stream, read bytes then ring contents are the accepted bytes, ackNum is IRS+1+accepted, and CloseWait means the whole stream and its FIN |
| TcpReceive.RunInStep | stack/tcp.go:74-170 | the invariant behind it, kept in all nine states |
| TcpReceive.AcceptedExactly | stack/tcp.go:96-100 | text is accepted if and only if its offset equals the bytes accepted so far modulo 2^32 |
| TcpAnswers.AnswersExactly | stack/tcp.go:96-117 | on an established connection: one acknowledgment, with the room left as its window, for text at the receive point, one more for a FIN behind everything taken, and nothing for any other segment |
| TcpAnswers.AnswersInOrder | stack/tcp.go:96-117 | over every honest run from a state in step with the peer, as both opens are: a segment is answered if and only if it brings text or the FIN at the receive point, and the last answer acknowledges IRS+1+accepted, one more with the FIN |
| TcpAnswers.SynRepeated | stack/api.go:61-70 | Connect sends its SYN, and a timer that fires sends the same SYN again |
| TcpAnswers.SynAckNotRepeated | stack/tcp.go:396-405 | a listener's SYN-ACK is sent once: neither timer nor a repeated SYN brings another |
| TcpAnswers.FirstText | stack/tcp.go:80-90 | the answer to a SYN is acknowledged, and the first text written is cut to the window and MSS it announced |
| TcpAnswers.WindowObeyed | stack/tcp.go:97-100 | the next output obeys the window of the acknowledgment just taken, before the peer's FIN; after it, the old one |
| TcpTransmit.TransmitAligned | stack/tcp.go:173-186 | over every run, sndUna minus the bytes dropped is constant modulo 2^32 and the ring holds exactly the bytes written and not dropped |
| TcpTransmit.ActiveOpenAligned | stack/tcp.go:78-88 | after an active open the constant is the acknowledged number |
| TcpTransmit.PassiveOpenAligned | stack/tcp.go:396-403 | after a passive open it is the initial number, one below the number byte 0 is sent under |
| TcpTransmit.OldestUnacked | stack/tcp.go:216-264 | a segment sent at sndUna carries the oldest unacknowledged bytes, at most window, MSS and 1460 of them |
| TcpTransmit.TimerResendsOldest | stack/tcp.go:189-212 | over any run, a retransmission by the timer carries the oldest unacknowledged bytes |
| TcpTransmit.PairingExact | stack/tcp.go:250-256 | payload and sequence number agree for all ring contents if and only if seqNum is the number of the oldest byte, or nothing is sent |
| TcpTransmit.SecondWriteRepeatsFirst | stack/tcp.go:250-256 | two one-byte writes in a row send the first byte at the second one's number |
| TcpTransmit.DropsExactly | stack/tcp.go:173-186 | which acknowledgments are acted on, and that then exactly the acknowledged bytes, shifted by the opening's offset, are dropped |
| TcpTransmit.FullAckDrains | stack/tcp.go:173-186 | the final acknowledgment empties the ring if and only if the open was active |
| TcpTransmit.PassiveOpenDropsUnacked | stack/tcp.go:378-405 | after any passive open, an acknowledgment of no data drops one byte |
| TcpTransmit.PassiveRetransmitShifted | stack/tcp.go:207-210 | in any state aligned to the initial number, as every state after a passive open is, a retransmission stands one below where its payload belongs |
| TcpTransmit.NeverDropsUnheld | stack/tcp.go:173-186 | after an active open no run of acknowledgments the peer can have sent drops a byte the peer does not hold |
| TcpTimer.RunWatched | stack/tcp.go:173-264 | over every run, an open connection with bytes in its ring has a running timer, as long as text written to an empty ring goes out |
| TcpTimer.ArmedExactly | stack/tcp.go:232-263 | text written to an empty ring gets a timer if and only if the next hop is known and the window open; without one no poll ever changes anything |
| TcpTimer.PartialAckRearms | stack/tcp.go:178-184 | an acknowledgment that leaves bytes in the ring restarts the timer for a second and resets the counter |
| TcpTimer.BacksOff | stack/tcp.go:201-211 | eight retransmissions, 2, 4, ... and 256 seconds apart, then the connection is given up |
| TcpEndToEnd.RunSendsOneStream | stack/tcp.go:216-264 | over every run of a sender that outputs where output is right and closes once all was sent, whatever arrives: every segment sent carries the written stream at its own sequence number, and a FIN only at its end |
| TcpEndToEnd.ActiveOpenStarts | stack/tcp.go:78-88 | an active open establishes the invariant, its handshake acknowledgment included |
| TcpEndToEnd.FinExact | stack/tcp.go:225-227 | after either open, a bare FIN is right if and only if it stands behind everything written, counted from byte 0's own number |
| TcpClose.CloseExact | stack/api.go:230-239 | after either open, Close's FIN stands at the end if and only if everything written was sent |
| TcpClose.LateFinExact | stack/tcp.go:201-211 | a retransmitted FIN has no text, stands at sndUna, and is right if and only if the ring is empty and the open was active |
| TcpClose.RunIdle | stack/tcp.go:173-186 | over every run, no timer runs while the ring is empty |
| TcpClose.LostFinStaysLost | stack/tcp.go:189-212 | in every run of either open, a FIN the timer sends stands before bytes that are still unacknowledged, never at the end |
| TcpClose.CloseNeverRetries | stack/api.go:230-239 | closed with an empty ring, in any run of arrivals, reads and timer ticks nothing but bare acknowledgments is sent |
| TcpClose.SendCloseTruncates | stack/tcp.go:201-264 | for all connections at rest and all texts: Send, Close, the text lost, and the receiver takes the timer's FIN as the end without the text |
| TcpClose.PassiveCloseTruncates | stack/tcp.go:396-403 | for every passive open and every text of one byte more than the MSS: Send, Close, and a receiver of all but the last byte takes the FIN as the end |
| TcpDelivery.EndToEnd | stack/tcp.go:74-264 | such a sender's segments, delivered in any order, any number of times or never: the other application reads a prefix of what was written, and all of it once the FIN was taken |
| TcpDelivery.SegmentCrosses | stack/tcp.go:279-333 | every segment any run ever sends fits the MTU and is read back unchanged by the host it is addressed to |
| TcpLifecycle.AlwaysLockstep | stack/tcp.go:74-212 | over every disciplined run of calls and traffic, socket state and TCP state correspond, and retxCount is at most 8 |
| TcpLifecycle.DoLockstep | stack/api.go:10-101 | every single call and step keeps the correspondence, Listen only after Socket or Bind |
| TcpLifecycle.BoundedChanges | stack/tcp.go:74-212 | an incarnation changes its TCP state at most as often as the rank still allows |
| TcpLifecycle.AtMostEightRetransmissions | stack/tcp.go:189-212 | at most eight timer retransmissions between acknowledgments that move forward |
| TcpLifecycle.OpensExactly | stack/tcp.go:80-169 | which segments open a connection, and the numbers it goes on with |
| TcpLifecycle.EndsExactly | stack/tcp.go:91-169 | which segments end an incarnation: resets before the FINs, and the acknowledgment in LAST-ACK |
| TcpLifecycle.ClosesExactly | stack/tcp.go:118-145 | which segments lead through FIN-WAIT to TIME-WAIT, and that the peer's FIN is acknowledged there |
| TcpLifecycle.OrderlyClose | stack/api.go:230-239 | Close, the acknowledgment of its FIN and the peer's FIN lead through FIN-WAIT-2 to TIME-WAIT, or through LAST-ACK to the end |
| TcpLifecycle.TimeWaitExact | stack/tcp.go:138-199 | TIME-WAIT lasts two seconds from FIN-WAIT-2, and no time at all from FIN-WAIT-1 without a timer |
| SocketTable.Table.Alloc | stack/socket.go:226-234 | takes the first free slot, cleared, and fails only when there is none |
| SocketTable.Table.NewSocket | stack/api.go:10-29 | the first free slot becomes a bound socket of its protocol, nothing else changes |
| SocketTable.Table.Bind | stack/api.go:32-40 | sets the local port and address of a socket in use, and of no other |
| SocketTable.Table.Listen | stack/api.go:90-101 | a TCP socket in use becomes a listener with nothing pending, any other descriptor is refused |
| SocketTable.Table.NextEphemeralPort | stack/socket.go:249-270 | a port in 49152..65534 no socket in use has, the first such in probe order, within nine probes; the fallback is dead |
| SocketTable.TooManyUsed | stack/socket.go:249-270 | the pigeonhole: eight sockets cannot occupy nine probes |
| SocketTable.Table.FindTcp | stack/tcp.go:408-419 | the first socket with this remote address, remote port and local port, if and only if there is one |
| SocketTable.Table.FindListening | stack/tcp.go:422-430 | the first listener on the port |
| SocketTable.Table.Connect | stack/api.go:43-63 | addressing of an active open: a bound port stays, an unbound socket gets a fresh one, the local address is the stack's; a TCP socket is connecting, a UDP socket connected |
| SocketTable.Table.HandleSyn | stack/tcp.go:52-68 | a socket is spawned, into the first free slot and linked to the first listener, if and only if no socket matches, a listener is there and a slot is free |
| SocketTable.MoveUnique | stack/tcp.go:379-419 | each step keeps at most one opened socket per remote address, remote port and local port |
| SocketTable.DemultiplexExact | stack/tcp.go:408-419 | in every run from the empty table a segment goes to a socket if and only if that is the opened one with its addresses |
| SocketTable.ConnectExact | stack/api.go:43-54 | connecting a bound socket keeps opened addresses distinct if and only if no opened socket has the new ones |
| SocketTable.FindTells | stack/tcp.go:408-419 | the lookup finds nothing exactly when they are unused |
| SocketTable.CollisionStarves | stack/tcp.go:408-419 | otherwise all segments go to one of two opened sockets with the same addresses |
| SocketTable.Table.Complete | stack/tcp.go:157-164 | a completed handshake is noted at its listener, over whatever was noted before |
| SocketTable.Table.TryAccept | stack/api.go:132-148 | hands out the noted connection and clears the note |
| SocketTable.AcceptExact | stack/tcp.go:157-164 | at any place in any history, a completed connection is handed out if the application accepts next, and otherwise it is as if it had never completed |
| SocketTable.DriveAccept | stack/api.go:132-148 | the table itself hands out exactly that, for any listener and any order of completions and accepts |
| ChipMemory.OverlayExact | device.go:150-176 | an overlay changes exactly the bytes addressed |
| ChipMemory.OverlayConcat | device.go:150-176 | writing in pieces, wherever they are cut, is writing at once |
| ChipMemory.FetchOutside | device.go:120-146 | bytes outside a write are read as before |
| ChipMemory.OverlayLeaves | device.go:150-176 | the bytes at any place survive a write if and only if it puts there what they were |
| ChipMemory.OverlayNeighbours | bluetooth.go:95-123 | writing a record together with its neighbours' old bytes is writing the record |
| ChipMemory.NeighboursNeeded | bluetooth.go:95-123 | and only then: if the widened write is the record's own, the neighbours written were what memory held |
| Backplane.Device.SetWindow | device.go:73-104 | afterwards the register shows the address's window, or the write failed and the cache is the poison; a cached window is never wrong |
| Backplane.PoisonExact | device.go:73-104 | from the poison, every register content ends up right if and only if no wanted byte equals its poison byte |
| Backplane.Device.BpWrite | device.go:150-176 | memory changes by exactly the bytes of the caller's slice that went out, also when the slice is the scratch buffer itself; all of them on a bus that works |
| Backplane.Device.BpRead | device.go:120-146 | exactly the bytes of memory, across chunks and windows; memory unchanged |
| Backplane.Device.Stage | device.go:160-170 | staging a chunk in the scratch buffer overwrites no byte not yet sent from it |
| Backplane.Device.Read32 | device.go:178-188 | the little-endian word at an aligned address |
| Backplane.Device.Write32 | device.go:195-206 | exactly the four bytes of the word |
| Bus.BitsAddUp | bus.go:20-32 | the fields packed by shifts and ors do not overlap, so the word is their sum |
| Bus.CmdWordDecodes | bus.go:20-32 | the chip reads from a command word exactly the fields put in, each cut to its width |
| Bus.SizeExact | bus.go:20-32 | the chip sees the size that was meant if and only if it is below 2048, and zero for 2048 |
| Bus.SwapTwice | bus.go:36-38 | exchanging halves twice is the identity |
| HexFirmware.HexFile.ReadPatchLine | bluetooth.go:366-410 | one call returns the next data line and leaves the parser as the reference scanner does |
| HexFirmware.ParseRecovers | bluetooth.go:366-410 | any list of extended, segment, data and unknown records is parsed to exactly what it means, stale buffer bytes notwithstanding |
| FirmwareUpload.WriteRecord | bluetooth.go:84-136 | a record goes out widened to whole words by what the neighbour reads gave, all of it or, on a bus error, a beginning; it panics exactly when it does not fit 256 bytes |
| FirmwareUpload.WriteChunks | bluetooth.go:126-136 | a widened record goes out in 64-byte chunks from and through one buffer, each byte as staged, up to the first failure |
| FirmwareUpload.RecordExact | bluetooth.go:95-123 | the widened write equals the record's own write if and only if each failed neighbour read met zeros |
| FirmwareUpload.UploadLines | bluetooth.go:78-138 | for any firmware: every record up to the first that does not fit lands widened, in order; after a bus error the records done and a beginning of the next; on a working bus whose first access leaves the poison, exactly the records |
| FirmwareUpload.Upload | bluetooth.go:60-139 | for any image of records: old memory with each record's bytes at its address in order, every other byte kept, up to the first record that panics |
| HciQueue.AdvanceHolds | bluetooth.go:344-354 | the oldest frame is what a read from the pointer yields, and moving the pointer leaves the others |
| HciQueue.HeaderSays | bluetooth.go:232-242 | the header written for a packet is decoded to its length and its bytes |
| HciQueue.WriteElsewhere | bluetooth.go:203-209 | writes outside the ring and its pointer leave the pending frames alone |
| HciQueue.SpillExact | bluetooth.go:248-252 | for any write pointer, a host frame leaves the controller's ring and its pointer alone if and only if each byte that lands there equals what stood there |
| Hci.Bluetooth.Available | bluetooth.go:321-327 | the pending byte count, modulo 4096 |
| Hci.Bluetooth.RawRead | bluetooth.go:330-341 | the ring's bytes from the read pointer, in one or two pieces |
| Hci.Bluetooth.ReadRingbuf | bluetooth.go:344-354 | the oldest frame is read; the pointer moves only when the chip was told, and then the others are pending |
| Hci.Bluetooth.ReadHCI | bluetooth.go:261-301 | for any caller buffer: returns the oldest pending packet and drops it; a too-small buffer drops nothing, a packet above 2045 bytes panics; after any failure the ring still holds all packets, or all but the one taken |
| Hci.Bluetooth.WriteHCI | bluetooth.go:221-257 | for any write pointer: size errors as in the source, and memory changed by the frame, the published pointer and the control bits alone; while the frame ends within the host's buffer, it stands there as ReadHCI decodes it and the ring is untouched |
| Hci.TogglesBit | bluetooth.go:201-209 | signalling toggles one bit of the control word and no other |
| Hci.SetsBit | bluetooth.go:187-199 | waking sets one bit of the control word and no other |
| Hci.Drive | bluetooth.go:261-354 | over any number of wraps the packets read are the packets appended, in order and each once |
| Credit.WindowBounded | ioctl.go:198-204 | the open window is never above 0x40 |
| Credit.NumbersConsecutive | ioctl.go:44-52 | encoded numbers run 0, 1, 2, ... modulo 256 |
| Credit.AtMost64 | ioctl.go:117-130 | at most 64 frames go out between two credit updates, and one before the first |
| Sdpcm.Device.SendEth | wifi.go:175-218 | on success the last frame handed to the bus is exactly this one under the number just encoded, though other sends may have run while it waited |
| Sdpcm.Device.DoIoctl | ioctl.go:15-77 | on success a control frame with this command, kind, interface, length and data under its own fresh id was handed to the bus; unless an ioctl is sent from within, the answer with that id came and its data is returned; only legal entries are added to the log |
| Sdpcm.Device.EncodeIoctl | ioctl.go:35-68 | the control frame: header, CDC header, data, zeros, under the next number |
| Sdpcm.FlagsAddUp | ioctl.go:53-54 | kind and interface stand side by side in the flags word |
| Sdpcm.ControlReads | ioctl.go:35-68 | header, CDC header and data of a control frame are read back as they were put |
| Sdpcm.Device.WaitCredit | ioctl.go:117-130 | succeeds only with credit in hand, and at once if it was there |
| Sdpcm.Device.WaitResponse | ioctl.go:133-150 | unless an ioctl is sent from within, succeeds exactly with the answer to the awaited id and returns its data; if the stack sends nothing, its status is zero |
| Sdpcm.Device.TakeCredit | ioctl.go:198-204 | a credit more than 0x40 ahead is replaced by two frames ahead |
| Sdpcm.IoctlSizeExact | ioctl.go:20-28 | which ioctls pass the length guard, and which of them the chip is told the right size of |
| Sdpcm.FrameSizeExact | wifi.go:175-183 | the same for Ethernet frames |
| Sdpcm.Device.HandleRx | ioctl.go:184-221 | a malformed packet changes nothing; a control packet takes its credit and completes the awaited ioctl exactly for its id; a data packet delivers exactly the frame behind its BDC header; any packet keeps the credit invariant, whatever the stack sends in reaction |
| Sdpcm.Device.HandleControl | ioctl.go:224-251 | completes the pending ioctl exactly for its own id, with exactly the data the length field and the packet allow, and reports a non-zero status |
| Sdpcm.ResponseReads | ioctl.go:236-248 | of an answer with status zero exactly the data behind its header is taken, whatever follows |
| Sdpcm.DataReads | ioctl.go:363-380 | the receiver takes from a frame the driver sends exactly the Ethernet frame in it, padding included |
| Sdpcm.EthFrameReads | ioctl.go:363-380 | behind the BDC header as many words are skipped as it says |
| Sdpcm.Drive | ioctl.go:117-130 | any requests in any nesting: window at most 0x40, numbers consecutive, never 65 frames without a credit update |
| Sdpcm.PutThenParse | protocol.go:25-51 | the SDPCM header round trip |
| Sdpcm.PutThenParseCdc | protocol.go:63-79 | the CDC header round trip |
| Checksum.Compute | stack/ipv4.go:118-131 | the loop and the folding compute the complement of the folded sum; folding ends |
| Checksum.PseudoHeader | stack/ipv4.go:134-150 | the sum of the twelve pseudo-header bytes as words |
| Checksum.ChecksumIsOnesComplementSum | stack/ipv4.go:118-131 | for up to 64 KB, odd lengths included: the complement of the one's-complement sum of all words |
| Checksum.PseudoHeaderPrepends | stack/ipv4.go:134-150 | starting from the pseudo-header sum equals checksumming its twelve bytes in front |
| Checksum.StoredChecksumVerifies | stack/udp.go:84-90 | stored in a zeroed even-offset field, the result re-checks to 0, also with UDP's 0xFFFF for 0 |
| Checksum.SingleWordCorruption | stack/ipv4.go:118-131 | exactly which changes of one word go unnoticed |
| Ipv4.SendIpv4 | stack/ipv4.go:69-110 | the frame around a payload already in the buffer, or the size error |
| Ipv4.HandleIpv4 | stack/ipv4.go:15-60 | the receive checks in order, with the outcome of each; who is addressed is pinned down by `Receive.UdpRoundTrip` |
| Ipv4.Ipv4RoundTrip | stack/ipv4.go:15-110 | what was sent is delivered whole to exactly the hosts it is for, link padding cut off |
| Ipv4.NoOptions | stack/ipv4.go:75-101 | without options that header is the one sendIPv4 writes |
| Ipv4.ShortTotalPanics | stack/ipv4.go:25-50 | with a header that checks, with or without options, the receiver panics if and only if the packet is for it and its total length is below the header's |
| Ipv4.DamagedHeaderIgnored | stack/ipv4.go:35-38 | damage to one header word behind the first is noticed, short of exchanging 0x0000 and 0xFFFF |
| Transport.SealedChecks | stack/tcp.go:317-321 | a receiver that checks with the pseudo-header finds the datagram or segment good |
| Transport.Seal | stack/udp.go:84-90 | stores the checksum over buffer and pseudo-header in place and changes nothing else of the datagram |
| Transport.SendUdp | stack/udp.go:64-93 | the datagram's frame, no route, or a panic beyond the buffer |
| Transport.SendTcp | stack/tcp.go:279-323 | the frame of the segment whose payload lay in the buffer, MSS option on SYN only |
| TcpOptions.ParseMss | stack/tcp.go:433-456 | the first well-formed MSS option, or 1460 |
| TcpOptions.OptionsOfEncoding | stack/tcp.go:433-456 | encoded options with any padding are recovered, and scanning goes on behind them |
| Receive.HandleEth | stack/stack.go:126-139 | dispatch of any frame to its protocol and parse |
| Receive.HandleTcp | stack/tcp.go:27-50 | header fields, MSS option of a SYN and payload; anything too short is ignored |
| Receive.ShortTotalFrame | stack/stack.go:126-139 | the same for the whole receive path |
| Receive.UdpRoundTrip | stack/udp.go:8-93 | within the MTU: addresses, ports and data arrive at the addressee, at everybody for a multicast address or 255.255.255.255, at every host without an address, and nowhere else |
| Receive.TcpRoundTrip | stack/tcp.go:27-71 | within the MTU: addresses, ports, seq, ack, flags, window, MSS and payload arrive at the same hosts |
| Receive.PayloadsCheck | stack/udp.go:84-90 | both checksums verify under the addresses the receiver reads |
| Arp.ArpTable.Get | stack/arp.go:33-41 | the hardware address of the first valid entry for the address, if there is one |
| Arp.ArpTable.Update | stack/arp.go:44-71 | refreshes the entry of the address, else replaces a free one, else the oldest |
| Arp.ReachableInv | stack/arp.go:44-71 | after any run no address is in two valid slots and every slot holds its address's last update |
| Arp.LruExact | stack/arp.go:33-71 | after any run with a rising clock, lookup gives the last update's address if and only if fewer than 16 other addresses came since |
| Arp.AnswerAfter | stack/arp.go:33-71 | the same for the table itself, driven through any history |
| DnsName.ParseWire | stack/dns.go:173-196 | encoded labels are parsed back, wherever they stand |
| DnsName.ParseWireExact | stack/dns.go:173-196 | non-empty labels of any length are parsed back, to their end, if and only if each is below 192 bytes long |
| DnsName.LongLabelMalformed | stack/mdns.go:159-165 | with a label of 192 to 255 bytes the encoded name is not read as a name at all |
| DnsName.SplitJoin | stack/dns.go:173-196 | splitting a dot-joined name gives its labels |
| DnsName.EncodedNameMatches | stack/mdns.go:154-196 | an encoded name matches a target if and only if they are equal ignoring ASCII case |
| Dns.MatchName | stack/mdns.go:154-196 | true exactly when the bytes are pointer-free labels ending in a zero whose dot-join equals the target ignoring ASCII case |
| Dns.SkipName | stack/dns.go:199-211 | the offset behind the name, or -1 |
| Dns.SkipLands | stack/dns.go:199-211 | behind every name that parses |
| Dns.EncodeName | stack/dns.go:173-196 | the wire form in place, or -1 exactly when it does not fit |
| Mdns.BuildQuery | stack/dns.go:126-170 | header, encoded name, type and class at the front of the buffer, or 0 exactly when the name is too long for it |
| Mdns.HandleQuery | stack/mdns.go:71-105 | which records answer each question, in order, and none for what is not a query |
| Mdns.HandleQuestion | stack/mdns.go:108-150 | which record, if any, answers a question |
| Mdns.FirstOffer | stack/mdns.go:124-150 | the first service with a record to offer answers, with the pointer for its type, else with what is asked for of its instance |
| Mdns.QueryAnswered | stack/mdns.go:71-115 | any name with labels below 256 bytes, with dots anywhere: its query is answered, once and with the host's address, exactly when no label reaches 192 bytes and the labels joined by dots are the host name ignoring case |
| DhcpWire.ScanRequest | stack/dhcpserver.go:55-86 | of each option kind the last one long enough counts |
| DhcpWire.ScanReply | stack/dhcp.go:121-171 | of each of six option kinds the last one long enough counts |
| DhcpWire.OptionsOfEncoding | stack/dhcp.go:125-171 | the option list is recovered exactly, whatever follows the end mark |
| DhcpWire.BuildRequest | stack/dhcp.go:220-283 | the client's message in place in a buffer of any old contents |
| DhcpWire.BuildReply | stack/dhcpserver.go:147-223 | the server's message |
| DhcpWire.RequestRoundTrip | stack/dhcpserver.go:38-86 | the server reads transaction, hardware address, type and requested address as the client put them |
| DhcpWire.ReplyRoundTrip | stack/dhcp.go:102-171 | the client reads address, type, mask, router, name server, server and lease time as the server put them, if the transaction is its own, and nothing otherwise |
| DhcpLease.LeaseTable.Allocate | stack/dhcpserver.go:106-124 | the old lease, or the first free slot, or nothing |
| DhcpLease.LeaseTable.Lookup | stack/dhcpserver.go:127-134 | the lease of a hardware address, if it has one |
| DhcpLease.AllocateTidy | stack/dhcpserver.go:106-124 | used slots stay a prefix with distinct hardware addresses and their slots' addresses |
| DhcpLease.LeaseStable | stack/dhcpserver.go:106-134 | an allocation changes no lease given before |
| DhcpLease.LeasesUnique | stack/dhcpserver.go:27-35 | after any run: one lease per hardware address, distinct ones for distinct ones, never the gateway's, with the last byte counted modulo 256 |
| DhcpLease.AllocateSucceeds | stack/dhcpserver.go:106-124 | it gives an address if and only if there is a lease already or a slot is free |
| DhcpServer.Server.HandlePacket | stack/dhcpserver.go:38-103 | what any packet does to the leases and what is sent in answer |
| DhcpServer.AnswersAreLeases | stack/dhcpserver.go:88-134 | over any run every answer names the lease its hardware address ends up with |
| DhcpServer.AnswersAgree | stack/dhcpserver.go:88-134 | any two offers or acknowledgments carry the same address exactly when they are for the same hardware address |
| DhcpClient.DhcpClient.Start | stack/dhcp.go:63-67 | a new discovery |
| DhcpClient.DhcpClient.Poll | stack/dhcp.go:69-100 | retransmissions, give-up, renewal and restart, state by state |
| DhcpClient.DhcpClient.HandlePacket | stack/dhcp.go:102-198 | what any packet does in any state, the router asked for by ARP included |
| DhcpClient.CounterSmall | stack/dhcp.go:69-100 | the one-byte retransmission counter never exceeds 6 |
| DhcpClient.RepeatsThenGivesUp | stack/dhcp.go:69-84 | over any polls without an answer: the same message again until the counter is five, then nothing |
| DhcpClient.RenewsAtHalf | stack/dhcp.go:182-194 | an acknowledged lease is asked for again when half of it has passed, and not before |
| DhcpClient.RenewalInherits | stack/dhcp.go:85-99 | an unanswered renewal starts over at once exactly when three messages were repeated before the lease was given |
| DhcpClient.RefusalStops | stack/dhcp.go:195-196 | after a refusal no poll does anything, and the address stays |
| DhcpRun.RunKeepsInv | stack/dhcp.go:173-198 | the invariant of client, server and all messages under way, over any loss, repetition and reordering |
| DhcpRun.BoundMeansLease | stack/dhcp.go:182-194 | a bound or renewing client has the server's unique lease for its hardware address, with the server's gateway, mask and name server; once configured, its address never changes |
| DhcpRun.LossFreeBinds | stack/dhcp.go:63-198 | from any reachable world, an exchange without loss reaches Bound if and only if there is a lease or a free slot |
| DhcpRun.ForeignAck | stack/dhcp.go:110-113 | requesting or renewing, an acknowledgment for any client is accepted exactly when the transaction numbers agree, and then the address is the client's own lease exactly when it was for it |
| DhcpDelivery.RequestHeard | stack/dhcp.go:200-216 | what a client broadcasts arrives at any host, with any address or none, and the server reads it as it was meant |
| DhcpDelivery.ReplyHeard | stack/dhcpserver.go:221-222 | what the server broadcasts arrives at a client with any address or none, and is read as it was meant |

## Left out

- Sockets.Socket.SendTcp: hands a segment value to the interface; its bytes are `Transport.SendTcp`, connected by `TcpDelivery.SegmentCrosses`.
- SocketApi.Send: the UDP branch, which only calls sendUDP.
- Transport.SendTcp: takes the socket's own address as it is; the round trip assumes it equals the stack's address, which can change under a connection.
- TcpReceive.ReceiveInOrder: says nothing of streams in FIN-WAIT states, where the code takes no data.
- TcpDelivery.EndToEnd: a sender that opened actively (a passive one misplaces every retransmission), and streams below 2^32 - 1 bytes, so that no old segment can pass for a new one.
- FirmwareUpload.Upload: when register writes fail, addresses whose top bytes avoid 0xAA; Linear32 mode is in the parser only.
- Hci.Drive: the controller appends well-formed frames while fewer than 4096 bytes stay pending.
- Sdpcm.Device.DoIoctl: an ioctl sent from within another one's wait takes over the pending id; a non-zero status that arrives while a frame is being sent from within is reported to that send, so success then does not mean status zero.
- Bus.CmdWordDecodes: is about numbers; `Bus.BitsAddUp` turns the source's bit expression into a sum of bit patterns, but reading a mask as a remainder and a shift as a product is not proved.
- Mdns.QueryAnswered: labels of 256 bytes and more, whose length byte wraps.
- Mdns.HandleQuery: answers are tags; the record bytes sent and the truncation of long service names are not modelled.
- A send that waits for an ARP answer or credit and re-enters the stack in the TCP model: a send either goes out at once or not at all (`up`).
- Accept's waiting loop, and the reset answered to a segment for no socket: plumbing.
- UDP sockets' delivery and their adoption of the first sender's address.
- Registers with side effects in the chip's memory, and bulk transfers that fail.
- bp_writestring, which repeats bp_write for a string; bp_writezlib, NVRAM and CLM download.
- Event frames, the access-point client table, join and AP recipes, GPIO, link-state polling.
- DNS responses and the resolver's retry loop.
- ICMP, NTP, multicast filters.
- ARP frames on the wire and the resolver's polling; expiry times only order eviction in the code, and so in the model.
- Packets before the DHCP server's Start do nothing; a second Start over existing leases is not part of the runs.
