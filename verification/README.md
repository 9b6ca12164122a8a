# Verified models of the RTEMS lwIP network drivers

This project models the parts of the repository in which software shares state with a DMA engine,
with other threads or with the C heap, and proves what those parts promise. Each Dafny file is one
component.

| file | component |
|---|---|
| `Tms570TxLists.dfy`, `Tms570Tx.dfy` | TMS570 EMAC transmit channel: two descriptor lists, the EMAC as an interleaved process, reference counts |
| `Tms570RxLists.dfy`, `Tms570Rx.dfy` | TMS570 EMAC receive channel: the EMAC's queue, frame assembly, refill, list partition, conservation of bytes |
| `Stm32Rx.dfy` | STM32H7 receive ring, backup array, buffer pool, interrupt and input thread |
| `Stm32Tx.dfy` | STM32H7 transmit path through one shared bounce buffer |
| `Mailbox.dfy` | RTEMS mailbox: a semaphore and a message queue used by any number of threads |
| `Netconn.dfy` | TCP netconn receive with the pending-FIN state, against the TCP/IP thread |
| `SelectFds.dfy` | translation of descriptor sets around `lwip_select` |
| `PageTable.dfy` | first-level ARM page table built from section regions |
| `IfAddrs.dfy` | `getifaddrs` and `freeifaddrs` on an explicit heap |
| `RxLink.dfy` | chain building by the HAL receive-link callback |

Conventions. Concurrency is modelled by interleaving. Each shared object has a method for what the
other side does in one step (`EmacStep`, `Happen`, `Others`, `DmaStep`, `Deliver`), and the modelled
code calls it at the points where the two sides share state. A `script` says which steps happen and
when; it is an arbitrary input, so a contract that holds for every script holds for every
interleaving. Allocator results, `lwip_select` and the descriptor table are arbitrary inputs in the
same way. Ghost logs record everything that was ever queued, fetched or transmitted; the invariants
relate the real fields to these logs, so "in order", "once each" and "nothing lost" are statements
about whole runs.

## Findings

These properties do not hold for all inputs. Each is proved with its exact condition, and with a
run or an input that reaches the failure.

* TMS570 transmit: a packet of several descriptors whose last descriptor kept an EOQ bit from
  earlier use makes the next send restart the EMAC at the wrong time. `Send` says when the bit
  arises and that the next send then leaves TXHDP naming a packet that is already on the wire.
  `LeftoverEoqReached` reaches the bit from a clean channel of three descriptors, and
  `ResendReached` goes on to the wire: the last frame is there twice.
* TMS570 receive: a pbuf chain exactly as long as the inactive list leaves `inactive_tail` pointing
  at an active descriptor. `Attach` has the condition for one chain, `Refill` for a whole refill
  (`ExactFit`), `ProcessIrqRx` for a pass, and `ExactFitReached` the run. `DetachAfterFit` is what
  it leads to: the descriptors of the next frame go to the end of the active list instead of the
  inactive one, and a frame that was the whole list is at its head again.
* TMS570 receive: a refill meets an undefined shift if and only if a request of one byte is refused
  (`Refill`, `OutcomeExactly`), which takes an odd number of bytes: `ShiftReached` starts from one,
  `ShiftReachedLater` from 8193, of which two grants of 4096 leave one. The driver starts with
  96000 bytes, and even byte counts stay even, so it never gets there (`EvenNeverShifts`,
  `NeverShifts`).
* STM32 receive: the input thread can sleep over a frame. A single-descriptor frame of more than
  1534 bytes makes `low_level_input` return NULL with completed descriptors left (`Answer`), which
  ends the round; the wake-up guarantee (`Ready`) then waits for the next signal.
  `SleepsOverAFrame` reaches the state with the semaphore at zero and nothing pending.
* STM32 transmit: a send gives the chain back unchanged if and only if its head is `Restorable`: a
  contiguous head needs the two pad bytes or no headroom, and a PBUF_REF or PBUF_ROM head must be
  shorter than the pad. `ReferenceLoses` and `ShortGains` are the two failures.
* STM32 transmit: from a quiet ring a send answers ERR_OK if and only if the DMA completes within
  the first 9999 of the 10000 polls (`LowLevelOutput`). `LateCompletion` completes at the last one:
  the frame is on the wire and the answer is ERR_TIMEOUT.
* `select`: the count is right for every answer of `lwip_select` if and only if the requested
  descriptors name distinct sockets (`CountNeedsInjective`, `MiscountReached`); and the code tests a
  set at a negative index if and only if a requested descriptor stops being a socket while
  `lwip_select` waits (`Select`, outcome `Undefined`; `UndefinedReached`).
* Page table: an entry is an identity-mapped section if and only if the region's attributes leave
  the start address and the kind bits alone (`IdentityMap`, `NotPlainReached`); all values of mmu.h
  do (`HeaderValuesArePlain`).

## Model

| member | source | states |
|---|---|---|
| `Tms570TxLists.ListsPartition` | rtemslwip/tms570/tms570_netif.c:611-715 | in every state of the invariant the active and inactive lists are acyclic, follow the next pointers down to NULL, and every descriptor is on exactly one of them |
| `Tms570TxLists.ActiveIsList` | rtemslwip/tms570/tms570_netif.c:686-708 | from any packet on, the active list is the concatenation of the queued packets' descriptors, and holds exactly the descriptors placed in those packets |
| `Tms570TxLists.NothingStranded` | rtemslwip/tms570/tms570_netif.c:686-708 | the EMAC is halted if and only if it has handed back every packet; then every packet ever queued is on the wire, in order and once, and no active packet is EMAC-owned |
| `Tms570TxLists.AllOnWire` | rtemslwip/tms570/tms570_netif.c:995-1009 | with TXHDP clear the wire is exactly the sequence of frames sent |
| `Tms570TxLists.ReadKeeps` | rtemslwip/tms570/tms570_netif.c:690-707 | the EMAC's atomic read of a packet with its end-of-queue decision keeps lists and EMAC invariant, and adds that packet's frame to the wire |
| `Tms570TxLists.ReleaseKeeps` | rtemslwip/tms570/tms570_netif.c:877-884 | clearing OWNER hands back exactly the oldest EMAC-owned packet |
| `Tms570TxLists.StartKeeps` | rtemslwip/tms570/tms570_netif.c:634-643 | opening the first free descriptor keeps the inactive list and starts an empty packet with its SOP length |
| `Tms570TxLists.FillKeeps` | rtemslwip/tms570/tms570_netif.c:648-663 | filling one more free descriptor extends the packet under construction by that piece and breaks nothing else |
| `Tms570TxLists.SealKeeps` | rtemslwip/tms570/tms570_netif.c:664-684 | EOP and a NULL next pointer turn the filled prefix into a complete packet, cut off from the rest of the inactive list |
| `Tms570TxLists.LinkKeeps` | rtemslwip/tms570/tms570_netif.c:686-700 | linking the sealed packet behind the active list keeps both lists, whatever the EMAC did meanwhile |
| `Tms570TxLists.LinkKeepsHw` | rtemslwip/tms570/tms570_netif.c:686-708 | the link leaves the EMAC invariant intact, needing a restart exactly when TXHDP is NULL |
| `Tms570TxLists.PushCovers` | rtemslwip/tms570/tms570_netif.c:681-684 | after a send every descriptor is still accounted for by one of the lists |
| `Tms570TxLists.PushFills` | rtemslwip/tms570/tms570_netif.c:634-686 | the descriptors of a packet just queued are the first free ones in order, filled piece by piece, with the frame length on the first |
| `Tms570TxLists.PopCovers` | rtemslwip/tms570/tms570_netif.c:893-914 | after a completion every descriptor is still accounted for by one of the lists |
| `Tms570TxLists.ReturnKeepsPackets` | rtemslwip/tms570/tms570_netif.c:888-914 | taking the first packet off leaves the other packets framed, linked and filled as they were |
| `Tms570TxLists.ReturnKeepsFree` | rtemslwip/tms570/tms570_netif.c:893-914 | its descriptors join the end of the inactive list in order, without SOP or EOP marks |
| `Tms570TxLists.ReturnKeepsHw` | rtemslwip/tms570/tms570_netif.c:877-914 | returning a handed-back packet is invisible to the EMAC |
| `Tms570TxLists.RefsPush` | rtemslwip/tms570/tms570_netif.c:586-593 | references of every pbuf = references held elsewhere + its packets on the active list, kept by a successful send |
| `Tms570TxLists.RefsPop` | rtemslwip/tms570/tms570_netif.c:920-924 | the same equation, kept by the release at completion |
| `Tms570TxLists.QueuedAt` | rtemslwip/tms570/tms570_netif.c:586-593 | the packets counted in that equation are those on the active list, one pbuf each, in order |
| `Tms570TxLists.LengthsAddUp` | rtemslwip/tms570/tms570_netif.c:634-680 | descriptor lengths add up to the SOP length max(60, tot_len) (section 4.2.3.3 of IEEE 802.3) if and only if tot_len is the sum of the payload lengths |
| `Tms570Tx.TxChannel.Send` | rtemslwip/tms570/tms570_netif.c:566-606 | success if and only if the descriptors suffice; on failure lists and reference counts are as before, on success the packet is appended with one reference; lists and counts hold even under an EMAC that writes OWNER, EOQ and TXHDP at will; the EMAC invariant holds unless the previous tail had a left-over EOQ, and when the new tail has one is stated; the packet is the next free descriptors in order: number j has the payload pointer and length of pbuf j, exactly below 60 bytes one more has the missing bytes from the start of the first payload, all name the pbuf as owner, and the first has the frame length, at least 60 |
| `Tms570Tx.TxChannel.SendRaw` | rtemslwip/tms570/tms570_netif.c:611-715 | as above for the reference the caller took: kept on success, dropped on failure |
| `Tms570Tx.TxChannel.FillSegs` | rtemslwip/tms570/tms570_netif.c:648-663 | the loop over the chain fills one descriptor per pbuf: free descriptor j gets the payload pointer and length of pbuf j and the owner; it fails exactly if the inactive list is too short, in every interleaving |
| `Tms570Tx.TxChannel.BuildPacket` | rtemslwip/tms570/tms570_netif.c:623-686 | payloads plus the padding piece fill the first free descriptors; its last one shows EOQ exactly if it was left over |
| `Tms570Tx.TxChannel.LinkPacket` | rtemslwip/tms570/tms570_netif.c:688-710 | the packet joins the active list; the EMAC is restarted exactly when it had halted, unless the old tail had a stale EOQ, and then TXHDP names a packet already sent |
| `Tms570Tx.TxChannel.CheckEoq` | rtemslwip/tms570/tms570_netif.c:702-707 | with the EMAC running between the link and the EOQ test, the test decides correctly if the EOQ bit was set by the EMAC, and leads to a resend if it was left over |
| `Tms570Tx.TxChannel.SetHdp` | rtemslwip/tms570/tms570_netif.c:994-1010 | the wait for TXHDP ends, with the EMAC halted, and the head pointer is the one given |
| `Tms570Tx.TxChannel.ProcessIrqTx` | rtemslwip/tms570/tms570_netif.c:858-932 | a completion pass returns exactly the packets handed back, in order, up to the first EMAC-owned one, releases each pbuf once and keeps the whole invariant |
| `Tms570Tx.TxChannel.FindEop` | rtemslwip/tms570/tms570_netif.c:885-887 | the EOP search ends on the last descriptor of its own packet |
| `Tms570Tx.TxChannel.Reclaim` | rtemslwip/tms570/tms570_netif.c:889-924 | one packet moves from the active to the inactive list and exactly one reference to its pbuf goes |
| `Tms570Tx.TxChannel.Run` | rtemslwip/tms570/tms570_netif.c:566-932 | over any run of sends, completions and reference traffic: the packets queued are exactly those of the sends answered ERR_OK, in order; a send is answered so exactly if the descriptors idle at that moment suffice; and whenever the EMAC is halted the wire is exactly the frames queued; the run stops early only before a packet that would end in a left-over EOQ; a send answered ERR_OK is the frame on the wire with its number among the accepted ones, and that frame is the payloads of its chain, pointer and length, in order, with the padding piece behind a short one |
| `Tms570Tx.LeftoverEoqReached` | rtemslwip/tms570/tms570_netif.c:640-680 | a packet of two descriptors, one of one, and the packet of two again on a clean channel of three leave a queued packet with an EOQ bit the EMAC did not set for it, and one descriptor free |
| `Tms570Tx.ResendReached` | rtemslwip/tms570/tms570_netif.c:702-707 | the next send then restarts the EMAC at a packet already transmitted: the wire is all frames sent, followed by the last one once more |
| `Tms570Tx.TxChannel.DrainResent` | rtemslwip/tms570/tms570_netif.c:702-707 | from every state with a resend the EMAC puts the last frame on the wire a second time and halts |
| `Tms570Tx.Cycle` | rtemslwip/tms570/tms570_netif.c:566-932 | sending, transmitting and completing a packet moves its descriptors to the end of the inactive list, the last one with EOQ set, and leaves the EOQ bits of the others |
| `Tms570RxLists.MoveKeeps` | rtemslwip/tms570/tms570_netif.c:816-825 | moving any nonempty prefix between the two receive lists keeps both linked in order |
| `Tms570RxLists.MoveCovers` | rtemslwip/tms570/tms570_netif.c:1084-1099 | and keeps every descriptor on exactly one of them |
| `Tms570RxLists.WriteKeeps` | rtemslwip/tms570/tms570_netif.c:780-812 | an EMAC write into a descriptor of its queue leaves every frame already handed back as it was |
| `Tms570RxLists.HandBackKeeps` | rtemslwip/tms570/tms570_netif.c:762-763 | handing back a finished frame appends it to the frames that wait on the active list, in order and unchanged |
| `Tms570RxLists.TakeKeeps` | rtemslwip/tms570/tms570_netif.c:816-825 | taking the frame at the head leaves exactly the later frames waiting |
| `Tms570RxLists.AttachEmac` | rtemslwip/tms570/tms570_netif.c:1062-1078 | a refill adds its descriptors to the end of the EMAC's queue and disturbs no waiting frame |
| `Tms570RxLists.HeadSays` | rtemslwip/tms570/tms570_netif.c:762-763 | the descriptor at the head has SOP and no OWNER exactly if a frame waits, and OWNER otherwise |
| `Tms570RxLists.MixKeeps` | rtemslwip/tms570/tms570_netif.c:780-812 | the chain assembled so far stays right whatever the EMAC writes between two descriptors |
| `Tms570RxLists.WholeFrame` | rtemslwip/tms570/tms570_netif.c:794-806 | reading up to the first EOP reads exactly the frame that was handed back, and never runs off the list |
| `Tms570RxLists.AssembleNext` | rtemslwip/tms570/tms570_netif.c:780-812 | stamping one more pbuf extends the chain in descriptor order and leaves all other pbufs alone |
| `Tms570RxLists.FrameTaken` | rtemslwip/tms570/tms570_netif.c:780-815 | the chain that the pass has assembled is a frame: SOP without OWNER first, EOP on the last descriptor only or corrupt, and the pbufs chained as `FrameLinks` says |
| `Tms570RxLists.FrameLinks` | rtemslwip/tms570/tms570_netif.c:780-815 | each pbuf of a delivered chain has the length of its descriptor and the next descriptor's pbuf, or NULL, as next; the first tot_len is the frame length in the first descriptor and each other one what the predecessor's len leaves, tot_len(j) = len(j) + tot_len(j + 1), in 16 bits |
| `Tms570RxLists.SuffixSums` | rtemslwip/tms570/tms570_netif.c:786-815 | in a delivered chain every tot_len is the sum of the len fields from its pbuf on if and only if all len fields add up to the length in the first descriptor |
| `Tms570RxLists.FrameBytes` | rtemslwip/tms570/tms570_netif.c:786-786 | what a frame adds to freed_pbuf_len is what the active list loses in capacity |
| `Tms570RxLists.AttachOwn` | rtemslwip/tms570/tms570_netif.c:1062-1078 | after a refill each active descriptor has its own pbuf and the capacities grew by the lengths hung on |
| `Tms570RxLists.HalveShrinks` | rtemslwip/tms570/tms570_netif.c:1043-1046 | for a request of at least two bytes the shifted value is a power of two, and the only one with 2h <= request < 4h, so requests strictly shrink |
| `Tms570RxLists.GivesUpExactly` | rtemslwip/tms570/tms570_netif.c:1043-1056 | a refused request ends the refill for lack of memory exactly if it is for 2 to 4095 bytes |
| `Tms570RxLists.PiecesAre` | lwip/src/core/pbuf.c:237-274 | the chain granted for a length has full pbufs of 1600 bytes and one last pbuf, together exactly the length |
| `Tms570RxLists.RequestExactly` | rtemslwip/tms570/tms570_netif.c:1034-1101 | the first request of a refill, when it is refused, and what follows it: nothing below 4096 bytes, else the power of two between a quarter and a half of it, cut to the missing bytes; a granted request is repeated with the bytes and descriptors it used up taken off, and nothing follows if they were all |
| `Tms570RxLists.OutcomeExactly` | rtemslwip/tms570/tms570_netif.c:1034-1101 | for every pattern of pool refusals a refill meets the undefined shift exactly if a one-byte request is refused, and gives up exactly if a refused request halves to at most one pool buffer; either is its last request |
| `Tms570RxLists.EvenNeverShifts` | rtemslwip/tms570/tms570_netif.c:1034-1101 | a refill of an even number of bytes makes only even requests, for every pattern of refusals, and so never meets the undefined shift |
| `Tms570RxLists.BookNext` | rtemslwip/tms570/tms570_netif.c:844-855 | the books of a pass: freed bytes, idle descriptors and pool after each frame and refill follow from the rounds before |
| `Tms570RxLists.StaleSplice` | rtemslwip/tms570/tms570_netif.c:816-825 | returning descriptors with inactive_tail on the last active one rotates the active list instead |
| `Tms570RxLists.PassNext` | rtemslwip/tms570/tms570_netif.c:762-855 | one more round keeps the log of a pass: the frames taken make up the descriptors taken, and are the frames handed back, in order |
| `Tms570RxLists.PassDelivers` | rtemslwip/tms570/tms570_netif.c:762-842 | with a well-behaved EMAC a pass delivers one pbuf per frame handed back, in order: the pbuf of its first descriptor |
| `Tms570RxLists.OneByteRefusedLater` | rtemslwip/tms570/tms570_netif.c:1054-1060 | the requests of a refill of 8193 bytes, an odd number, that ends in a refused one-byte request |
| `Tms570Rx.RxChannel.Happen` | rtemslwip/tms570/tms570_netif.c:762-763 | every EMAC step keeps the lists, the pbufs, the byte count, and the frames not in its queue, and does exactly its part: it writes its descriptor, or hands back the first k of its queue if they are a finished frame |
| `Tms570Rx.RxChannel.Assemble` | rtemslwip/tms570/tms570_netif.c:762-815 | with the EMAC running between the descriptors: the chain is the pbufs of the descriptors in order as the loop read them, ends in NULL, stops at the first EOP or, marked corrupt, at the end of the list, and is the frame handed back; every len is the length in its descriptor, the first tot_len is the frame length of the first descriptor, and each pbuf's tot_len is its len plus the next tot_len, in 16 bits |
| `Tms570Rx.RxChannel.ReceiveFrame` | rtemslwip/tms570/tms570_netif.c:762-825 | one frame: the chain as above, its descriptors appended to the inactive list, and freed_pbuf_len plus attached capacity unchanged |
| `Tms570Rx.RxChannel.HangChain` | rtemslwip/tms570/tms570_netif.c:1062-1078 | one pbuf per free descriptor until either runs out: each descriptor gets its pbuf, the pbuf's length and OWNER alone in its flags word; inactive_tail cleared exactly when the chain is longer |
| `Tms570Rx.RxChannel.Attach` | rtemslwip/tms570/tms570_netif.c:1061-1100 | lists and bytes kept; the four list pointers are right if and only if the chain was not exactly as long as the inactive list, else inactive_tail equals active_tail |
| `Tms570Rx.RxChannel.Refill` | rtemslwip/tms570/tms570_netif.c:1017-1102 | terminates for every pattern of pool refusals with the EMAC running, conserves bytes, makes exactly the requests that the freed bytes, idle descriptors and refusals determine, with the chains pbuf_alloc builds for them, leaves exactly the books these give, and states when it ends undefined, starved or in an exact fit, each as an equivalence; even byte counts stay even and exclude the first; starved exactly if a request for 2 to 4095 bytes was refused, undefined exactly if one for one byte was |
| `Tms570Rx.RxChannel.TakeAndRefill` | rtemslwip/tms570/tms570_netif.c:762-849 | the completed frame at the head is taken whole, handed to netif->input unless it is corrupt, and a refill with exactly the requests that the books then determine follows |
| `Tms570Rx.RxChannel.DetachAfterFit` | rtemslwip/tms570/tms570_netif.c:816-825 | after an exact fit the frame's descriptors go to the end of the active list, the inactive list stays empty, and a frame that was the whole list stays at the head |
| `Tms570Rx.RxChannel.constructor` | rtemslwip/tms570/tms570_netif.c:538-556 | a channel of n idle descriptors satisfies the invariant |
| `Tms570Rx.ExactFitReached` | rtemslwip/tms570/tms570_netif.c:1069-1075 | for every number of bytes there is a channel whose first grant leaves inactive_tail on an active descriptor |
| `Tms570Rx.ShiftReached` | rtemslwip/tms570/tms570_netif.c:1043-1046 | from an odd number of bytes: one byte to allocate and a refusal reach the undefined shift |
| `Tms570Rx.ShiftReachedLater` | rtemslwip/tms570/tms570_netif.c:1043-1060 | from an odd number of bytes: 8193 reach it after two grants |
| `Tms570Rx.NeverShifts` | rtemslwip/tms570/tms570_netif.c:539-539 | from the driver's initial byte count no pass of any run meets the undefined shift, for every pool, every EMAC and every number of descriptors |
| `Tms570Rx.RxChannel.ProcessIrqRx` | rtemslwip/tms570/tms570_netif.c:742-856 | with the EMAC running throughout, a receive pass on a nonempty list takes off exactly the frames the EMAC handed back, in order and once each, until at its last look none is left; each is a chain as above; those not corrupt are delivered in that order; after each a refill makes exactly the requests its books determine, the last one gives the outcome, and only it may end the pass; the list partition and the byte count are kept, the pass terminates, and the pointers are right exactly unless the last refill was an exact fit; an empty list is refilled once; under an EMAC that writes anything anywhere, lists, bytes, books and chains still hold |
| `Stm32Rx.OwnSplit` | rtemslwip/stm32h7/stm32h7_eth.c:976-987 | descriptor i is CPU-owned exactly if i lies in the cyclic segment from RxDescIdx to the DMA position, and the backup array names the buffer of every other one |
| `Stm32Rx.CompleteKeeps` | rtemslwip/stm32h7/stm32h7_eth.c:998-1005 | a DMA completion extends that segment by one and puts the frame into the buffer named by the backup array |
| `Stm32Rx.RearmKeeps` | rtemslwip/stm32h7/stm32h7_eth.c:1049-1075 | re-arming the oldest completed descriptor with an unattached buffer shortens it by one |
| `Stm32Rx.PoolEmptyExactly` | rtemslwip/stm32h7/stm32h7_eth.c:1655-1684 | the places of the P buffers add up to P, and the pool is empty exactly when stack and recycles have all that are not on descriptors |
| `Stm32Rx.LoseBuffer` | rtemslwip/stm32h7/stm32h7_eth.c:1003-1018 | a descriptor's buffer moves to the stack, or to the dropped ones, and to no other place |
| `Stm32Rx.GainBuffer` | rtemslwip/stm32h7/stm32h7_eth.c:1049-1053 | a free buffer moves to a descriptor and to no other place |
| `Stm32Rx.EthRx.LinkUp` | rtemslwip/stm32h7/stm32h7_eth.c:1528-1570 | with N <= P every descriptor gets a distinct buffer and belongs to the DMA; the invariant holds |
| `Stm32Rx.EthRx.RxAllocate` | rtemslwip/stm32h7/stm32h7_eth.c:1655-1684 | NULL and the error mark exactly when the pool is empty, else one buffer leaves the pool |
| `Stm32Rx.EthRx.PbufFreeCustom` | rtemslwip/stm32h7/stm32h7_eth.c:1216-1234 | the pool grows by exactly this buffer; the allocation-error mark is clear, and the semaphore is signalled exactly if it was set; ownership stays exclusive |
| `Stm32Rx.EthRx.FreeWakes` | rtemslwip/stm32h7/stm32h7_eth.c:1224-1232 | after an allocation has failed the first buffer freed by the stack signals the input thread, clears the mark and is the one buffer in the pool |
| `Stm32Rx.EthRx.GiveToStack` | rtemslwip/stm32h7/stm32h7_eth.c:1116-1124 | a frame that netif->input refuses goes back to the pool as by a free; one it takes stays with the stack |
| `Stm32Rx.EthRx.Recycle` | rtemslwip/stm32h7/stm32h7_eth.c:904-958 | a recycle delivers nothing, drops exactly the old buffer and keeps the ring; it fails only if stack and recycles have P - N buffers or more |
| `Stm32Rx.CompleteZeroCopy` | rtemslwip/stm32h7/stm32h7_eth.c:998-1018 | a DMA completion never writes into a buffer that the stack holds |
| `Stm32Rx.EthRx.TakeFrame` | rtemslwip/stm32h7/stm32h7_eth.c:998-1078 | the frame taken is the oldest undelivered one, with its own data still in its buffer, which passes to the stack; or the frame is too long and dropped |
| `Stm32Rx.EthRx.LowLevelInput` | rtemslwip/stm32h7/stm32h7_eth.c:968-1089 | returns the next single-descriptor frame; returns nothing with completed descriptors left exactly if the frame just taken had more than 1534 bytes, and otherwise with the next descriptor DMA-owned; fails to answer only if an allocation for a completed descriptor found the pool empty, with P - N or more buffers at the stack or lost |
| `Stm32Rx.EthRx.DryWithoutLosses` | rtemslwip/stm32h7/stm32h7_eth.c:1655-1684 | without recycles and frames that are too long an allocation fails only while the stack holds more than P - N buffers |
| `Stm32Rx.EthRx.InputLoop` | rtemslwip/stm32h7/stm32h7_eth.c:1112-1126 | empties the ring, or is cut short by a frame that is too long, and says which; delivered frames only ever grow in order; starvation is a failed allocation as above |
| `Stm32Rx.EthRx.InputThread` | rtemslwip/stm32h7/stm32h7_eth.c:1100-1130 | no lost wake-up: unless the last round was cut short by a frame that is too long, with the semaphore at zero the next descriptor is DMA-owned or an interrupt is pending or in its handler; a signalled round empties the ring or is cut short; with nothing left in the ring the delivered frames are exactly the completed single-descriptor frames that fit, in order and once each; buffers held by the stack keep their contents; starvation is a failed allocation as above |
| `Stm32Rx.SleepsOverAFrame` | rtemslwip/stm32h7/stm32h7_eth.c:1018-1078 | a frame too long and a good frame under one interrupt leave the thread waiting with the good frame in the ring, the semaphore at zero and nothing pending |
| `Stm32Rx.EthRx.Happen` | rtemslwip/stm32h7/stm32h7_eth.c:223-274 | a DMA completion, an interrupt entry, its signal or a free by the stack keeps ring, ownership, wake-up and the contents of held buffers, and each changes exactly its part: the wire and the pending interrupt, the handlers, the semaphore, or pool, mark and semaphore as a free does |
| `Stm32Tx.ConcatSnoc` | rtemslwip/stm32h7/stm32h7_eth.c:683-689 | one more payload appends its bytes to the flattened prefix |
| `Stm32Tx.TxPbuf.RemoveHeader` | rtemslwip/stm32h7/stm32h7_eth.c:678-680 | stripping takes exactly the two leading bytes of the chain, or nothing if the first pbuf is too short |
| `Stm32Tx.TxPbuf.AddHeader` | lwip/src/core/pbuf.c:478-532 | giving the two bytes back succeeds exactly if the data is contiguous with the pbuf and there is headroom |
| `Stm32Tx.SentSame` | rtemslwip/stm32h7/stm32h7_eth.c:784-790 | a send gives the chain back unchanged if and only if its head is restorable |
| `Stm32Tx.FrameIs` | rtemslwip/stm32h7/stm32h7_eth.c:678-742 | the frame of a chain, byte by byte: what follows the two pad bytes in the first pbuf, the other payloads, and zeros up to 60 |
| `Stm32Tx.ReplyIs` | rtemslwip/stm32h7/stm32h7_eth.c:666-782 | a send of a run is refused exactly above 1536 bytes and otherwise answered ERR_OK exactly if the DMA steps at one of the first 9999 polls |
| `Stm32Tx.ReferenceLoses` | lwip/src/core/pbuf.c:513-521 | a PBUF_REF or PBUF_ROM head loses its first two bytes |
| `Stm32Tx.ShortGains` | lwip/src/core/pbuf.c:501-511 | a contiguous head of one byte with headroom gains two bytes |
| `Stm32Tx.EthTx.Flatten` | rtemslwip/stm32h7/stm32h7_eth.c:682-689 | the bounce buffer starts with the concatenated payloads, and the write races with the DMA exactly if some descriptor is DMA-owned |
| `Stm32Tx.EthTx.PadFrame` | rtemslwip/stm32h7/stm32h7_eth.c:736-742 | bytes from the end of a frame shorter than 60 up to 60 are zero, and the frame itself is unchanged |
| `Stm32Tx.InTime` | rtemslwip/stm32h7/stm32h7_eth.c:763-776 | with one descriptor in flight n polls suffice exactly if the DMA steps within the first n - 1 |
| `Stm32Tx.EthTx.Poll` | rtemslwip/stm32h7/stm32h7_eth.c:720-732 | the wait ends at the first poll that finds the descriptor free, or after the given number |
| `Stm32Tx.EthTx.SendBounce` | rtemslwip/stm32h7/stm32h7_eth.c:713-782 | setup is reached exactly if the descriptor is free within the first 1000 polls, and then the bounce buffer holds the padded bytes on every path; ERR_OK exactly if the DMA completes in fewer than 10000 polls after that; from a quiet ring the bytes are on the wire exactly once and the ring is quiet again |
| `Stm32Tx.EthTx.LowLevelOutput` | rtemslwip/stm32h7/stm32h7_eth.c:658-794 | ERR_BUF exactly above 1536 bytes; once the descriptor is set up the bounce buffer holds the payloads minus pad bytes, zero-filled; when setup and when ERR_OK are reached, exactly; from a quiet ring the frame goes onto the wire once; reference count restored on every exit, the chain restored if and only if its head is restorable; a race exactly if a descriptor was DMA-owned at the call; the set-up buffer is stated byte by byte |
| `Stm32Tx.EthTx.SendAll` | rtemslwip/stm32h7/stm32h7_eth.c:658-794 | in any run the answers are those that the sizes and the DMA's steps determine, and the run stops only at a timeout; without one all fitting frames are on the wire in order, with one all earlier frames are; the bounce buffer is never written while the DMA owns a descriptor; restorable chains are sent and left as given however often they are sent, others the first time |
| `Stm32Tx.LateCompletion` | rtemslwip/stm32h7/stm32h7_eth.c:763-776 | a completion at the 10000th poll is reported as ERR_TIMEOUT with the frame on the wire |
| `Mailbox.StepKeeps` | rtemslwip/common/sys_arch.c:187-258 | every kernel call of any thread keeps semaphore count + queue length + threads inside an operation = size, loses and reorders nothing, and never meets a full queue |
| `Mailbox.NeverFull` | rtemslwip/common/sys_arch.c:202-203 | a thread that holds a slot finds room in the queue |
| `Mailbox.MailboxSafe` | rtemslwip/common/sys_arch.c:152-258 | from a mailbox with all slots free, an empty queue and no thread inside, over every interleaving the slots add up, and each sender's messages are fetched or still queued, in the order it posted them |
| `Mailbox.TryPostExact` | rtemslwip/common/sys_arch.c:193-205 | in every reachable state trypost gives ERR_MEM if and only if every slot is taken |
| `Mailbox.StepRefinesFifo` | rtemslwip/common/sys_arch.c:187-258 | every step is one step of a bounded FIFO: the queue send is the enqueue, the receive the dequeue |
| `Mailbox.RunKeeps` | rtemslwip/common/sys_arch.c:187-258 | the invariant over every run |
| `Mailbox.RunSnoc` | rtemslwip/common/sys_arch.c:187-258 | a run is its kernel calls one after the other, each on the state the one before left |
| `Mailbox.NoLostSlot` | rtemslwip/common/sys_arch.c:187-258 | a post that finds no slot has a queued message or an active thread to wait for |
| `Mailbox.SysMbox.TryPost` | rtemslwip/common/sys_arch.c:193-205 | ERR_MEM with nothing changed exactly if every slot was taken; else the message enters behind everything queued, whatever other threads did between the two calls |
| `Mailbox.SysMbox.TryFetch` | rtemslwip/common/sys_arch.c:240-258 | the oldest message, or none exactly if the queue was empty |
| `Netconn.Netconn.RecvData` | lwip/src/api/api_lib.c:578-673 | takes and hands out exactly the oldest message, or nothing with the reason; a call that keeps waiting waits on an empty mailbox of a connection that has not broken or whose error message is about to be posted, in every interleaving with the TCP/IP thread; a segment comes out with ERR_OK, the FIN marker as ERR_OK without a buffer, the abort marker as ERR_ABRT and the reset marker as ERR_RST |
| `Netconn.Netconn.RecvDataTcp` | lwip/src/api/api_lib.c:702-769 | over any run everything fetched has been reported in order except at most one trailing FIN; a pending FIN is what the next call on a valid mailbox reports, without fetching; ERR_WOULDBLOCK, ERR_CONN and the stored error are returned exactly for their reasons; window credit is returned once per fetched message: the length of a segment, one for a FIN, none for an error |
| `Netconn.ErrorsAccountedFor` | lwip/src/api/api_lib.c:1138-1151 | over any run an error that is no message is the one err_tcp stored, and it is handed out at most once |
| `Netconn.Netconn.HandleFin` | lwip/src/api/api_lib.c:751-766 | a FIN shows as ERR_CLSD with the mailbox closed, or as the pending error or ERR_RST once the pcb is gone |
| `Netconn.Netconn.Await` | lwip/src/api/api_lib.c:613-622 | the blocking fetch ends with a message, or waits on a connection that has not broken or owes its error message |
| `Netconn.Netconn.Deliver` | lwip/src/api/api_msg.c:300-478 | the TCP/IP thread adds to the end of the mailbox only; err_tcp is two steps, its flags and its post, and a reader may run in between; abort, reset and close are stored as ERR_ABRT, ERR_RST and ERR_CLSD |
| `Netconn.DataVisible` | lwip/src/api/api_lib.c:636-671 | the buffers callers saw are exactly the data messages reported, in order |
| `Netconn.NothingLost` | lwip/src/api/api_lib.c:702-769 | data seen by callers, then data drained by closing, then data still queued, is exactly the data accepted, in order |
| `SelectFds.ToLwip` | rtemslwip/common/rtems_lwip_io.c:472-500 | fails exactly if a requested descriptor below the bound is outside the table or its entry is no socket; else the mapped set holds exactly the sockets in the entries of the requested descriptors, and the bound is the least valid one |
| `SelectFds.Translated` | rtemslwip/common/rtems_lwip_io.c:96-132 | the socket of a descriptor is the one in its table entry; translation of a set fails and succeeds accordingly |
| `SelectFds.FromLwip` | rtemslwip/common/rtems_lwip_io.c:502-529 | the caller's set becomes exactly the requested descriptors below the bound whose table entry is a socket that stayed set |
| `SelectFds.Select` | rtemslwip/common/rtems_lwip_io.c:531-571 | ENOSYS with the sets untouched exactly if some descriptor is not a socket; lwip_select sees exactly the images and the least bound; each set, even if passed in several roles, ends with exactly the members kept in every role, and as many as lwIP's if the map is injective |
| `SelectFds.ImageCount` | rtemslwip/common/rtems_lwip_io.c:472-500 | translation never adds members and keeps their number on distinct sockets |
| `SelectFds.SameCount` | rtemslwip/common/rtems_lwip_io.c:502-529 | on distinct sockets the remaining descriptors correspond one to one to the remaining lwIP sockets |
| `SelectFds.CountNeedsInjective` | rtemslwip/common/rtems_lwip_io.c:531-571 | the counts agree for every answer if and only if the requested descriptors name distinct sockets |
| `SelectFds.MiscountReached` | rtemslwip/common/rtems_lwip_io.c:531-571 | two descriptors on one socket leave the caller with two members and lwip_select with one |
| `SelectFds.UndefinedReached` | rtemslwip/common/rtems_lwip_io.c:519-523 | a descriptor closed during the wait makes the code test a set at a negative index |
| `PageTable.MasterTable.constructor` | cpsw/src/netif/mmu.c:92-96 | all 4096 entries are fault entries |
| `PageTable.MasterTable.Map` | cpsw/src/netif/mmu.c:132-162 | exactly the region's entries are rewritten and all others unchanged; the table always equals the history of mapped regions |
| `PageTable.LastRegionWins` | cpsw/src/netif/mmu.c:132-162 | after any sequence of regions an entry shows the last region that covers it |
| `PageTable.UncoveredFaults` | cpsw/src/netif/mmu.c:92-96 | an entry that no region covers is zero, and the walk ends there without access |
| `PageTable.IdentityMap` | cpsw/src/netif/mmu.c:132-162 | under the table walk of section B3.5.1 of ARM DDI 0406C a covered address translates to itself, with the OR of the access, memory and security words of the last region covering it, if and only if that OR leaves the start address, bit 0 and bit 18 alone |
| `PageTable.NotPlainReached` | cpsw/src/netif/mmu.c:146-162 | attribute bit 18 gives a supersection, and attribute bit 20 maps the first megabyte to the second |
| `PageTable.HeaderValuesArePlain` | cpsw/src/include/mmu.h:73-167 | every region described with the memory type, cache, access and security values of the header is plain |
| `PageTable.FieldsArePlain` | cpsw/src/include/mmu.h:73-167 | attribute fields below bit 20 that leave bits 0 and 18 clear are plain |
| `IfAddrs.Heap.CreateFromNetif` | rtemslwip/bsd_compat/ifaddrs.c:31-57 | a full node of four separate blocks on top of the old heap, or NULL with the heap as before; NULL exactly if some request was refused |
| `IfAddrs.Heap.GetIfAddrs` | rtemslwip/bsd_compat/ifaddrs.c:77-98 | for every pattern of refusals: -1, NULL, ENOMEM and the heap as before, or 0 and a list with one full node per interface, node k naming interface |netifs| - 1 - k, linked to NULL, no node twice, separate from everything that was live |
| `IfAddrs.Heap.FreeIfAddrs` | rtemslwip/bsd_compat/ifaddrs.c:100-111 | frees exactly the blocks of the list, each once and only live ones, which restores the heap from before getifaddrs |
| `IfAddrs.Prepend` | rtemslwip/bsd_compat/ifaddrs.c:93-94 | hanging the list behind a freshly built node gives a list again |
| `IfAddrs.ChainListed` | rtemslwip/bsd_compat/ifaddrs.c:84-95 | the nodes of a list can be read off the heap itself: following next from its head meets its names in order, each node once, and ends at NULL |
| `IfAddrs.BaseKept` | rtemslwip/bsd_compat/ifaddrs.c:77-98 | blocks that were live before the call are live and unchanged while the list exists |
| `IfAddrs.BlockCount` | rtemslwip/bsd_compat/ifaddrs.c:77-98 | a successful call holds exactly four blocks per interface |
| `RxLink.Frame.RxLink` | incoming/ethernetif.c:1021-1053 | the chain lists the buffers in call order, the end pointer is the last one, and every tot_len is the length of the rest of the chain modulo 65536; the new pbuf has the given length in len and tot_len, and every earlier tot_len grows by it |
| `RxLink.Frame.AddToAll` | incoming/ethernetif.c:1044-1047 | the walk reaches every pbuf of the chain once and adds the length to it |
| `RxLink.RestSnoc` | incoming/ethernetif.c:1042-1047 | appending a buffer adds its length to every suffix sum |
| `RxLink.TotalsExact` | incoming/ethernetif.c:1021-1053 | every tot_len is the true suffix sum if and only if the frame is at most 65535 bytes |

## Left out

- TMS570 descriptor initialisation: the models start from well-formed lists; the transmit init loop (rtemslwip/tms570/tms570_netif.c:528-535) leaves `inactive_tail` on the second-last descriptor.
- TMS570 RXHDP writes and the restart after EOQ on receive: the EMAC's queue is the descriptors it was given, in order, however it learns of them. The EMAC steps fall between the descriptors of a frame, between frames and between requests of a refill.
- EMAC interleaving on transmit: the EMAC runs at the points where both sides can touch the same descriptor or register; between them the driver only touches descriptors that the EMAC neither reads nor writes. Send and completion exclude each other, as the critical section and the TCP/IP thread ensure.
- Tms570Tx.TxChannel.Run: ends before a packet that would end in a left-over EOQ bit; after a resend (`Resent`) nothing further about the EMAC is claimed, while the lists and reference counts still hold.
- Tms570Rx.RxChannel.ProcessIrqRx: returns after an exact-fit refill, where the C code goes on with a stale `inactive_tail`, and after the undefined shift; nothing is claimed beyond those points. `freed_pbuf_len` is a mathematical integer. What a rogue EMAC rewrites behind the driver's reading is stated only as read.
- Tms570Rx.RxChannel.Refill: the pool grants or refuses each request in an arbitrary pattern; only the GNU branch of the halving is modelled, and the pool buffer size is that of lwipopts.h.
- Stm32Rx.EthRx.LowLevelInput: ends with `Starved` when a descriptor gets no buffer, where the C code retries a recycle without end or leaves the descriptor behind; beyond that point only the wake-up by the next free is claimed (`FreeWakes`).
- Mailbox: blocking post and fetch are the same kernel calls as trypost and tryfetch, taken when they can succeed; timeouts, deletion and the failure of creation are not modelled.
- Netconn.Netconn.RecvDataTcp: configured with the defaults of opt.h, that is without full duplex, receive timeouts and receive-buffer limits; `netconn_close_shutdown` either refuses or drains the mailbox; readers call one at a time; tcp callbacks come only while there is a pcb.
- SelectFds.Select: an fd_set is its set of members, without the word layout and FD_SETSIZE; errno beyond ENOSYS and the timeout are not modelled.
- Page table: supersections, CP15 registers, cache and TLB maintenance.
- IfAddrs: contents of addresses and flags.
- The STM32 copy of HAL_ETH_RxLinkCallback, ethernetif_rebuild_rx_descriptors (unused), HAL, PHY, clock, GPIO, MPU and cache code.
- cpsw.c, mdio.c, phy drivers, thin socket wrappers, netdb, syslog, network_compat, start-up code and build scripts: single register accesses, calls passed through, configuration.
