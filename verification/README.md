# Verified models of VyroOS

VyroOS carries its own transport protocol, arithmetic, allocators and storage code, with no
libraries below them. This project models the parts of its kernel whose correctness rests on
invariants across many functions, and proves them for all inputs and all runs.

Each core file is modelled twice. A specification on values says what an operation does to the
abstract state; lemmas prove what that means over whole runs. A class or a method on arrays does
the work in place, with the source's loops, words and branches, and is proved to refine the
specification. Machine words are bounded integers (`Words.dfy`): every wrap, truncating cast,
shift and mask is written out, and the bit operations are defined bit by bit.

| files | kernel source | main results |
|---|---|---|
| `TcpSpec.dfy`, `Tcp.dfy`, `TcpEffects.dfy`, `TcpNet.dfy`, `TcpSafety.dfy`, `TcpProgress.dfy` | tcp.c | stream and window safety of two ends over a lossy, duplicating, reordering network, on which nothing gets stuck; handshake; the SYN budget and when it ends |
| `BigNat.dfy`, `Bignum.dfy`, `Rsa.dfy`, `DigestInfo.dfy` | bignum.c, bignum_4k.c, rsa.c | exact modular exponentiation in any number of limbs; RSA verification accepts exactly the valid signatures |
| `EcAlgebra.dfy`, `EcCurve.dfy`, `EcGroup.dfy`, `Ecdsa.dfy`, `P256Domain.dfy`, `EcdsaVerify.dfy` | ecdsa.c | the Jacobian formulas stay on the curve, are tangent and chord, and compute the multiple; what verification accepts |
| `LittleEndian.dfy`, `X25519Field.dfy`, `X25519Bytes.dfy`, `X25519Spec.dfy`, `X25519.dfy`, `X25519Curve.dfy` | x25519.c | the function X25519 of RFC 7748 for every input, with every limb in bounds; the ladder is the curve's multiple |
| `Poly1305Limbs.dfy`, `Poly1305Spec.dfy`, `Poly1305.dfy`, `Poly1305Vector.dfy` | poly1305.c | the tag of RFC 8439 for every key and message |
| `HeapSpec.dfy`, `HeapGrants.dfy`, `HeapImpl.dfy`, `PmmSpec.dfy`, `Pmm.dfy` | heap.c, pmm.c | tiling, disjoint payloads, conservation, a layout that depends only on what is held; the page map is the firmware map, with the exact condition |
| `FatTable.dfy`, `FatChain.dfy`, `FatData.dfy`, `FatLayout.dfy`, `Fat32.dfy` | fat32.c | a file written reads back and disturbs no other; a full volume is left byte for byte as it was |
| `LbaXlateSpec.dfy`, `LbaXlate.dfy`, `NetIoSpec.dfy`, `NetIo.dfy` | lba_xlate.c, net_io.c | both translation paths are a flat array of sectors; the receive ring under every interleaving |
| `TlsHello.dfy`, `TlsParse.dfy`, `TlsBuild.dfy` | tls.c | which byte strings the hello parsers accept; hello messages are read back as they were built |

`dafny verify dfyconfig.toml` checks the whole project.

## What the models take as given

- Two TCP ends run one incarnation of one connection, both running this code; each writes fewer
  than 2^31 bytes over a run; the clock is an input of each event, any value at all.
- A sector operation succeeds exactly on sectors the device has and reports success as nonzero:
  the convention of fat32.c (kernel/fat32.c:30, 325) and kernel/block.c:118-122. kernel/ata.c:77
  returns 0 for success instead, so over that driver every read would count as failed.
- A FAT32 volume has at least one table, cluster numbers that fit an entry and sector numbers
  that fit 32 bits (`FatTable.GeoOk`); fat32_mount itself checks only part of this.
- The receive handler is atomic with respect to the poller, because it runs in the interrupt.
- Where an inverse is wanted of a power z^(p - 2), Fermat's identity for that z is a hypothesis
  of the lemma; no primality is used anywhere.

## Where the code falls short of the ideal

Each of these is proved with the exact condition under which it happens.

- `bn_modexp` returns 1 for exponent 0 even when the modulus is 1 (`Bignum.ModExpExact`); RSA
  verification is not affected (`Rsa.AcceptsIffCongruent`).
- `kmalloc` of one of the last seven 64-bit sizes rounds up to 0 and grants too little
  (`HeapSpec.GrantCoversIff`).
- A second `poly1305_update` that does not fill a partly filled buffer loses the bytes in it
  (`Poly1305.UpdateKeepsAllIff`); `poly1305_mac` makes one call and is exact for every message.
- `fat32_write_file` returns the length as a signed number, so it reports failure for every file of
  2^31 bytes or more even when all of it is stored (`Fat32.StoredReportsFailureIff`); it reserves
  too few clusters only for lengths among these (`FatData.ClustersCoverIff`).
- When there is space but the last sector the data needs lies past the end of the device, the new
  chain stays allocated: the exact condition on the disk before the call is `Fat32.RunsOff`
  (`Fat32.Volume.WriteFile`), and `Fat32.WriteRunsOff` is a disk where it holds.
- `mark_range` keeps page numbers in 32 bits. `PmmSpec.MarksExactlyIff` says for which ranges it
  touches exactly the right pages: all that end at most at 2^44 (`PmmSpec.LowRangesFit`) and some
  beyond (`PmmSpec.HighRangeWraps`).
- `pmm_free_page` cuts the address to 32 bits; past 4 GiB it can free a page the address does not
  lie in (`Pmm.FreesItsPageIff`).
- `kfree` of an address that was never granted, when the bytes before it look like a live header,
  takes their size off bytes_used (`HeapImpl.Heap.Kfree`).
- The round-trip estimates of TCP wrap when a sum passes 32 bits (`TcpSpec.RttEstimatesIff`), never
  for samples below 2^29 ms (`TcpSpec.RttStaysInRange`).
- Bytes queued in millisecond 0 of the clock are not timed, because 0 also stands for no time
  (`TcpEffects.TimeoutEffect`).
- A failed unaligned write has already written the sectors before the end of the device
  (`LbaXlate.Slot.Write`).
- The client hello parser never returns on some hellos (`TlsHello.ParseHangsIff`,
  `TlsHello.HangingHello`).
- The size checks of the hello builders cover host names of at most 94 bytes and session ids of at
  most 105 (`TlsBuild.ClientFitsIff`, `TlsBuild.ServerFitsIff`).

## Model

| member | source | states |
|---|---|---|
| TcpSafety.StreamSafety | kernel/tcp.c:116-167 | On every run of two ends over a network that loses, duplicates and reorders segments, and however reads, writes and timer ticks interleave, what one application has read followed by what waits in its receive buffer is a prefix of what the other wrote, and in ESTABLISHED rcv_nxt is the peer's initial number + 1 + that length modulo 2^32 |
| TcpSafety.WindowSafety | kernel/tcp.c:133-154 | In every reachable ESTABLISHED state: cwnd >= MSS, min(snd_len, MSS) <= snd_nxt - snd_una <= snd_len, snd_una <= peer rcv_nxt <= snd_nxt, the RTO stays within its bounds, and every segment the timer or the third duplicate acknowledgement resends is bytes of the stream before snd_nxt |
| TcpSafety.HandshakeAgreement | kernel/tcp.c:459-534 | The accepting end is up only if the connecting end is; when both are ESTABLISHED each receive sequence started at the other's initial number plus one |
| TcpSafety.SynSentAtMostFourTimes | kernel/tcp.c:342-375 | On every run the SYN leaves the connecting end at most 1 + SYN_RETRY_MAX times |
| TcpSafety.SynGivesUp | kernel/tcp.c:668-680 | Under timer ticks at any times an unanswered attempt is still SYN_SENT or is CLOSED, the SYNs sent are the retries spent, and CLOSED comes only after the third retry |
| TcpSafety.SynClosedIff | kernel/tcp.c:668-680 | It is closed if and only if as many late ticks came (1000 << retries ms or more after the last SYN) as retries were left, and one more, whatever early ticks came between; then every retry was one SYN |
| TcpSafety.SynReachesClosed | kernel/tcp.c:342-375 | From tcp_connect on, ticks 1, 3, 7 and 15 seconds later resend the SYN exactly three times and then close the block |
| TcpNet.Reachable | kernel/tcp.c:437-660 | The inductive invariant (send buffer = unacknowledged tail of the stream, parked segment = a piece of the stream, every segment in the network right for its stream position) holds in every reachable state |
| TcpNet.StepInv | kernel/tcp.c:437-715 | Every single event (delivery of any segment in the network, application read or write, tick) keeps the invariant |
| TcpNet.TryEmitOk | kernel/tcp.c:133-154 | try_emit keeps the send buffer consistent and leaves min(snd_len, MSS) in flight |
| TcpNet.TryEmitOut | kernel/tcp.c:143-153 | Every segment try_emit sends is the piece of the stream its sequence number says, before the new snd_nxt |
| TcpNet.RtoOut | kernel/tcp.c:690-700 | Every segment the retransmission loop sends is bytes of the stream before snd_nxt, and what it reads lies in the used part of the send buffer |
| TcpNet.DupOut | kernel/tcp.c:570-574 | Fast retransmit of min(snd_len, MSS) bytes never passes snd_nxt, because of what try_emit leaves in flight |
| TcpNet.AckedOk | kernel/tcp.c:538-551 | After an acknowledgement of new data the send buffer is still exactly the unacknowledged tail of the stream |
| TcpNet.DataStepOk | kernel/tcp.c:584-620 | In-order data, the parked segment behind it, and out-of-order data leave the receiver at a prefix of the stream (how much of it: TcpEffects.InOrderEffect) |
| TcpNet.TakeOooOk | kernel/tcp.c:596-604 | Taking the parked segment on equality of sequence numbers takes the next bytes of the stream |
| TcpNet.SynReceivedGood | kernel/tcp.c:508-516 | The accepting end comes up only on the acknowledgement of its own SYN |
| TcpNet.SynSentGood | kernel/tcp.c:518-534 | The connecting end comes up only on a SYN-ACK of its own SYN |
| TcpProgress.Transfer | kernel/tcp.c:116-167 | For every stream of fewer than 2^31 bytes there is a run from tcp_connect on after which the other application has read exactly that stream and nothing is left to send |
| TcpProgress.NothingIsStuck | kernel/tcp.c:584-712 | However a run went so far, whatever was lost: while both ends are ESTABLISHED and the timer is armed it can go on until one application has read all that the other wrote |
| TcpProgress.InOrderDelivered | kernel/tcp.c:584-606 | On every state of the network with nothing parked, segments that carry bytes from rcv_nxt on, delivered in order with room for them, leave the receive buffer with all of the bytes behind what waited |
| TcpProgress.ResentIsReceived | kernel/tcp.c:686-700 | What the expired timer resends, delivered in order with room, makes what was read and what waits exactly what was sent up to snd_nxt |
| TcpProgress.LinkedIn | kernel/tcp.c:133-167 | In every reachable state with both ends ESTABLISHED: queued bytes are the end of the stream, received ones a beginning of it that reaches to between snd_una and snd_nxt, rcv_nxt says how far, and something is in flight whenever something is queued |
| TcpProgress.HandshakeCompletes | kernel/tcp.c:342-534 | Three deliveries after tcp_connect both ends are ESTABLISHED, each with the other's initial number plus one, and empty |
| TcpEffects.InOrderEffect | kernel/tcp.c:584-605 | In bytes: a segment at rcv_nxt adds its first min(len, 1024 - waiting) bytes to the receive buffer, then as many of the parked ones if they start there, whose slot is emptied; rcv_nxt advances by as many and the acknowledgement carries it |
| TcpEffects.AheadEffect | kernel/tcp.c:606-615 | A segment ahead of rcv_nxt of at most 536 bytes is parked when the slot is free or holds a later one; it is answered with the number still wanted |
| TcpEffects.BehindEffect | kernel/tcp.c:616-619 | A segment behind rcv_nxt changes nothing received and is answered |
| TcpEffects.FinEffect | kernel/tcp.c:621-625 | A FIN ends the direction behind its own payload, whatever its number, and is acknowledged |
| TcpEffects.AckedEffect | kernel/tcp.c:538-560 | An acknowledgement of k queued bytes takes exactly these off the front, opens the window by 536 or by max(1, 536^2 / cwnd), and lets out what it then allows |
| TcpEffects.DuplicateEffect | kernel/tcp.c:561-582 | The third duplicate in a row resends the first min(queued, 536) bytes and sets cwnd and ssthresh to max(cwnd / 2, 1072) |
| TcpEffects.IgnoredEffect | kernel/tcp.c:538-583 | Any other acknowledgement changes nothing and sends nothing |
| TcpEffects.EmitEffect | kernel/tcp.c:133-154 | try_emit sends, 536 bytes to a segment, exactly the bytes from those in flight up to min(queued, cwnd), and moves snd_nxt behind them |
| TcpEffects.SendEffect | kernel/tcp.c:116-131 | tcp_send queues the first min(len, 1024 - queued) bytes behind the others and returns their number, -1 outside ESTABLISHED |
| TcpEffects.RecvEffect | kernel/tcp.c:156-167 | tcp_recv hands over the first min(waiting, max) bytes and keeps the others |
| TcpEffects.TimeoutEffect | kernel/tcp.c:686-712 | The timer fires iff something is queued and its timeout has passed; what it sends is, joined in order, everything in flight from snd_una on, and something whenever anything is in flight; cwnd becomes 536 and the timeout doubles up to 5000 ms |
| TcpEffects.CarriesJoined | kernel/tcp.c:690-700 | The payloads of segments that carry bytes in order are, joined, these bytes |
| TcpEffects.ConnectEffect | kernel/tcp.c:342-375 | tcp_connect: one SYN at the clock, empty buffers, a window of 536 bytes |
| TcpEffects.ListenEffect | kernel/tcp.c:459-499 | A listener answers a plain SYN with a child block and a SYN-ACK, anything else with a reset or, if it is one, nothing |
| TcpEffects.ClosedEffect | kernel/tcp.c:320-340 | A closed block refuses every segment with the reset the numbers call for; a reset closes any other |
| TcpEffects.SynSentEffect | kernel/tcp.c:518-534 | Only a SYN-ACK of its own SYN brings the connecting end up, with one acknowledgement; other SYNs reset the attempt |
| TcpEffects.SynReceivedEffect | kernel/tcp.c:508-516 | Only the acknowledgement of its SYN-ACK brings the accepting end up; a SYN has it repeated |
| Tcp.Tcb.Connect | kernel/tcp.c:342-375 | The block after tcp_connect, with its one SYN out |
| Tcp.Tcb.Accept | kernel/tcp.c:470-492 | The child block a listener sets up, with its SYN-ACK out |
| Tcp.Tcb.TryEmit | kernel/tcp.c:133-154 | In place, refines the specification TryEmit on the block and the segments sent |
| Tcp.Tcb.Send | kernel/tcp.c:116-131 | In place: takes as many bytes as fit, queues them behind the others, refines Send |
| Tcp.Tcb.Recv | kernel/tcp.c:156-167 | In place: hands over the first bytes received and moves the rest down, refines Recv |
| Tcp.Tcb.SlideSndWindow | kernel/tcp.c:169-179 | In place, for every count: that many bytes, or all there are, leave the front of the send buffer; none for 0 |
| Tcp.Tcb.TakeRttSample | kernel/tcp.c:410-428 | In place: the smoothed estimate, the deviation and the clamped RTO, with the 32-bit wrap of their sums |
| TcpSpec.RttSampleExact | kernel/tcp.c:410-428 | Where no 32-bit sum wraps, the new estimate lies between the old one and the sample, the deviation between the old one and their distance, and the RTO is the clamped srtt + 4 rttvar |
| TcpSpec.RttEstimatesIff | kernel/tcp.c:410-428 | srtt is (7 srtt + sample) / 8 iff that sum stays below 2^32, and rttvar is (3 rttvar + distance) / 4 iff its sum does |
| TcpSpec.RttStaysInRange | kernel/tcp.c:410-428 | Samples and estimates below 2^29 ms wrap nothing and leave estimates below 2^29 ms |
| Tcp.Tcb.TakeAck | kernel/tcp.c:538-583 | In place: new and duplicate acknowledgements, window growth, fast retransmit, refines AckStep |
| Tcp.Tcb.TakeData | kernel/tcp.c:584-620 | In place: in-order, parked and out-of-order data, refines DataStep, whose effect on bytes is TcpEffects.InOrderEffect, AheadEffect and BehindEffect |
| Tcp.Tcb.InSynReceived | kernel/tcp.c:508-516 | In place: the SYN_RECEIVED case, refines SynReceivedStep |
| Tcp.Tcb.InSynSent | kernel/tcp.c:518-534 | In place: the SYN_SENT case, refines SynSentStep |
| Tcp.Tcb.InEstablished | kernel/tcp.c:536-627 | In place: the ESTABLISHED case, refines EstablishedStep |
| Tcp.Tcb.Input | kernel/tcp.c:501-627 | In place: one segment for this block, refines Input |
| Tcp.Tcb.Tick | kernel/tcp.c:662-713 | In place: the SYN and retransmission timers, refines Tick; the loop reads the send buffer inside its used part |
| Bignum.IsZero | kernel/bignum.c:6-9 | True exactly for the number 0 |
| Bignum.Cmp | kernel/bignum.c:11-16 | The sign of the comparison of the two numbers |
| Bignum.FromBe | kernel/bignum.c:18-27 | The limbs hold the big-endian number modulo 2^(32 limbs) |
| Bignum.ToBe | kernel/bignum.c:29-36 | The buffer is the low out_len bytes of the number, most significant first |
| BigNat.BytesOfBeVal | kernel/bignum.c:18-36 | Writing the number a byte string encodes gives the string back |
| BigNat.BeValOfBytes | kernel/bignum.c:18-36 | Reading the n-byte encoding of v gives v modulo 256^n |
| Bignum.AddInPlace | kernel/bignum.c:38-46 | sum = r + b with the carry out, in place; no 64-bit overflow |
| Bignum.SubInPlace | kernel/bignum.c:48-56 | difference = r - b with the borrow out, in place |
| Bignum.AddMod | kernel/bignum.c:58-62 | One conditional subtraction in the width of the number |
| Bignum.AddModReduced | kernel/bignum.c:58-62 | For reduced operands that is addition modulo m |
| Bignum.AddModCong | kernel/bignum.c:58-62 | It is congruent to a + b whenever the sum exceeds the width by less than the modulus |
| Bignum.Mul2 | kernel/bignum.c:104-115 | The exact double-width product; no step of the schoolbook loop exceeds 64 bits |
| Bignum.LimbProductFits | kernel/bignum.c:109-111 | limb + limb * limb + carry fits in 64 bits |
| Bignum.ModBit | kernel/bignum.c:126-134 | One bit step keeps rem < m, using the bit shifted out and one subtraction |
| Bignum.Mod2 | kernel/bignum.c:117-138 | prod mod m for every nonzero m (m = 0 acts as the width of the number) |
| Bignum.MulMod | kernel/bignum.c:140-144 | a * b mod m, in place |
| Bignum.ModExp | kernel/bignum.c:150-174 | base^exp mod m by right-to-left squaring, result 1 when exp = 0 |
| Bignum.ModExpExact | kernel/bignum.c:150-174 | That is base^exp mod m if and only if not (exp = 0 and m = 1) |
| Rsa.CheckPadding | kernel/rsa.c:37-55 | The scan over the decrypted block accepts exactly the EMSA-PKCS1-v1_5 encoding of the hash (RFC 8017, section 9.2) |
| Rsa.Verify | kernel/rsa.c:12-56 | For any number of limbs: accepts if and only if the lengths fit, s < n, and the n_len-byte encoding of s^e mod n is the encoded hash (RFC 8017, section 8.2.2) |
| Rsa.AcceptsIffCongruent | kernel/rsa.c:26-55 | In numbers: accepted iff s < n and s^e is congruent modulo n to the encoded message |
| Rsa.Verify2k | kernel/rsa.c:12-56 | The verifier of moduli of up to 2048 bits: accepts exactly the valid signatures |
| Rsa.Verify4k | kernel/bignum_4k.c:120-149 | The verifier of moduli of up to 4096 bits: accepts exactly the valid signatures |
| Rsa.CopiesAgree | kernel/bignum_4k.c:120-149 | On every modulus and exponent both admit, the two copies give the same verdict |
| DigestInfo.PrefixMeans | kernel/rsa.c:5-10 | The fixed prefix and a hash are the DER encoding of the DigestInfo with algorithm 2.16.840.1.101.3.4.2.1, no parameters, and that hash |
| DigestInfo.EncodedMessage | kernel/rsa.c:37-55 | The encoded message is 00 01, at least eight bytes FF, 00, and that DigestInfo |
| Ecdsa.FSub | kernel/ecdsa.c:30-41 | Subtraction of residues modulo the P-256 prime |
| Ecdsa.FMulU32 | kernel/ecdsa.c:43-48 | Multiplication of a residue by a small constant |
| Ecdsa.MinusTwo | kernel/ecdsa.c:51-59 | m - 2 by a borrow that stops when it is paid |
| Ecdsa.FInv | kernel/ecdsa.c:50-61 | The power a^(m - 2) mod m |
| Ecdsa.PtDbl | kernel/ecdsa.c:72-112 | In place: the specification Dbl, with the infinity and order-two branch |
| Ecdsa.PtAdd | kernel/ecdsa.c:114-170 | In place: the specification Add, with its infinity, equal and opposite branches |
| Ecdsa.PtMul | kernel/ecdsa.c:181-198 | In place: double-and-add from the top bit is the specification Mul of the whole number k, modulo the prime of P256Domain.PrimeIs |
| Ecdsa.ToAffineX | kernel/ecdsa.c:172-179 | False exactly at infinity; otherwise X * (Z^(p - 2))^2 mod p |
| EcCurve.DblOnCurve | kernel/ecdsa.c:72-112 | Doubling keeps Y^2 = X^3 - 3XZ^4 + bZ^6, for every b, modulus and point |
| EcCurve.AddOnCurve | kernel/ecdsa.c:114-170 | Addition keeps the curve equation, in every branch |
| EcCurve.MulOnCurve | kernel/ecdsa.c:181-198 | So does every multiple |
| EcAlgebra.DoubleIdentity | kernel/ecdsa.c:78-109 | The curve equation of a double is 64 y^6 times that of the point, over the integers |
| EcGroup.DblStands | kernel/ecdsa.c:72-112 | pt_dbl is the affine tangent: for a point standing for (x, y) with 2y invertible, the result stands for the tangent's third point |
| EcGroup.AddStands | kernel/ecdsa.c:114-170 | pt_add is the affine chord for points whose x coordinates differ by something invertible, and then takes neither special branch |
| EcGroup.MulStands | kernel/ecdsa.c:181-198 | pt_mul computes the k-fold multiple, for every k whose double-and-add steps are such tangents and chords |
| EcGroup.AffineXOfMultiple | kernel/ecdsa.c:172-198 | pt_mul followed by pt_to_affine_x is the x coordinate of the multiple, where z^(p - 2) inverts z |
| Ecdsa.AffineOfMultiple | kernel/ecdsa.c:172-198 | The abscissa computed for a multiple of a curve point is that of a curve point, given Fermat's identity for its Z |
| P256Domain.PrimeIs | kernel/ecdsa.c:5-10 | The modulus all field and point operations load from the byte string is 2^256 - 2^224 + 2^192 + 2^96 - 1 |
| P256Domain.BaseOnCurve | kernel/ecdsa.c:17-28 | The base point lies on the curve with the coefficient b of FIPS 186-4, section D.1.2.3 |
| P256Domain.BaseTwice | kernel/ecdsa.c:72-112 | Twice the base point, in the Jacobian coordinates the code computes |
| EcdsaVerify.Verify | kernel/ecdsa.c:235-297 | From the numbers of the signature on: accepts iff 0 < r, s < n, R = u1 G + u2 Q as the code adds it up is not at infinity, and its abscissa modulo n is r |
| EcdsaVerify.ReduceLoop | kernel/ecdsa.c:252-261 | Subtracting the order while the number is not below it is reduction modulo the order |
| EcdsaVerify.ScalarsAreQuotients | kernel/ecdsa.c:263-270 | u1 s = h and u2 s = r modulo n, given Fermat's identity for s |
| EcdsaVerify.SumAbscissa | kernel/ecdsa.c:273-297 | The abscissa is that of the affine point u1 G + u2 Q, when the steps are proper tangents and chords and Fermat's identity holds for the last Z |
| EcdsaVerify.OrderIs | kernel/ecdsa.c:11-16 | The order is 2^256 - 2^224 + 2^192 - 89188191075325690597107910205041859247 |
| X25519Field.Add | kernel/x25519.c:10-12 | Sum of residues; tight limbs give limbs below 2^54 |
| X25519Field.Sub | kernel/x25519.c:14-23 | Difference of residues: adding 4p keeps every limb from going below zero and under 2^54 |
| X25519Bytes.Carry | kernel/x25519.c:25-33 | Same residue; one pass settles a tight element and a second leaves every limb below 2^51 |
| X25519Field.Mul | kernel/x25519.c:35-56 | Product modulo 2^255 - 19: inputs below 2^54, outputs below 2^51 + 2^13, no 64- or 128-bit overflow |
| X25519Field.ColumnsAreProduct | kernel/x25519.c:43-47 | The five columns are the product up to multiples of the prime |
| X25519Field.ColumnBounds | kernel/x25519.c:43-47 | Every column stays below 2^115 for inputs below 2^54 |
| X25519Field.Sq | kernel/x25519.c:58-58 | Square modulo the prime |
| X25519Field.Mul121665 | kernel/x25519.c:60-73 | Multiplication by 121665 modulo the prime, same bounds |
| X25519Bytes.FromBytes | kernel/x25519.c:75-97 | Limbs below 2^51 holding the little-endian number modulo 2^255 |
| X25519Bytes.ToBytes | kernel/x25519.c:99-128 | The little-endian encoding of the residue below 2^255 - 19, for every tight element |
| X25519Bytes.Reencode | kernel/x25519.c:75-128 | fe_to_bytes after fe_from_bytes is the number without its last bit modulo 2^255 - 19; a string that encodes a number below the prime comes back as it was |
| X25519Bytes.EncodingUnique | kernel/x25519.c:99-128 | A string that encodes the residue of v is the only one of 32 bytes below the prime that is congruent to v |
| X25519Bytes.Reduce | kernel/x25519.c:105-118 | The masked select is reduction modulo the prime |
| X25519Bytes.Pack | kernel/x25519.c:120-127 | Four 64-bit words carry all 255 bits although the shifts truncate |
| LittleEndian.LeUnique | kernel/x25519.c:99-128 | The encoding of a number in a given length is unique |
| X25519Field.CondSwap | kernel/x25519.c:130-137 | Exchanges the two elements exactly when swap is 1 |
| X25519.FeInv | kernel/x25519.c:139-162 | z^(p - 2): the squaring chain's exponent is exactly 2^255 - 21 |
| X25519.Chain | kernel/x25519.c:145-161 | From z^(2^m - 1) and z^(2^n - 1) to z^(2^(m + n) - 1) |
| X25519.Step | kernel/x25519.c:192-209 | One ladder step: doubling of the second point, differential addition into the third, with all limbs in bounds |
| X25519.BitStep | kernel/x25519.c:185-209 | With its deferred swap it is one bit of the plain ladder |
| X25519.LadderLoop | kernel/x25519.c:183-212 | All 255 iterations with deferred swaps give the ladder that branches on each bit |
| X25519Spec.DiffAddSymmetric | kernel/x25519.c:195-205 | Differential addition does not depend on the order of the points, which is why swaps can be put off |
| X25519Spec.PrimeIs | kernel/x25519.c:164-217 | The modulus of the field operations is 2^255 - 19 |
| X25519.ScalarBit | kernel/x25519.c:185-185 | The bit read from byte t >> 3 is bit t of the scalar |
| X25519.ClampedBytes | kernel/x25519.c:166-169 | The three masks put bits 3 to 253 of the scalar below bit 254 |
| X25519.X25519 | kernel/x25519.c:164-217 | For every scalar and u the output encodes the function X25519 of RFC 7748, section 5 |
| X25519Curve.DoubledStands | kernel/x25519.c:192-209 | The doubling formula is the tangent on y^2 = x^3 + 486662 x^2 + x, on x coordinates |
| X25519Curve.DiffAddStands | kernel/x25519.c:197-205 | The differential addition formula is the chord, given the x coordinate of the difference |
| X25519Curve.LadderStands | kernel/x25519.c:183-212 | The ladder carries the x coordinates of the multiples k and k + 1, when its steps are tangents and chords |
| X25519Curve.ScalarMultIsMultiple | kernel/x25519.c:164-217 | X25519 is the x coordinate of the clamped multiple, where z^(p - 2) inverts the last z |
| Poly1305.Ctx.Init | kernel/poly1305.c:25-48 | r is the clamped first half of the key, the pad its second half, the accumulator 0 |
| Poly1305Limbs.ClampLimbs | kernel/poly1305.c:31-35 | The five limb masks are the one 128-bit mask of RFC 8439, section 2.5 |
| Poly1305.Ctx.Block | kernel/poly1305.c:50-82 | h becomes (h + block + 2^128 unless final) * r modulo 2^130 - 5, limbs staying lazy (26 bits, limb 1 one carry over) |
| Poly1305Limbs.ColumnsAreProduct | kernel/poly1305.c:69-73 | The five columns are the product up to multiples of the prime |
| Poly1305Limbs.ColumnBounds | kernel/poly1305.c:69-73 | No column or carry leaves its 64- or 32-bit word |
| Poly1305.Ctx.Update | kernel/poly1305.c:84-103 | The context then holds the bytes absorbed before plus the new ones, unless bytes waiting in buf are lost (see UpdateKeepsAllIff) |
| Poly1305.UpdateKeepsAllIff | kernel/poly1305.c:85-102 | A further call keeps every byte if and only if nothing waits in buf or the call fills it; absorbing 1 byte and then 1 byte loses the first |
| Poly1305.Ctx.LastBlock | kernel/poly1305.c:105-111 | The short last block with its one byte and zeros is the RFC's last step |
| Poly1305.LastCarry | kernel/poly1305.c:113-121 | The final carry pass leaves every limb in 26 bits, same residue |
| Poly1305.Subtract | kernel/poly1305.c:124-137 | The masked select gives the residue below 2^130 - 5 |
| Poly1305.AddWords | kernel/poly1305.c:146-149 | Adding the pad word by word is addition modulo 2^128 |
| Poly1305.Ctx.Finish | kernel/poly1305.c:105-155 | The tag of the absorbed bytes |
| Poly1305.Mac | kernel/poly1305.c:157-162 | For every key and message the 16 bytes are the tag of RFC 8439, section 2.5.1 |
| Poly1305Vector.Example | kernel/poly1305.c:157-162 | The specification gives the tag of the worked example of RFC 8439, section 2.5.2 |
| Poly1305Vector.ClampWords | kernel/poly1305.c:31-35 | Clamping clears the top four bits of each word of the key and the bottom two of all but the first |
| Poly1305Vector.PrimeIs | kernel/poly1305.c:69-73 | The prime is 2^130 - 5 |
| HeapSpec.RunOk | kernel/heap.c:16-74 | After any sequence of allocations and frees the blocks tile the heap in address order, no two neighbours are free, bytes_used is the sum of the live sizes, and the live blocks are exactly the client's |
| HeapSpec.HeldDisjoint | kernel/heap.c:37-63 | Payloads held at the same time are disjoint and inside the heap |
| HeapSpec.EmptyIsInitial | kernel/heap.c:65-74 | Once everything is freed the heap is the single initial block |
| HeapGrants.LayoutIsHeld | kernel/heap.c:25-74 | The layout has no memory: two runs that leave the client the same payloads leave the same blocks and counter |
| HeapGrants.LiveDetermines | kernel/heap.c:25-35 | Two tilings of the same ground with no free neighbours and the same live blocks are equal |
| HeapGrants.HeldSize | kernel/heap.c:37-63 | After any run every payload held was granted to one request of it, and has at least its bytes rounded up to eight and fewer than 48 more |
| HeapGrants.AllocEffect | kernel/heap.c:37-63 | A request is refused, changing nothing, iff it is empty or no free block has its rounded bytes n; otherwise the first that has gives a payload of n to n + 47 bytes, which is what bytes_used grows by |
| HeapGrants.FreeEffect | kernel/heap.c:65-74 | Freeing gives back a held payload with all its bytes and nothing else |
| HeapGrants.GrantEffect | kernel/heap.c:43-61 | A block with 48 bytes more than wanted is cut to exactly n and a free block that covers the rest up to the old end, any other is taken whole; every other block is unchanged |
| HeapGrants.RefusedIff | kernel/heap.c:43-63 | kmalloc finds no block iff no free one is large enough |
| HeapGrants.FirstTwoGrants | kernel/heap.c:16-63 | Two requests of 8 bytes on the fresh heap get 0x500020 and 0x500048, and the rest is one free block |
| HeapSpec.MallocOk | kernel/heap.c:43-61 | Splitting keeps the tiling and leaves no two free neighbours |
| HeapSpec.MergeTiles | kernel/heap.c:25-35 | Coalescing keeps the tiling |
| HeapSpec.MergeNoTwoFree | kernel/heap.c:25-35 | After coalescing no two neighbours are free |
| HeapSpec.MergeKeepsLive | kernel/heap.c:25-35 | Coalescing keeps exactly the live blocks |
| HeapSpec.RoundUpCovers | kernel/heap.c:41-41 | Rounding up covers the request if and only if it is at most 2^64 - 8 |
| HeapSpec.RoundUpIs | kernel/heap.c:41-41 | The mask is (size + 7) mod 2^64 rounded down to a multiple of 8 |
| HeapSpec.GrantCoversIff | kernel/heap.c:37-63 | A granted payload is as large as the request if and only if the request is at most 2^64 - 8 |
| HeapImpl.Heap.constructor | kernel/heap.c:16-23 | One free block over the whole heap |
| HeapImpl.Heap.Coalesce | kernel/heap.c:25-35 | In place on the headers: the list becomes its merge |
| HeapImpl.Heap.Kmalloc | kernel/heap.c:37-63 | In place: first fit, a payload of at least the n bytes asked for and fewer than n + 48, counted in bytes_used; or 0 and no change |
| HeapImpl.Heap.Kfree | kernel/heap.c:65-74 | In place, for every address: a held payload is released; null, a double free or a bad magic changes nothing; an address whose preceding bytes merely look like a live header leaves the list as it is, and bytes_used goes wrong exactly when that header claims a size between 1 and bytes_used |
| PmmSpec.SetPage | kernel/pmm.c:8-10 | Setting a bit makes exactly that page busy |
| PmmSpec.ClearPage | kernel/pmm.c:12-14 | Clearing a bit frees exactly that page |
| PmmSpec.TestIs | kernel/pmm.c:16-18 | The masked byte is nonzero exactly for a busy page |
| Pmm.PageMap.MarkRange | kernel/pmm.c:20-39 | In place: exactly the pages of the range become busy or free, and used_count stays the number of set bits |
| PmmSpec.RangePagesAre | kernel/pmm.c:20-39 | For a range whose page numbers fit (MarksExactly, a condition on base, length and total) those are the managed pages that share a byte with it |
| PmmSpec.MarksExactlyIff | kernel/pmm.c:20-39 | For every 64-bit range and every number of managed pages, mark_range touches exactly the pages that share a byte with the range if and only if MarksExactly holds |
| PmmSpec.LowRangesFit | kernel/pmm.c:20-39 | It holds for every range that ends at most at 2^44 |
| PmmSpec.HighRangeWraps | kernel/pmm.c:29-31 | Above 2^44 it fails for one range, which marks page 0, and holds for another, which marks nothing |
| Pmm.PageMap.constructor | kernel/pmm.c:41-46 | Every page free |
| Pmm.PageMap.ApplyMemmap | kernel/pmm.c:48-93 | In place: the busy pages computed from the map; nothing changes when the map's memory ends below the managed area |
| PmmSpec.FreeIff | kernel/pmm.c:64-90 | For every map whose ranges satisfy MarksExactly, a managed page other than page 0 is free iff it overlaps a USABLE range and no RESERVED, NVS or BAD one |
| PmmSpec.ManagedIff | kernel/pmm.c:48-62 | The managed pages are those wholly between 2 MiB and min(highest usable byte, 64 MiB) |
| Pmm.PageMap.AllocPage | kernel/pmm.c:95-104 | The first free page becomes busy; 0 only when every page is busy |
| Pmm.PageMap.FreePage | kernel/pmm.c:106-112 | In place: the page computed from the low 32 bits of the address is freed if managed; used_count follows |
| Pmm.FreesItsPageIff | kernel/pmm.c:106-112 | That page is a managed one iff the low 32 bits of the address lie in the managed area, and then it is the page containing the address iff the address is below 2^32 |
| Pmm.PageAtAlloc | kernel/pmm.c:100-107 | Freeing an allocated address frees that page |
| NetIoSpec.PolledIsPrefix | kernel/net_io.c:11-32 | On every interleaving of receive interrupts with the single reads and writes of net_io_poll the frames polled are, byte for byte, a prefix of those accepted, with at most 15 pending |
| NetIoSpec.PollerDelivers | kernel/net_io.c:27-32 | Left alone, a poll that finds a frame returns the oldest after five accesses and two for each byte; one that finds none changes nothing |
| NetIoSpec.ReceiveAcceptsIff | kernel/net_io.c:11-20 | A frame is accepted iff it has at most 1518 bytes and fewer than 15 wait |
| NetIoSpec.ReceiveKeeps | kernel/net_io.c:11-20 | The handler keeps the ring and the frame being copied |
| NetIoSpec.PollKeeps | kernel/net_io.c:27-32 | Every access of the poller keeps the ring |
| NetIoSpec.AdvanceKeeps | kernel/net_io.c:29-31 | Advancing head hands over exactly the oldest frame |
| NetIo.RxRing.RxHandler | kernel/net_io.c:11-20 | In place: refines Receive, wherever the poller stands |
| NetIo.RxRing.Poll | kernel/net_io.c:27-32 | In place, with handlers run before each access: returns the oldest frame unchanged, and never misses one that was waiting |
| FatTable.FatNextIs | kernel/fat32.c:53-61 | For a cluster of the table fat_next is its 28-bit entry |
| FatTable.WriteEntrySets | kernel/fat32.c:184-200 | fat_write_entry sets one entry, keeps its four reserved bits and every other entry |
| FatTable.WriteEntryMirrors | kernel/fat32.c:197-199 | All copies of the table stay equal |
| FatTable.WriteEntryCovers | kernel/fat32.c:184-200 | No sector outside the table changes |
| FatTable.DiskDetermined | kernel/fat32.c:184-200 | Equal tables, equal copies and equal data are equal disks, byte for byte |
| FatLayout.EntryPlace | kernel/fat32.c:53-61 | Entry c is four bytes, least significant first, at byte 4 c of the table, and fat_next looks there |
| FatLayout.ClustersInOrder | kernel/fat32.c:46-51 | Cluster 2 starts at the sector after the last one of the last table, and each cluster where the one before ends |
| FatLayout.ComputedLba | kernel/fat32.c:49-51 | cluster_to_lba computes that sector in 32 bits for every cluster of the table |
| FatLayout.ChainIff | kernel/fat32.c:53-61 | A chain names each next cluster in the low 28 bits and ends in 0x0FFFFFF8 or more |
| Fat32.Volume.NextCluster | kernel/fat32.c:53-61 | The specification FatNext, a failed read ending the chain |
| Fat32.Volume.SetCluster | kernel/fat32.c:184-200 | In place on the device: refines WriteEntry |
| Fat32.Volume.AllocCluster | kernel/fat32.c:202-219 | The first free cluster from 2 on, marked as an end; 0 and no change when there is none |
| Fat32.Volume.AllocChain | kernel/fat32.c:292-312 | Succeeds iff the volume has enough free clusters; then the lowest free ones of the old table, in order, form one new chain, otherwise the table is as before |
| FatChain.NextFree | kernel/fat32.c:202-219 | What first fit finds while the chain grows is the next free cluster of the table before |
| FatLayout.LowestFree | kernel/fat32.c:202-219 | The clusters a file gets are as many as it needs, free ones from 2 on in increasing order, and no free one is passed over |
| FatLayout.FreeClustersAre | kernel/fat32.c:202-219 | The free clusters are all those from 2 on whose entry is zero in its low 28 bits |
| Fat32.Volume.Rollback | kernel/fat32.c:298-304 | Taking the partial chain back restores the table exactly |
| FatChain.GrownStep | kernel/fat32.c:293-310 | One round of the loop extends the chain by one cluster and touches nothing else |
| FatChain.GrownIsChain | kernel/fat32.c:293-312 | What was built is a chain without a cycle |
| FatLayout.BuiltChainEnds | kernel/fat32.c:293-312 | It ends in 0x0FFFFFFF, and the four reserved bits of every entry are kept |
| FatChain.OtherChains | kernel/fat32.c:293-312 | Every chain there was is unchanged and disjoint from the new one |
| FatChain.GrownCounts | kernel/fat32.c:202-219 | Clusters taken are free ones, all of them when none is left |
| FatChain.ChainDistinct | kernel/fat32.c:53-61 | A chain that ends never visits a cluster twice |
| FatData.ClusterOfIs | kernel/fat32.c:49-51 | Different sectors of different clusters are different sectors of the device |
| Fat32.Volume.WriteData | kernel/fat32.c:315-329 | Every sector of the data is in its place in the chain, zero padded; only sectors of the chain change; fails iff one is not on the device |
| Fat32.Volume.WriteFile | kernel/fat32.c:288-348 | On the disk before the call: no space iff too few clusters are free, and then table and data are as before (the whole disk byte for byte if the copies of the table agreed); a failed data write iff there is space and the last sector needed lies past the device, and then the chain stays allocated; otherwise stored. A result that is not negative is the length, and the file reads back exactly |
| Fat32.Volume.WriteThenRead | kernel/fat32.c:288-372 | A file written and read again is the one written whenever the result is not negative; the result is negative iff there is no space, the data runs off the device, or it has 2^31 bytes or more; any other stored file stays stored |
| Fat32.StoredReportsFailureIff | kernel/fat32.c:288-348 | A write that is stored returns a negative number iff it has 2^31 bytes or more, among them every length whose clusters do not cover it |
| Fat32.WantedOnDevice | kernel/fat32.c:315-329 | The sectors of the lowest free clusters that the data needs are all on the device iff the last of them is |
| FatData.OnDeviceIff | kernel/fat32.c:315-329 | Likewise for any increasing list of clusters |
| Fat32.WriteRunsOff | kernel/fat32.c:315-329 | On a disk of two sectors a write of one byte takes cluster 2 and runs off |
| FatData.ClustersCoverIff | kernel/fat32.c:288-290 | The clusters reserved hold the file iff len + cluster_size - 1 < 2^32 |
| FatLayout.ClustersLeast | kernel/fat32.c:288-290 | Where it does not wrap they are the fewest that hold it, and one for an empty file |
| FatLayout.FileByte | kernel/fat32.c:315-329 | Byte k of a stored file is byte k mod 512 of sector (k div 512) mod spc of cluster number k div (512 spc) of its chain; the last sector is filled with zeros |
| FatData.ReadsBack | kernel/fat32.c:361-371 | Reading a chain that stores the data returns the data |
| FatData.ReadsBackIff | kernel/fat32.c:288-371 | A file stored on the clusters reserved for it reads back as exactly the data iff len + cluster_size - 1 < 2^32 |
| FatData.OtherFiles | kernel/fat32.c:288-371 | Every file stored before is still stored on its chain and reads back the same |
| FatData.OtherData | kernel/fat32.c:315-329 | The sectors of every other chain are unchanged |
| Fat32.Volume.ReadFile | kernel/fat32.c:356-372 | In place: the output is the specification ReadFrom on whatever the device holds, the rest of the buffer untouched |
| LbaXlate.Slot.Read | kernel/lba_xlate.c:26-54 | Succeeds iff the request is on the device (or is empty and unaligned); then the buffer holds the flat sectors, on both paths |
| LbaXlate.Slot.Write | kernel/lba_xlate.c:56-84 | On success exactly the requested flat sectors change, on both paths; a failed slow write leaves the sectors before the end of the device written, a failed fast write none |
| LbaXlateSpec.WroteDetermines | kernel/lba_xlate.c:67-83 | The fast path and the read-modify-write path have the same effect |
| LbaXlateSpec.SectorIsFlat | kernel/lba_xlate.c:46-50 | Sector i is bytes 512 i to 512 i + 511 of the blocks of the device joined |
| LbaXlateSpec.OverwriteWrote | kernel/lba_xlate.c:67-69 | Whole native blocks written are their eight sectors written |
| LbaXlateSpec.WroteStep | kernel/lba_xlate.c:72-82 | One read-modify-write writes one flat sector and no other |
| LbaXlate.AlignedRead | kernel/lba_xlate.c:35-39 | Whole native blocks read are their eight sectors read |
| TlsBuild.BuildClientHello | kernel/tls.c:20-112 | In place: memory from the buffer on holds one record with the client hello, the bytes of ClientBytes, whose nine header bytes say type 22, version 3.3, length n - 5, message 1, length n - 9; nothing written after it; -1 and nothing written for a claimed size below 256 |
| TlsBuild.BuildServerHello | kernel/tls.c:211-253 | In place: likewise for the server hello, message 2, with every session id and a claimed size below 200 |
| TlsBuild.PutHeaders | kernel/tls.c:101-109 | The headers, written last, carry the lengths of what follows them: n - 5 for the record and n - 9 for the message |
| TlsBuild.UnwrapIff | kernel/tls.c:101-109 | Reading the two headers back gives the kind and the body, and accepts no other bytes |
| TlsBuild.ClientBytes | kernel/tls.c:34-99 | Every byte of the client hello, the server name extension with its four lengths included |
| TlsBuild.ServerBytes | kernel/tls.c:216-246 | Every byte of the server hello |
| TlsBuild.ClientFitsIff | kernel/tls.c:20-112 | The record built is within the 256 bytes the builder checks for iff the host name has at most 94 bytes or is too long to be sent |
| TlsBuild.ServerFitsIff | kernel/tls.c:211-253 | The record built is within the 200 bytes the builder checks for iff the session id has at most 105 bytes |
| TlsHello.ClientRoundTrip | kernel/tls.c:255-326 | Parsing a built client hello succeeds with the same public key, random and session id, for every host name |
| TlsHello.ServerRoundTrip | kernel/tls.c:328-363 | Parsing a built server hello succeeds with the same public key |
| TlsHello.ParseClientOf | kernel/tls.c:255-326 | On a hello with any session id, cipher suites, compression methods, extensions and bytes after them: rejected unless suite 0x1303 is offered, and then the verdict is that of visiting the extensions |
| TlsHello.HasCipherIff | kernel/tls.c:273-280 | The scan finds 0x1303 wherever it stands in the list of suites, and only there |
| TlsParse.AcceptedIff | kernel/tls.c:255-326 | Such a hello is accepted with a key iff the suite is offered, no extension is malformed or endless, one offers 0x0304 where the scan reaches, and the key is that of the last extension with a usable share |
| TlsParse.VisitAllIs | kernel/tls.c:294-324 | The walk ends well iff every extension passes; what it then holds |
| TlsParse.VisitShares | kernel/tls.c:306-322 | A key share extension gives the first share of group 0x001D with 32 bytes |
| TlsParse.FindShareOf | kernel/tls.c:311-322 | The search over any encoded list of shares finds the first usable one, wherever it stands |
| TlsParse.FirstKeyIff | kernel/tls.c:314-320 | Its key is that of the share no usable one comes before |
| TlsParse.OfferedIff | kernel/tls.c:301-304 | The version scan succeeds iff 03 04 stands at an odd offset of at most 255 |
| TlsParse.ClientShape | kernel/tls.c:255-292 | Every byte string the parser does not reject has that layout |
| TlsParse.SplitExts | kernel/tls.c:294-324 | Every byte string is a list of extensions and a rest into which no further one fits |
| TlsParse.WalkAny | kernel/tls.c:294-298 | On such bytes the walk is that over the list, and fails if an extension that overruns is reached |
| TlsHello.ParseServerOf | kernel/tls.c:328-363 | Likewise for the server hello: the first key share decides |
| TlsParse.ServerShape | kernel/tls.c:328-343 | Every byte string that gives a key has the layout of a hello with the one suite and no compression |
| TlsParse.ServerShareIff | kernel/tls.c:349-358 | The share is read from exactly these bytes: group 0x001D, length 32, 32 bytes of key |
| TlsParse.FindAny | kernel/tls.c:346-362 | On any bytes the first key share decides, whatever follows |
| TlsHello.WalkEncoded | kernel/tls.c:294-324 | Walking the bytes is walking the extensions they encode; unknown ones are skipped whole |
| TlsHello.ForeverIff | kernel/tls.c:301-304 | The 8-bit index of the version scan comes round for ever iff the list has more than 256 bytes and 0x0304 is at none of its first 128 places |
| TlsHello.ParseHangsIff | kernel/tls.c:255-326 | On a hello with any session id and extensions the whole parser fails to return iff such a list comes before any malformed extension |
| TlsHello.HangingHello | kernel/tls.c:294-304 | One hello of 304 bytes on which it never returns |
| TlsBuild.ClientHelloReadBack | kernel/tls.c:20-326 | A client hello built into memory and parsed from it gives back what went in, for every host name |
| TlsBuild.ServerHelloReadBack | kernel/tls.c:211-363 | A server hello built into memory and parsed from it gives back the public key, for every session id |

## Left out

- TCP teardown beyond ESTABLISHED: tcp_close drops queued data and a FIN is taken without a sequence check, so "nothing is lost at close" is not a property of this code; FIN_WAIT, LAST_ACK and TIME_WAIT are not modelled.
- Frames, checksums, ARP, ports, the table of sixteen blocks and failing sends around TCP: a segment is its numbers, flags and payload.
- Fairness: `TcpProgress.NothingIsStuck` says that a run can always go on well, not that every run does; dishonest peers, several incarnations, streams of 2^31 bytes; cwnd is a mathematical integer.
- Null-pointer checks of the C interfaces.
- SHA-256, HMAC, ChaCha20: the hash is an input of the RSA model.
- The DER parser of ECDSA signatures: verification starts from r and s.
- Primality of the two primes, associativity of the group laws, and the exceptional pairs a scalar might meet: `EcGroup.MulStands` and `X25519Curve.LadderStands` speak of scalars whose steps are proper tangents and chords.
- bn2_shl1, bn2_geq_shifted and bn2_sub_shifted, which nothing calls.
- Payload bytes and kmalloc_zero of the heap: memory is the headers, and a client may write anything that is not one (`HeapImpl.Heap.ClientWrites`).
- HeapImpl.Heap.Kfree: memory is a map from addresses to headers, so a look-alike header whose bytes overlap those of a header of the list is not modelled.
- FAT directories, 8.3 names and the directory entry a write stores; sector reads that fail now and then; the old chain of an overwritten file, which the code leaks.
- The transport lookup and registration of lba_xlate.c, and native sizes other than 4096.
- net_io sending, packet counters, and interrupts that nest.
- TlsBuild.BuildClientHello: the array is all of memory from the buffer on and must hold the message; a store past the end of memory has no meaning in C.
- TlsBuild.BuildServerHello: likewise.
- The TLS key schedule, records, certificates and sockets; session ids longer than the caller's 32-byte buffer.
- The registers, boot code, drivers and graphics of the rest of the system.
