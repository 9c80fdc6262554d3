# A model of gcl's connection protocol and number-theory generators

The project models, in Dafny, the parts of GNU Common Lisp's tree whose correctness needs an
argument rather than a reading:

- the packet protocol between Lisp and its Tk server (`gcl-tk/comm.c`, `sheader.h`, `guis.c`);
- the small bignum library that builds GMP's tables, and the programs on top of it
  (`gmp4/dumbmp.c`, `gen-psqr.c`, `gen-fac_ui.c`);
- double-word arithmetic in portable C (`gmp4/longlong.h`);
- the two random generators and their seeding (`gmp4/randlc2x.c`, `randlc2s.c`, `randmt.c`, `randmts.c`);
- the mark and release allocator (`gmp4/tal-notreent.c`), the delimiter searches of the merge
  program (`merge.c`), and the decomposition of doubles (`gmp4/extract-dbl.c`).

Code that changes state is modelled by methods on classes and arrays, each proved against a
function or predicate of the old state; what the source promises is then proved about those.

## How the files fit together

| files | part |
|---|---|
| `Arith`, `Bits`, `Counting` | powers, Euclidean division, congruences, bitwise operators on naturals, finite sets |
| `Packets`, `Protocol`, `Connection`, `Framing` | byte format; two endpoints as a state machine; the `connection_state` object, which refines one endpoint; messages |
| `Longlong` | double-word arithmetic for words of 2h bits, h symbolic |
| `Limbs`, `Dumbmp`, `Mpz`, `MpzBits`, `MpzDiv`, `MpzRoot` | limb loops on arrays, then the `mpz` functions on objects, for a symbolic limb size of at least 16 bits |
| `FacUi`, `Factors`, `Exponents`, `RawFactors`, `Psqr`, `GenMod`, `Residues`, `Mod34` | the two generator programs; `Mod34` looks at particular limb sizes |
| `Lcg`, `Lc`, `Mt`, `MtBits`, `MtSeed` | the random generators |
| `TmpAlloc`, `Merge`, `ExtractDouble` | the three smaller parts |

An endpoint of the protocol carries the trace of its atomic steps as ghost state. Every method of
`ConnectionState` only extends that trace by steps that are enabled, so a connection is always in a
state that the endpoint automaton of `Protocol` reaches; `Protocol` proves its theorems for all
interleavings of two such automata over two byte channels, and `Protocol.LegalIff` says which pairs
of traces such interleavings are. What `SAFE_READ` returns is left open between nothing, an error and
any number of bytes up to the space given; a ghost log keeps every read and every wait for credit, and
the contracts of the reader and the writer say by it when they may fail.

## What was found

- The comment at `gcl-tk/comm.c:184` is not true: after the tests at 173-183 there is a packet of
  free space only under the conditions of `Connection.RoomIff`, and `Connection.NoRoomExample` leads
  in three steps to a buffer with no space at all. A reader in that state is told that nothing came,
  and a writer that waits there for credit gives up whatever the peer has sent
  (`Connection.ConnectionState.Write1`). What does hold is that offset and size stay within capacity.
- A packet carries its credit faithfully exactly when fewer than 65536 bytes are unconfirmed
  (`Protocol.SendConservesIff`); a window of at most 65535 - MAX_PACKET guarantees it.
- `mpz_sub` computes a - b for non-negative operands exactly when a >= b (`MpzArith.SubResultIff`).
- `mpz_tdiv_qr` leaves equal operands undivided, and only those (`MpzDiv.DivisionIff`).
- `mpz_root` aborts for y = 2, z = 2 and for nothing else (`MpzRoot.Root`).
- The factorial-constant search starts high enough for all its subtractions exactly when a limb has
  at least 7 bits (`FacUi.SearchStartIff`).
- The factor search of `generate_mod` leaves one copy of a small prime out exactly when all prime
  factors of the modulus are within the bound: then the largest of them is what remains
  (`RawFactors.RestIsPrimeIff`). With 16-bit limbs that happens to 13 (`Mod34.ThirteenIsLeft`).
- In the same search `divisor` keeps the value 1, so nothing limits the multiplicities. The recorded
  entries stay within a bound exactly under the condition of `RawFactors.EntriesWithinIff`; with
  876-bit limbs the entry of 73 exceeds `max_divisor` (`Mod34.EntryAboveBound`).
- The search without pushback finds the first occurrence in every text exactly for delimiters inside
  which every repeated beginning goes on alike (`Merge.SkimIsScanIff`); those of change files are such.
- The comparison that `randlc2x.c:91` makes never succeeds: the product always has more limbs than
  the modulus (asserted in `Lc.LcState.Advance`).

## Model

| member | source | states |
|---|---|---|
| Protocol.CreditTheorem | gcl/gcl-tk/comm.c:81-100 | in every reachable state of every interleaving of two endpoints, bytes sent and not acknowledged equal bytes in flight, plus bytes the peer has not confirmed, plus all "received" fields still to be collected; so they never exceed the window plus one packet and the two-byte field never truncates |
| Protocol.BlockedHasCredit | gcl/gcl-tk/comm.c:201-202 | a writer whose window is exceeded, with nothing in flight to its peer and a peer that has confirmed all but at most 2000 bytes, as every finished read leaves it, always has credit coming, and enough to open the window again |
| Protocol.StreamTheorem | gcl/gcl-tk/comm.c:121-260 | in every reachable state, what one side wrote is what the other side's reader delivered followed by the payload still buffered or in flight, in order, in both directions |
| Protocol.Projection | gcl/gcl-tk/comm.c:121-260 | a run of the pair is, seen from one side, a run of that endpoint alone, and delivers what that run hands out |
| Protocol.LegalIff | gcl/gcl-tk/comm.c:121-260 | a list of moves is a run of the pair exactly when each side's events are a run of that endpoint alone and no read is ahead of what the other side had sent; the endpoints, channels and totals reached are those of the two runs |
| Protocol.TracesConserve | gcl/gcl-tk/comm.c:81-100 | so the traces of any two connection objects that read what the other one sent keep the window bound, and hand out what the other one was given to write, in order |
| Protocol.SendConservesIff | gcl/gcl-tk/comm.c:225-243 | without any bound on the window, sending a packet keeps the peer's credit equation exactly when the unconfirmed count is below 65536 |
| Protocol.LegalKeepsInv | gcl/gcl-tk/comm.c:196-204 | framing, credit conservation and stream transparency in both directions are kept by every legal run |
| Packets.ScanMovesCredit | gcl/gcl-tk/comm.c:81-100 | scanning a partly arrived packet sequence takes exactly the credit of the complete headers, and leaves framing and payload alone |
| Packets.ScanIsScanned | gcl/gcl-tk/comm.c:90-97 | after a scan every complete header has a zero count, so that no credit is collected twice |
| Packets.FramedAppend | gcl/gcl-tk/sheader.h:78-84 | appending a packet appends its body to the payload and its count modulo 2^16 to the credit |
| Packets.PacketFields | gcl/gcl-tk/sheader.h:50-75 | length and count stored in a header read back, the count when it is below 2^16 |
| Packets.PacketBytes | gcl/gcl-tk/comm.c:238-240 | a packet begins with the bytes 134, length and count, each low byte first |
| Packets.WireConstants | gcl/gcl-tk/comm.c:53-55 | 5 header bytes, packets of at most 1000 bytes, confirmation beyond 2000 |
| Connection.RoomIff | gcl/gcl-tk/comm.c:172-184 | exactly when the reader has a packet of free space after growing and moving its buffer; there is always some unless a packet or more is buffered |
| Connection.NoRoomExample | gcl/gcl-tk/comm.c:172-200 | three steps of reading and taking out lead from an empty buffer of two pages to one for which no free space is made at all |
| Connection.ConnectionState.constructor | gcl/gcl-tk/comm.c:67-79 | a new connection is a fresh endpoint with nothing buffered |
| Connection.ConnectionState.ScanHeaders | gcl/gcl-tk/comm.c:81-100 | the loop over the headers in the buffer is the credit step of the endpoint, moves no user byte, and leaves every complete header settled |
| Connection.ConnectionState.MakeRoom | gcl/gcl-tk/comm.c:172-183 | growing and compacting keep the open packet and the packets behind it |
| Connection.ConnectionState.Receive | gcl/gcl-tk/comm.c:187-200 | one read of any length appends to the valid data and adds its length to the bytes received and to the unconfirmed ones; a read that gives nothing changes neither |
| Connection.ConnectionState.TryPacket | gcl/gcl-tk/comm.c:134-169 | delivers a prefix of the remaining user bytes from the open packet or the next whole one, and asks for a read only when neither is there |
| Connection.ConnectionState.Read1 | gcl/gcl-tk/comm.c:121-205 | delivers the next m user bytes whatever the packets, fragments and confirmations in between; it stops early only when nothing more can be delivered and the last read gave nothing, or when a confirmation gave up; a full read that had to read from the socket leaves at most 2000 bytes unconfirmed |
| Connection.ConnectionState.SendConfirmation | gcl/gcl-tk/comm.c:106-109 | sends an empty packet and resets the unconfirmed count, adding no user byte; it fails only when a wait brought no credit |
| Connection.ConnectionState.Write1 | gcl/gcl-tk/comm.c:217-262 | sends all of its argument as payload in order, re-entering the reader while the window is full without losing user bytes; it fails, after a prefix, only when the window is exceeded and the last wait brought no credit, and always when there is no buffer space to wait with |
| Connection.ConnectionState.AwaitCredit | gcl/gcl-tk/comm.c:226-231 | one re-entrant read succeeds only when it lowered the count of unacknowledged bytes, and else leaves a logged wait that brought no credit |
| Framing.FirstMessageUnique | gcl/gcl-tk/guis.c:388-440 | a stream determines its first message and what follows it |
| Framing.MessagesUnique | gcl/gcl-tk/guis.c:388-482 | a stream determines the whole list of messages written to it |
| Framing.HeaderBytes | gcl/gcl-tk/guis.c:411-416 | a message begins with the bytes 6, 65, type, flag, then size and number in three bytes, low byte first |
| Framing.Gui.SockWriteStr2 | gcl/gcl-tk/guis.c:388-440 | one or two writes put exactly the encoded message on the stream and take the next message number, unless a write gives up for lack of credit; the local buffer of 4096 bytes is never overrun |
| Framing.Gui.GuiParseMsg1 | gcl/gcl-tk/guis.c:445-482 | a message at the front of the stream is returned unchanged, and nothing behind it is consumed, unless a read gives nothing or the process is aborted |
| Longlong.AddSsaaaa | gcl/gmp4/longlong.h:1726-1734 | double-word sum modulo the double word |
| Longlong.SubDdmmss | gcl/gmp4/longlong.h:1736-1744 | double-word difference modulo the double word |
| Longlong.UmulMiddle | gcl/gmp4/longlong.h:1786-1789 | of the two additions only the second can carry, and the comparison detects it |
| Longlong.UmulPpmm | gcl/gmp4/longlong.h:1769-1794 | the two words of the half-word product are u v |
| Longlong.SmulPpmm | gcl/gmp4/longlong.h:1798-1807 | the mask corrections give the signed product modulo the double word |
| Longlong.SmulExact | gcl/gmp4/longlong.h:1798-1807 | read as a two's-complement double word that is the signed product, for all operands |
| Longlong.UmulFromSmul | gcl/gmp4/longlong.h:1746-1757 | the unsigned product recovered from the signed one |
| Longlong.HalfQuotient | gcl/gmp4/longlong.h:1820-1831 | one half-word quotient digit and its remainder: the estimate is at most 2 too large |
| Longlong.AddBackDetects | gcl/gmp4/longlong.h:1824-1829 | after d is added to the remainder, the result is at least d exactly when the addition did not wrap around |
| Longlong.UdivQrnnd | gcl/gmp4/longlong.h:1810-1848 | q d + r = n1 2^W + n0 and r < d, for normalized d and n1 < d |
| Dumbmp.MpnNormalize | gcl/gmp4/dumbmp.c:142-149 | drops high zero limbs and keeps the value |
| Dumbmp.MpnAdd | gcl/gmp4/dumbmp.c:344-365 | the carry chain over two arrays, possibly the same, is their sum |
| Dumbmp.MpnMul | gcl/gmp4/dumbmp.c:456-473 | the schoolbook loops give the product, no double limb overflowing |
| MpzArith.Mpz.constructor | gcl/gmp4/dumbmp.c:167-174 | a new object is zero |
| MpzArith.Set | gcl/gmp4/dumbmp.c:229-235 | copies the value |
| MpzArith.Add | gcl/gmp4/dumbmp.c:329-369 | a + b for non-negative operands under any aliasing, normalized and within the allocation |
| MpzArith.SubResultIff | gcl/gmp4/dumbmp.c:382-435 | what the subtraction leaves is a - b exactly when a >= b |
| MpzArith.Sub | gcl/gmp4/dumbmp.c:382-435 | what is left for every pair of non-negative operands, the negated branch included |
| MpzArith.SubLess | gcl/gmp4/dumbmp.c:382-435 | a - b whenever a >= b, which every caller of the model establishes |
| MpzArith.Mul | gcl/gmp4/dumbmp.c:448-481 | the signed product under any aliasing |
| MpzArith.Mul2exp | gcl/gmp4/dumbmp.c:494-503 | a 2^bcnt by repeated doubling, for non-negative a or bcnt = 0 |
| MpzArith.PowUi | gcl/gmp4/dumbmp.c:830-841 | y^z |
| MpzArith.AddmulUi | gcl/gmp4/dumbmp.c:843-853 | x + y z |
| MpzArith.Cmp | gcl/gmp4/dumbmp.c:590-613 | the sign of the comparison, for any signs |
| MpzBits.SetBit | gcl/gmp4/dumbmp.c:263-284 | sets one bit and no other, extending the number with zeros where needed |
| MpzBits.TstBit | gcl/gmp4/dumbmp.c:286-300 | the bit at any position |
| MpzBits.TdivQ2exp | gcl/gmp4/dumbmp.c:521-569 | quotient by a power of two rounded toward zero, in place or not |
| MpzBits.TdivR2exp | gcl/gmp4/dumbmp.c:571-588 | the matching remainder with the operand's sign |
| MpzBits.SizeInBase2 | gcl/gmp4/dumbmp.c:209-227 | the position of the top bit of the magnitude, 1 for zero |
| MpzDiv.DivisionIff | gcl/gmp4/dumbmp.c:639-640 | the results always recompose the dividend and are quotient and remainder exactly when the operands differ |
| MpzDiv.DivideLoop | gcl/gmp4/dumbmp.c:641-654 | shift and subtract gives quotient and remainder; its subtractions never go below zero and its assertion holds |
| MpzDiv.TdivQR | gcl/gmp4/dumbmp.c:626-660 | division with results in objects that may be the operands |
| MpzDiv.Invert2exp | gcl/gmp4/dumbmp.c:791-818 | the bit-by-bit inverse: r a = 1 modulo 2^n with 0 <= r < 2^n; the final assertion holds |
| MpzRoot.MeanInequality | gcl/gmp4/dumbmp.c:866-884 | s^z + (z-1) u^z >= z s u^(z-1), strictly for z >= 2 and s different from u |
| MpzRoot.NewtonGoesDown | gcl/gmp4/dumbmp.c:866-884 | above the root a step of the iteration goes strictly down |
| MpzRoot.NewtonStaysAbove | gcl/gmp4/dumbmp.c:866-884 | no step passes the root, with the division as it is, except for y = 2, z = 2 |
| MpzRoot.NewtonAtRoot | gcl/gmp4/dumbmp.c:866-884 | at the root the iteration stops |
| MpzRoot.RootOfTwo | gcl/gmp4/dumbmp.c:855-887 | the input for which the iteration leaves the root and meets a zero divisor |
| MpzRoot.RootUnique | gcl/gmp4/dumbmp.c:855-856 | the largest s with s^z <= y is unique |
| MpzRoot.Root | gcl/gmp4/dumbmp.c:855-887 | terminates; aborts exactly for y = 2, z = 2; else x is the largest number with x^z <= y |
| FacUi.OddProducts | gcl/gmp4/gen-fac_ui.c:26-41 | y (y+2) (y+4) ... with z factors |
| FacUi.SearchStartIff | gcl/gmp4/gen-fac_ui.c:95-106 | the searches for a = 2, 3, 4 all start at 3 or more exactly when numb >= 7 |
| FacUi.FacMul | gcl/gmp4/gen-fac_ui.c:95-133 | the search ends with the largest odd x whose product of a factors is at most 2^numb - 1, never going below 1 |
| Factors.PrimePowersCoprime | gcl/gmp4/gen-psqr.c:290-308 | powers of different primes are coprime |
| Factors.PairCoprimePermuted | gcl/gmp4/gen-psqr.c:391 | sorting keeps pairwise coprimality |
| Factors.ProdPermuted | gcl/gmp4/gen-psqr.c:391 | sorting keeps the product |
| Factors.MergedCoprime | gcl/gmp4/gen-psqr.c:394-399 | merging an entry into the first keeps pairwise coprimality |
| GenMod.Isprime | gcl/gmp4/dumbmp.c:104-114 | trial division decides primality |
| GenMod.TakePrime | gcl/gmp4/gen-psqr.c:290-303 | divides out one prime as often as it goes in, except that the last copy stays when it is all that remains; 1 never remains |
| GenMod.Mod34Factors | gcl/gmp4/gen-psqr.c:275-308 | the recorded prime powers times the rest are 2^mod34_bits - 1; the rest is above 1 and has no odd prime up to the bound unless it is that prime, and then no larger one was recorded; the array has room |
| RawFactors.DividedUnique | gcl/gmp4/gen-psqr.c:283-308 | that determines both the list of primes with their multiplicities and the rest |
| RawFactors.RecordedExponent | gcl/gmp4/gen-psqr.c:290-303 | each odd prime within the bound is recorded as often as it divides the modulus, less one if it is the rest |
| RawFactors.RestIsPrimeIff | gcl/gmp4/gen-psqr.c:288-303 | the rest is a prime within the bound exactly when all prime factors of the modulus are, and is then the largest of them |
| RawFactors.EntriesWithinIff | gcl/gmp4/gen-psqr.c:292-302 | all entries stay within a bound exactly when, for every odd prime considered, its power in the modulus does, one copy of the largest prime factor not counting if all are within reach |
| Exponents.ExponentMul | gcl/gmp4/gen-psqr.c:290-303 | the multiplicity of a prime in a product is the sum of its multiplicities |
| Mod34.ThirteenIsLeft | gcl/gmp4/gen-psqr.c:275-308 | with 16-bit limbs the modulus 2^12 - 1 = 9 5 7 13 is used with bound 16, and 13 is never recorded |
| Mod34.EntryAboveBound | gcl/gmp4/gen-psqr.c:292-302 | with 876-bit limbs the modulus is 2^657 - 1 and the bound 1752, and the entry of 73 is above it |
| GenMod.PpPrimes | gcl/gmp4/gen-psqr.c:332-348 | pp is the product of the odd primes in order, up to the bound or the first one that would not fit |
| GenMod.PpSquares | gcl/gmp4/gen-psqr.c:350-363 | second copies keep pp the product, and no further copy of any prime would still fit |
| GenMod.Combine | gcl/gmp4/gen-psqr.c:387-401 | terminates, keeps the product, pairwise coprimality and oddness, keeps merged entries within the bound, and stops only when no two entries fit together; the outcome is that of letting the smallest entry take over the biggest one that fits, again and again |
| GenMod.SortedUnique | gcl/gmp4/gen-psqr.c:391 | a list has one sorted order, so the outcome does not depend on how the library sorts |
| GenMod.ChooseModulus | gcl/gmp4/gen-psqr.c:240-371 | 2^mod34_bits - 1 is used exactly when the sizes allow it and more than two small primes are recorded, with the bound on divisors that goes with the sizes and with mod_bits - 1 three quarters of the limb's bits; else pp, of mod_bits bits and filled up |
| GenMod.EligibleIff | gcl/gmp4/gen-psqr.c:240-263 | the sizes allow it exactly when a limb has bits in fours and a quarter of them counts up to the bound, which is two limbs' worth of bits, or one limb's if only that can be counted |
| GenMod.TooFewIff | gcl/gmp4/gen-psqr.c:315-330 | whether too few primes are recorded depends on the sizes alone, the search having one outcome |
| GenMod.ChoiceUnique | gcl/gmp4/gen-psqr.c:240-330 | the sizes determine which modulus is used and the bound on divisors |
| GenMod.GenerateMod | gcl/gmp4/gen-psqr.c:223-401 | the divisors are the raw prime powers of the chosen modulus, combined; they are odd, pairwise coprime and multiply to the same product, and pp is filled up when it is used |
| Psqr.BitAfterSet | gcl/gmp4/gen-psqr.c:195 | setting a clear bit changes that bit only |
| Psqr.SquareMask | gcl/gmp4/gen-psqr.c:180-197 | bit idx of the mask is set exactly when idx = -i^2 2^mod_bits mod m for some i |
| Psqr.MaskDecides | gcl/gmp4/mpn/generic/perfsqr.c:121-131 | with inverse and mask of an odd d, the index computed from r is below d and its mask bit is set exactly when r is a square modulo d |
| Residues.TableEntry | gcl/gmp4/gen-psqr.c:405-411 | the generated pair decides squareness modulo d for every r of mod_bits bits |
| Residues.GenerateTables | gcl/gmp4/gen-psqr.c:403-411 | the loop over the divisors gives each its deciding pair |
| Residues.Generate | gcl/gmp4/gen-psqr.c:223-411 | from limb sizes to table: the generated table lets r through exactly when r is a square modulo the product of the divisors, which divides the modulus |
| Mod34.Range32 | gcl/gmp4/gen-psqr.c:190-195 | with 32-bit limbs all products of the mask computation stay in the range of an int |
| Mod34.Range64 | gcl/gmp4/gen-psqr.c:190-195 | and with 64-bit limbs |
| Residues.SquareModProd | gcl/gmp4/gen-psqr.c:41-46 | a number is a square modulo a product of coprime divisors exactly when it is one modulo each |
| Residues.CombiningKeepsDetections | gcl/gmp4/gen-psqr.c:41-46 | combining prime powers into divisors neither gains nor loses a detection |
| Residues.TestsDecide | gcl/gmp4/mpn/generic/perfsqr.c:133-145 | all tests together let r through exactly when it is a square modulo the product of the divisors |
| Residues.SquarePasses | gcl/gmp4/mpn/generic/perfsqr.c:133-145 | a perfect square is never turned away |
| Lcg.ClosedForm | gcl/gmp4/randlc2x.c:101-114 | n steps move x by (1 + a + ... + a^(n-1)) times its first increment, modulo 2^m |
| Lcg.GeoDivides | gcl/gmp4/randlc2x.c:101-114 | that sum is divisible by 2^m exactly when n is |
| Lcg.PlacesAgreeIff | gcl/gmp4/randlc2x.c:101-114 | two places of a maximal sequence agree exactly when they are congruent modulo 2^m |
| Lcg.FullPeriodIff | gcl/gmp4/randlc2s.c:33-36 | every residue is reached from every seed within 2^m steps exactly when c is odd and a = 1 modulo 4 (a odd for m = 1) |
| Lc.LcState.Next | gcl/gmp4/randlc2x.c:61-137 | the limb computation is one step (a seed + c) mod 2^m2exp, and the output is its value without the lower half, in exactly the limbs that the returned bit count needs, no further one being written |
| Lc.LcState.SetSeed | gcl/gmp4/randlc2x.c:220-232 | the seed modulo 2^m2exp, for seeds of either sign, in padded limbs |
| Lc.InitLc2exp | gcl/gmp4/randlc2x.c:282-322 | seed 1 and multiplier a modulo 2^m2exp, for a of either sign, zero being held in one limb |
| Lc.GoodMultiplier | gcl/gmp4/randlc2s.c:30-31 | a scheme's multiplier is 5 modulo 8 and below the modulus, hence of full period |
| Lc.TableGood | gcl/gmp4/randlc2s.c:40-62 | that holds for every entry of the table, whose moduli increase |
| Lc.MultiplierInRange | gcl/gmp4/randlc2s.c:30 | the multiplier is from 0.01 to 0.99 of the modulus, for a scheme whose first seven digits say so |
| Lc.TableLeads | gcl/gmp4/randlc2s.c:30-62 | the first seven digits of every entry of the table do |
| Lc.HexRestores | gcl/gmp4/randlc2s.c:78 | reading a number printed in base 16 gives it back |
| Lc.HexReads | gcl/gmp4/randlc2s.c:78 | printing the number read from digits gives back the digits, so no other number has them |
| Lc.InitLc2expSize | gcl/gmp4/randlc2s.c:64-82 | succeeds exactly for sizes up to 128, with the first scheme whose upper half has the bits, whose multiplier is 5 modulo 8 and from 0.01 to 0.99 of the modulus, and with full period |
| Mt.RecalcBuffer | gcl/gmp4/randmt.c:158-177 | the three in-place phases give the next 624 terms of the recurrence |
| Mt.WindowContinues | gcl/gmp4/randmt.c:158-177 | the sequence of a window of 624 terms is the sequence it was taken from, so any number of regenerations stays on it |
| Mt.Recurrence | gcl/gmp4/randmt.c:158-177 | term n + 624 is mixed from the terms n + 397, n and n + 1 |
| MtBits.MixLinear | gcl/gmp4/randmt.c:166-167 | mixing is linear over bitwise addition |
| MtBits.MixColumns | gcl/gmp4/randmt.c:166-167 | the first word enters as it is, the second by its top bit, at bit 30 |
| MtBits.MixLow | gcl/gmp4/randmt.c:166-167 | the third enters one place lower, and an odd one adds 0x9908B0DF; with linearity and `MixTop` that is every bit of the result |
| Mt.MixIsMixBits | gcl/gmp4/randmt.c:166-167 | that is what happens to the words of the buffer |
| MtBits.TemperLinear | gcl/gmp4/randmt.c:207-210 | tempering is linear over bitwise addition |
| MtBits.TemperColumns | gcl/gmp4/randmt.c:207-210 | its values on the 32 single bits, in figures; with linearity they are all of it |
| Mt.TemperIsTemperBits | gcl/gmp4/randmt.c:207-210 | that is what happens to the words that are given out |
| Mt.MtState.NextRandom | gcl/gmp4/randmt.c:199-213 | gives the tempered next term and moves on by one, regenerating when the buffer is used up |
| Mt.RandGet32 | gcl/gmp4/randmt.c:223-233 | the 32-bit path delivers the consecutive words cut to nbits, consumes ceil(nbits/32) of them, and writes no further limb |
| Mt.RandGet64 | gcl/gmp4/randmt.c:236-263 | the 64-bit path delivers the same number and consumes the same words |
| Mt.RandomSplit | gcl/gmp4/randmt.c:216-220 | asking for whole words first and for the rest afterwards gives the same bits |
| MtSeed.Fold | gcl/gmp4/randmts.c:44-51 | folding the part above 2^n lowers r and keeps it modulo 2^n - k |
| MtSeed.Reduce | gcl/gmp4/randmts.c:43-51 | the folding loop ends with r below 2^n |
| MtSeed.MangleSeed | gcl/gmp4/randmts.c:25-65 | r < 2^n and r = b^e modulo 2^n - k, for all n, 0 < k < 2^n and every e whose top bit is twice the starting bit |
| MtSeed.SeedNumber | gcl/gmp4/randmts.c:98-117 | the power of seed mod (2^19937 - 20027) + 2, modulo 2^19937 - 20023, for seeds of either sign |
| MtSeed.SeedsAlikeIff | gcl/gmp4/randmts.c:90-96 | two seeds are reduced to the same number exactly when they differ by a multiple of 2^19937 - 20027 |
| MtSeed.FillBuffer | gcl/gmp4/randmts.c:119-131 | the buffer holds the number, all 19937 bits of it |
| MtSeed.RandSeedMt | gcl/gmp4/randmts.c:98-142 | after seeding, the next word is number 2000 of the sequence of 624-word windows that starts with that buffer, which holds the power of the reduced seed in 19937 bits |
| TmpModel.GrownFits | gcl/gmp4/tal-notreent.c:56-87 | a new chunk always has room for the request, and the total stays at most the maximum |
| TmpModel.GrowthOfTotals | gcl/gmp4/tal-notreent.c:66-81 | with a new chunk the total is the maximum, and the chunk has just that much room; the maximum stays where the request fits below it, and else becomes three halves of what is needed, rounded up to the alignment |
| TmpModel.AllocKeepsGood | gcl/gmp4/tal-notreent.c:46-93 | a new block, be it empty, is aligned, inside its chunk and disjoint from all live blocks |
| TmpModel.InitialInv | gcl/gmp4/tal-notreent.c:34-38 | the static header alone, with totals of zero, satisfies the invariant |
| TmpModel.RunKeepsInv | gcl/gmp4/tal-notreent.c:46-119 | over every nested run live blocks are disjoint, aligned and inside their chunks, and the total is the sum of the chunk payloads and at most the maximum |
| TmpModel.MarkReleaseRestores | gcl/gmp4/tal-notreent.c:95-119 | mark, any nested run, release: chunks, allocation points, total and live blocks are those from before |
| TmpAllocator.Allocator.Alloc | gcl/gmp4/tal-notreent.c:46-93 | the code on linked chunk headers performs that allocation step, and returns its block |
| TmpAllocator.Allocator.FreeTo | gcl/gmp4/tal-notreent.c:105-119 | popping linked chunk headers down to the mark performs that release step |
| TmpAllocator.Allocator.Mark | gcl/gmp4/tal-notreent.c:95-103 | the mark is the current chunk and its allocation point |
| Merge.ScanFindsFirst | gcl/merge.c:352-390 | without unquoting a search fails exactly when the pattern does not occur, and else passes over exactly the text before its first occurrence |
| Merge.UnquoteRestores | gcl/merge.c:151-165 | reading a quoted text up to the delimiter restores the text and stops behind the delimiter |
| Merge.OtherRestores | gcl/merge.c:151-165 | so does reading it up to the other delimiter that is accepted |
| Merge.ChangeDelimiters | gcl/merge.c:195-198 | the delimiters of change files meet the conditions of that round trip, and those that are searched for without pushback the condition of that search |
| Merge.Source.MyUngetc | gcl/merge.c:340-353 | a character pushed back is the next one read |
| Merge.Source.SearchForString1 | gcl/merge.c:355-390 | the search with pushback finds what the scan finds, leaves the stream behind it with nothing pushed back, and never holds more than one character less than the pattern |
| Merge.Source.SSearchForString1 | gcl/merge.c:398-430 | the search without pushback, for any delimiter: it passes over text as that strategy does, and returns the last character read, which is that of the delimiter or the one accepted in its place |
| Merge.SkimIsScan | gcl/merge.c:398-430 | for a delimiter whose first character does not recur, that finds the same as the search with pushback, unquoting and alternatives included |
| Merge.SkimFindsEither | gcl/merge.c:398-430 | in plain words: with or without unquoting it fails exactly when neither delimiter occurs in the text, and else ends behind the first occurrence of either, having passed over just the text before it |
| Merge.SkimIsScanIff | gcl/merge.c:413-428 | without those, it finds the first occurrence in every text exactly when every repeated beginning inside the delimiter goes on alike |
| Merge.MissedText | gcl/merge.c:413-428 | a text whose only delimiter is missed, for every other delimiter |
| Merge.ScanMismatch | gcl/merge.c:413-428 | going on with the character that did not fit skips no occurrence |
| ExtractDouble.Normalize64 | gcl/gmp4/extract-dbl.c:64-85 | mantissa with its top bit set and exponent stand for the number, denormals included; the shift loop ends |
| ExtractDouble.Normalize32 | gcl/gmp4/extract-dbl.c:86-104 | the same with the mantissa in two words |
| ExtractDouble.ExtractDouble64 | gcl/gmp4/extract-dbl.c:155-172 | for every finite double d >= 0, d = value(rp) 2^(64 (exp - 2)) exactly, with two 64-bit limbs of which the high one is not zero, or all zero for d = 0 |
| ExtractDouble.ExtractDouble32 | gcl/gmp4/extract-dbl.c:224-238 | the same number as value(rp) 2^(32 (exp - 3)) with three 32-bit limbs, normalized in the same way |
| ExtractDouble.TwoLimbsUnique | gcl/gmp4/extract-dbl.c:155-172 | a nonzero double has only one such decomposition into two limbs and an exponent |
| ExtractDouble.ThreeLimbsUnique | gcl/gmp4/extract-dbl.c:224-238 | and only one into three |
| ExtractDouble.ShiftIntoThree | gcl/gmp4/extract-dbl.c:226-231 | the shifted mantissa is split over three limbs without loss |

## Left out

- Sockets, `select`, fork, retries, timeouts, the clear-connection message and the flush on a bad
  magic number, which discards bytes on purpose. Running into a write timeout is the `Aborted` status.
- Connection.ConnectionState.Read1: that a reader is served at all, since reads may give nothing for
  ever; the contracts say what must have happened when it is not.
- Connection.ConnectionState.MakeRoom: `read_buffer` is a sequence field and not an array, because the
  source replaces it; uninitialized memory is arbitrary bytes from a method. Pointer aliasing between
  old and new buffers is not captured.
- Counters of the protocol and sizes of bignums are unbounded integers; overflow of `int` is not modelled.
- Framing.MessagesUnique: messages whose body is empty are covered as streams, but the reader's call
  for 0 bytes forces another read, so settledness afterwards is only stated for non-empty bodies.
- `mpz_clear`, `mpz_popcount`, `mpz_get_str`, `mpz_out_str`, `mpz_preinv_invert`, the doubling of `pp`
  to `pp_norm`, the table of residues modulo 256, the fraction sort and the printing of the generators.
- GenMod.SortByDivisor: stands for the C library's `qsort`, of which only the outcome matters.
- Residues.TableEntry: the square of the divisor is below 2^31, the range in which the source's `int`
  products are defined; `Residues.IntProducts` says for which limb sizes all divisors are in it.
- GenMod.GenerateMod: which copies are doubled in pp, of several choices that fill it up.
- MpzDiv.Invert2exp: n = 0, where the source's assertion fails for every operand.
- Lc.LcState.Advance: `mpn_mul`, `__GMPN_ADD`, `mpn_rshift` and `mpz_fdiv_r_2exp` stand at their documented
  meaning, by the routines of the bignum model; the addend has one limb, as it does without nails.
- The concatenation of outputs in `randget_lc`, which the source itself marks as bogus.
- The fallback for other limb sizes in `randmt.c:267-340`, the default state and the copy functions.
- MtSeed.RandSeedMt: that 2^19937 - 20023 is prime, and so that seeds give distinct sequences.
- TmpModel.RunKeepsInv: the allocation function is a parameter of each step that needs memory, with the
  promise that its answer is aligned and overlaps no chunk in use; `unsigned long` does not overflow.
- Merge.Source.SearchForString1: after a failed search only the result is stated, not the output; the
  stray character it writes back at end of file is not modelled.
- Merge.Source.SSearchForString1: the output limit, which the source resets at every partial match.
- Characters outside ASCII, and the rest of the merge program.
- ExtractDouble.ExtractDouble64: infinities and NaNs, nails, other limb sizes and non-IEEE formats.
- Assembly for particular processors, `tal-reent.c`, `tal-debug.c`, `gen-fib.c`, `gen-bases.c`, ELF
  relocation, Tcl/Tk, BFD and Windows code.
