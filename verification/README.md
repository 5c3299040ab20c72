# Verified models of the PULP boot, transfer, memory and printing code

Five parts of the repository that move bytes and numbers around, modelled in Dafny
and proved correct as far as they are.

* **The allocator** (`kernel/alloc.c`). `Allocator.dfy` is the heap itself: an array of
  words with the chunk headers inside the free memory, a first-chunk pointer and the
  per-bank power counters, updated in place. `FreeList.dfy` is what the headers spell, an
  address-ordered list of chunks; the central fact is that the set of free bytes
  determines the list (`FreeList.Unique`), from which undoing, commuting and
  history-independence follow. `Headers.dfy` says which words each operation writes,
  `BankCounts.dfy` what a bank counter counts, `AlignedAlloc.dfy` what the aligned variant
  does and for which sizes, `AllocatorRuns.dfy` what every run keeps.
* **The XMODEM link**: the C receiver (`programs/xmodem-upload/xmodem.c`), the Python
  sender (`scripts/xmodem/__init__.py`) and the CRC-16 both use. `Crc*.dfy` connect the
  table loop, the bit-serial register and polynomial division over GF(2), and give the
  error detection of the code. `XmodemReceiver.dfy` and, with the start in
  `XmodemStart.dfy`, `XmodemSender.dfy` are the two ends, each a method with the source's
  loops proved against a specification; `XmodemControl.dfy` says what the control bytes do
  to the receiver, `XmodemLink.dfy` joins the specifications by a lossy line and
  `XmodemTransfer.dfy` holds the results over whole runs.
* **The printf engine** (`lib/libc/minimal/prf.c`, `memmove` in `lib/libc/minimal/io.c`)
  and the number parser that reads what it writes (`programs/uart-editor/strtol.h`).
  `PrfDivide`, `PrfValue`, `PrfScale`, `PrfDigits`, `PrfFloat` and `PrfAccuracy` follow a
  double from its bits to its text, with the error of every step, and `PrfRead` is a reader
  of such texts that the results are stated by; `PrfInteger`, `PrfConversion` and `PrfField`
  follow an integer into a justified field; `Strtol` and `PrintParse` read it back.
* **The boot image** (`scripts/convert_raw.c`). `BootImage.dfy` is the generator,
  `Rv32.dfy` an interpreter for the RV32I instructions it emits (sections 2.4 to 2.6 of the
  RISC-V Unprivileged ISA), and `BootRun`, `BootLoader`, `BootCopy` and `BootTransfer` run
  the image.
* **The flash image** (`bin/plp_flash_stimuli.py`, layout version 2, unencrypted).
  `FlashImage.dfy` is the writer with its buffer and cursor, `FlashReadBack.dfy` a reader
  and what it finds, `FlashLayout.dfy` what the header, the tables and the gaps say,
  `FlashCrc.dfy` the CRC-32 of the header and `FlashCrcDivision.dfy` that it is the
  remainder of a division.

Where the code does not do what one would expect, the exact condition under which it does:

* `pos_alloc_align` keeps the free list canonical if and only if the size is a multiple of
  8 (`AlignedAlloc.AlignCanonicalIff`); for every other size it frees a misaligned tail.
* A repeated block is acknowledged if and only if its number is not 255 and a retry is left
  (`XmodemTransfer.RepetitionAcknowledgedIff`): `packetno-1` is computed in `int`, so after
  the wrap no number is the one before, and a lost acknowledgement there ends the transfer.
  At any point of any run a transfer can still succeed if and only if the ends agree or
  such a repetition would be acknowledged (`XmodemTransfer.SuccessPossibleIff`).
* The boot image's copying loop leaves through its own size test if and only if the file's
  length is a positive multiple of four of at most 0x8038 (`BootTransfer.ImageLeavesIff`).
  Otherwise it stores over its own first instruction, and what happens is up to the word
  stored there (`BootTransfer.ImageOverruns`, `BootTransfer.OverrunMayBoot`).
* An integer conversion stays inside its buffer if and only if what stands before the
  digits and the digits asked for are at most 200 characters (`PrfConversion.TextFitsIff`); the
  test on the precision alone lets longer ones through (`PrfConversion.OverrunExamples`).
* The header of what is left of a chunk is written into a bank that is still off if and
  only if that bank lies in the chunk's body (`Allocator.Heap.NewHeaderOffIff`); no other
  write is.
* `%#x` with zero fill keeps its `x` if and only if the width is not the text's length plus
  one (`PrfField.PrefixKeptIff`). Altogether a field says its value if and only if zero fill
  does not take the mark of the base away or go before it, as it does for `%p` in every
  field wider than the text (`PrfField.FieldSaysIff`).
* A double is printed as the number it stands for, within the proved error, if and only if
  it is normal: below the normal numbers a leading 1 is added that they do not have
  (`PrfScale.MeantIffNormal`).
* An aligned allocation fails if and only if no chunk has room for the block, a whole
  alignment step and two headers (`AlignedAlloc.AlignFailsIff`), even where an aligned chunk
  of the block's size is free (`AlignedAlloc.AlignRefusesFit`).
* A flash image's component table reads back if and only if all component names are in
  ASCII (`FlashReadBack.CompsReadBackIff`): lengths count characters, names are written in
  UTF-8. `ustrtol` has three more such conditions (`PrintParse.DecimalBaseZeroIff`,
  `PrintParse.HexBaseSixteenIff`, and `PrintParse.ConversionReadBackIff`: no sign is read).

The comment on `pos_libc_ldiv5` speaks of testing; the model proves the division for every
input, and the wrap-around for the two largest (`PrfDivide.Ldiv5`).

## Model

| member | source | states |
|---|---|---|
| FreeList.FirstFit | kernel/alloc.c:201-204 | the chunk chosen is the first with enough bytes, and there is none exactly when every chunk is too small |
| FreeList.Below | kernel/alloc.c:301-304 | the place of a freed block is after exactly the chunks that start below it |
| FreeList.Unique | kernel/alloc.c:193-344 | two separated lists that cover the same bytes are the same list |
| FreeList.TakeCovers | kernel/alloc.c:208-236 | an allocation removes exactly its block's bytes from the free bytes |
| FreeList.TakeCanonical | kernel/alloc.c:208-236 | an allocation keeps the list ordered, coalesced, 8-aligned and inside the region |
| FreeList.TakeTotal | kernel/alloc.c:208-236 | the free total drops by exactly the block's size |
| FreeList.InsertCovers | kernel/alloc.c:306-343 | a free adds exactly its block's bytes to the free bytes, whichever neighbours it merges with |
| FreeList.InsertCanonical | kernel/alloc.c:306-343 | a free keeps the list ordered, fully coalesced, 8-aligned and inside the region |
| FreeList.InsertTotal | kernel/alloc.c:306-343 | the free total grows by exactly the block's size |
| FreeList.TakeThenInsert | kernel/alloc.c:193-344 | an allocation followed by its free restores the identical list |
| FreeList.InsertsCommute | kernel/alloc.c:293-344 | two blocks may be freed in either order with the same list as result |
| AlignedAlloc.AllocEffect | kernel/alloc.c:193-254 | fails exactly when no chunk is big enough; otherwise hands out an aligned stretch of free bytes and removes exactly it |
| AlignedAlloc.AllocLowest | kernel/alloc.c:201-204 | an allocation is served from the chunk at the lowest address among those that are big enough |
| AlignedAlloc.FreeEffect | kernel/alloc.c:293-344 | freeing bytes that are not free adds exactly those, rounded up to 8 |
| AlignedAlloc.CarveStart | kernel/alloc.c:272-285 | with 8-aligned chunks the lead is never too short to be a chunk, so the step to the next aligned address is never taken |
| AlignedAlloc.CarveEffect | kernel/alloc.c:272-290 | cutting an aligned block out of a bigger one leaves everything but the block and the bytes past the freed tail |
| AlignedAlloc.AlignBytes | kernel/alloc.c:256-291 | for every size: the result is aligned, and what leaves the free bytes is the block and the bytes lost between the tail and the rounded end |
| AlignedAlloc.AlignEffect | kernel/alloc.c:256-291 | for sizes that are multiples of 8 exactly the block leaves the free bytes and the list stays canonical |
| AlignedAlloc.AlignCanonicalIff | kernel/alloc.c:287-288 | the list stays canonical if and only if the size is a multiple of 8 |
| AlignedAlloc.AlignFailsIff | kernel/alloc.c:259-270 | an aligned allocation fails if and only if every chunk is smaller than the block, the alignment and 16 bytes together, rounded up to 8 |
| AlignedAlloc.AlignRefusesFit | kernel/alloc.c:259-270 | so 24 bytes at an alignment of 64 are refused with a free chunk of 24 bytes at address 64 |
| AlignedAlloc.AlignedTailCounterexample | kernel/alloc.c:287-288 | 12 bytes at an alignment of 8 leave a free chunk at address 20 |
| AlignedAlloc.EndsFreeable | kernel/alloc.c:276-288 | the lead and the tail are blocks that may be freed one after the other, and no other byte becomes free |
| BankCounts.TakeBody | kernel/alloc.c:217-242 | an allocation's accounting calls charge every bank what leaves its free bytes less headers |
| BankCounts.InsertBody | kernel/alloc.c:311-342 | a free's accounting calls credit every bank what joins its free bytes less headers, in all four merge cases |
| BankCounts.FullWindow | kernel/alloc.c:120-123 | a bank whose count is its size has only free bytes and no header byte |
| BankCounts.WindowFull | kernel/alloc.c:120-123 | and conversely |
| BankCounts.BodyBound | kernel/alloc.c:95-136 | no bank's count exceeds its size |
| Headers.TakeSpelled | kernel/alloc.c:227-235 | the words written when a chunk is shrunk make memory spell the new list |
| Headers.TakeWholeSpelled | kernel/alloc.c:208-215 | the word written when a whole chunk goes makes memory spell the new list |
| Headers.InsertSpelled | kernel/alloc.c:306-343 | the words written by a free make memory spell the new list, in all four merge cases |
| Headers.InsertWritesIn | kernel/alloc.c:306-343 | a free writes only in bytes that are free afterwards |
| Allocator.Heap.AccountBank | kernel/alloc.c:109-123 | one bank's counter moves by its share and is flagged exactly when it reaches or leaves the bank size |
| Allocator.Heap.Account | kernel/alloc.c:96-136 | every bank's counter moves by its share of the stretch, and one request names exactly the banks that reached or left the bank size, if any |
| Allocator.Heap.AccountAlloc | kernel/alloc.c:139-147 | with tracking on, counters go down and the banks off stay those with a full counter; with it off, nothing happens |
| Allocator.Heap.AccountFree | kernel/alloc.c:149-157 | the same, counting up |
| Allocator.Heap.Init | kernel/alloc.c:178-191 | one chunk of all the aligned bytes, a valid heap from 8 of them on; what is left of the header for fewer; no power request and no change of the banks that are off |
| Allocator.Heap.Info | kernel/alloc.c:49-73 | the walk returns the total of the free chunks, the first one and their number |
| Allocator.Heap.FindFit | kernel/alloc.c:197-204 | the walk over the headers stops at the first fit and its predecessor |
| Allocator.Heap.TakeChunk | kernel/alloc.c:208-221 | the whole chunk leaves the list, and heap, headers and counters stay valid |
| Allocator.Heap.ShrinkChunk | kernel/alloc.c:224-244 | the chunk's beginning leaves the list, heap, headers and counters stay valid, and the only writes into banks that are off are those of the new header |
| Allocator.Heap.Alloc | kernel/alloc.c:193-254 | the result is the lowest address of a chunk that is big enough and the new list the specification's, failure changes nothing, only words in free bytes are written, into banks that are off only a new header; every power request switches on banks that were off, and all of those that the call switches on, and there is none without tracking |
| Allocator.Heap.FindGap | kernel/alloc.c:298-304 | the walk stops between the chunks around the freed block |
| Allocator.Heap.Refund | kernel/alloc.c:311-342 | the accounting of a free brings the counters to the new list |
| Allocator.Heap.WriteFreed | kernel/alloc.c:306-341 | the header writes of a free, in all four merge cases |
| Allocator.Heap.Free | kernel/alloc.c:293-344 | the new list is the specification's, the heap stays valid, only words in bytes free afterwards are written, and none in a bank that is off; every power request switches off banks that were on, and all of those that the call switches off, and there is none without tracking |
| Allocator.Heap.AllocAlign | kernel/alloc.c:256-291 | the new list and the result are the specification's, failure changes nothing, only words in bytes free before are written, and into banks that are off only the new header of the bigger allocation; the power requests are those of an allocation and then of frees |
| Allocator.Heap.NewHeaderOffIff | kernel/alloc.c:228-242 | a new header's byte is in a bank that is off, when it is written, if and only if the bank lies in the body of the chunk that is cut |
| Allocator.Heap.OnHeader | kernel/alloc.c:120-135 | a header that is there is in banks that are on |
| Allocator.Heap.OnBlock | kernel/alloc.c:306-319 | so is a block that is to be freed, whose header a free writes before the accounting |
| AllocatorRuns.DarkHeap | kernel/alloc.c:228-242 | a heap with four banks in which an allocation of 24 bytes writes its new header, at 40 and 44, into the second bank while it is off |
| Allocator.Heap.BeginTracking | kernel/alloc.c:149-157 | accounting every chunk's body as free, from counters of zero, gives a valid heap with power tracking on, and the requests switch off exactly the full banks |
| AllocatorRuns.StepInv | kernel/alloc.c:193-344 | every operation keeps: live blocks disjoint, aligned, inside; every byte of the region free or live and not both; free plus live is the region |
| AllocatorRuns.RunInv | kernel/alloc.c:193-344 | so does every run |
| AllocatorRuns.LiveFreeable | kernel/alloc.c:293-299 | in every run a block that was handed out meets what a free of it demands |
| AllocatorRuns.HistoryIndependent | kernel/alloc.c:193-344 | the free list depends only on which bytes are live |
| AllocatorRuns.AllReleased | kernel/alloc.c:178-344 | after any run that gives every block back, in any order, the list is the single first chunk |
| AllocatorRuns.LiveUntouched | kernel/alloc.c:193-344 | a call that writes only in free bytes changes no word of a live block |
| AllocatorRuns.OffBankIdle | kernel/alloc.c:96-136 | in a valid heap a bank is off exactly when all its bytes are free and none is a header's, so it holds no live byte |
| Crc.CrcConcat | scripts/xmodem/__init__.py:663-677 | a checksum may be computed piece by piece |
| Crc.RegisterByte | programs/xmodem-upload/crc16.c:67-74 | eight message bits through the register are eight shifts with the byte laid over the top half |
| CrcTable.TableIsShift | programs/xmodem-upload/crc16.c:32-65 | all 256 table entries are their index shifted through the register |
| CrcTable.TableStepIsShift | programs/xmodem-upload/crc16.c:72 | one step of the table loop is eight steps of the register |
| CrcTable.Crc16Ccitt | programs/xmodem-upload/crc16.c:67-74 | the table loop computes the bit-serial CRC, from any start value |
| CrcDivision.CrcIsRemainder | programs/xmodem-upload/crc16.c:67-74 | the CRC is the remainder of schoolbook division by x^16 + x^12 + x^5 + 1 |
| CrcDetects.ResidueZero | programs/xmodem-upload/xmodem.c:97-100 | running over the two checksum bytes leaves zero exactly when they are the CRC |
| CrcDetects.AcceptsIsResidue | programs/xmodem-upload/xmodem.c:94-101 | a frame is accepted exactly when its register ends at zero |
| CrcDetects.SentFrameAccepted | scripts/xmodem/__init__.py:383-391 | the sender's checksum layout is always accepted by the receiver |
| CrcDetects.RegisterAdd | programs/xmodem-upload/crc16.c:67-74 | the register of two messages' difference is the difference of their registers |
| CrcDetects.BurstDetected | programs/xmodem-upload/xmodem.c:94-101 | an accepted frame changed within 16 neighbouring bits, anywhere, is rejected |
| CrcDetects.AdjacentBytesDetected | programs/xmodem-upload/xmodem.c:94-101 | in particular in two adjacent bytes, at any position in a block of any length |
| XmodemReceiver.CheckBuffer | programs/xmodem-upload/xmodem.c:94-113 | the check is the CRC comparison, or the byte sum comparison |
| XmodemReceiver.Await | programs/xmodem-upload/xmodem.c:126-149 | the inner loop ends as the specification does: at a packet, an end of transmission, two cancels, or the end of the input; what each of them does is said by the XmodemControl rows |
| XmodemReceiver.Store | programs/xmodem-upload/xmodem.c:168-177 | what fits of a payload is stored behind what is there |
| XmodemReceiver.TakePacket | programs/xmodem-upload/xmodem.c:165-188 | accept, acknowledge again, give up or refuse, as specified |
| XmodemReceiver.Receive | programs/xmodem-upload/xmodem.c:115-190 | on every input the outcome, the bytes sent and the buffer are those of the function that the XmodemControl, XmodemReceiverSafety and XmodemLink rows are about |
| XmodemReceiverSafety.ServeOk | programs/xmodem-upload/xmodem.c:115-190 | on every input: the packet number counts the accepted payloads modulo 256, the buffer holds them as far as they fit and is otherwise untouched, and it gives up exactly after 24 duplicates in a row |
| XmodemReceiverSafety.StoreFills | programs/xmodem-upload/xmodem.c:169-174 | storing extends the filled part by what fits |
| XmodemControl.AsksForCrc | programs/xmodem-upload/xmodem.c:120-128 | before anything is heard the receiver asks with the byte 0x43, and again for every second of silence and every byte of noise, and sends nothing else |
| XmodemControl.NoisePasses | programs/xmodem-upload/xmodem.c:126-149 | in every state silence and noise bring out one start character each, while there is one, and change nothing else |
| XmodemControl.EndFinishes | programs/xmodem-upload/xmodem.c:136-138 | an end of transmission is acknowledged and ends the reception with the bytes received |
| XmodemControl.AbortCancels | programs/xmodem-upload/xmodem.c:139-144 | in every state hearing the two cancels of the sender's abort ends the reception as cancelled, with one acknowledgement more and nothing else changed, whatever follows |
| XmodemControl.LoneCancelPasses | programs/xmodem-upload/xmodem.c:139-145 | a cancel before anything else takes that along, and the receiver goes on waiting |
| XmodemControl.CancelledByTwo | programs/xmodem-upload/xmodem.c:126-149 | on every input a reception is cancelled only by two cancels in a row |
| XmodemControl.CancelledIff | programs/xmodem-upload/xmodem.c:126-149 | while no packet and no end of transmission comes it is cancelled if and only if two cancels come in a row |
| XmodemControl.CollectTakes | programs/xmodem-upload/xmodem.c:161-163 | inside a packet the receiver takes the next bytes, as many as it wants, whatever time-outs come between them |
| XmodemStart.StartLoop | scripts/xmodem/__init__.py:268-305 | the start sequence ends as specified, after at most retry + 1 replies |
| XmodemStart.StartIff | scripts/xmodem/__init__.py:268-305 | for every outcome, if and only if: the first reply that decides is a C and the mode is CRC, or a NAK and it is the byte sum, or an EOT or a second cancel and send gives up quietly; or no reply decides within the tries and send aborts |
| XmodemSender.MakeChecksum | scripts/xmodem/__init__.py:383-391 | the checksum bytes are the CRC high byte first, or the byte sum |
| XmodemSender.SendBlock | scripts/xmodem/__init__.py:325-349 | one block goes out until it is acknowledged or the retries are used up |
| XmodemSender.SendEot | scripts/xmodem/__init__.py:351-368 | so does the end of transmission |
| XmodemSender.Send | scripts/xmodem/__init__.py:255-371 | against every sequence of replies: the result and everything put on the wire are the specification's, it halts, and in the mode that the first deciding reply asks for everything on the wire is a block of the file in that mode, an end of transmission or a cancel |
| XmodemSender.BlockSentAs | scripts/xmodem/__init__.py:320-328 | a block goes out as 0x01 or 0x02, its number modulo 256, the complement, its data, and two bytes that the receiver's CRC check accepts, or one byte with the sum of the data modulo 256 |
| XmodemSender.ByteSumTotal | scripts/xmodem/__init__.py:647-659 | the one-byte checksum is the sum of the bytes modulo 256 |
| XmodemSender.RestInMode | scripts/xmodem/__init__.py:307-371 | whatever the replies, everything on the wire is a block so sent in the run's mode or an end of transmission |
| XmodemSender.SentUntilAnswered | scripts/xmodem/__init__.py:325-349 | a block goes out until the first acknowledgement, when that comes within the tries, and then it is the next one's turn with all tries before it |
| XmodemSender.SentUntilGivenUp | scripts/xmodem/__init__.py:340-349 | without one it goes out exactly retry + 1 times and the transfer has failed |
| XmodemSender.SendsBounded | scripts/xmodem/__init__.py:307-368 | each block, and the end of transmission, goes out at most retry + 1 times, and no block after a later one |
| XmodemSender.BlocksSpellFile | scripts/xmodem/__init__.py:312-321 | the blocks spell the file, with less than a block of padding behind |
| XmodemLink.NewBlockStored | programs/xmodem-upload/xmodem.c:165-185 | an intact packet with the expected number is stored and acknowledged |
| XmodemLink.OldBlockAnswered | programs/xmodem-upload/xmodem.c:165-188 | an intact repetition is acknowledged and not stored, but refused when the expected number is 0 |
| XmodemLink.DamagedRefused | programs/xmodem-upload/xmodem.c:165-188 | a packet whose damage shows is refused |
| XmodemLink.ExchangeOk | programs/xmodem-upload/xmodem.c:115-190 | every exchange over the line keeps the two ends in step |
| XmodemTransfer.RunInStep | scripts/xmodem/__init__.py:307-371 | in every run the accepted blocks are the first blocks of the file, and lead the acknowledged ones by none or one, across every wrap |
| XmodemTransfer.SuccessMeansDelivered | scripts/xmodem/__init__.py:370-371 | when send returns True the receiver has returned normally and its buffer holds the padded file, cut at its size, and is otherwise untouched |
| XmodemTransfer.FailureCancels | scripts/xmodem/__init__.py:215-225 | when send gives up and its two cancels reach a receiver that still runs, the receiver ends as cancelled, with the first blocks of the file in its buffer and the rest of it untouched |
| XmodemTransfer.RunThenServe | programs/xmodem-upload/xmodem.c:115-190 | whatever reaches the receiver after a run is served from the state the run has left it in |
| XmodemTransfer.RunIsServe | programs/xmodem-upload/xmodem.c:115-190 | the receiver's state after a run is what it computes from all the bytes heard, taken as one input |
| XmodemTransfer.RunIsSend | scripts/xmodem/__init__.py:268-371 | when the first reply that decides is the byte the receiver asks with before it hears anything, and the replies from then on are a run's, send starts in CRC mode, puts exactly the run's transmissions on the wire, and succeeds if and only if the run ends in success |
| XmodemTransfer.GoodLineSucceeds | scripts/xmodem/__init__.py:312-371 | from every point of every run where the receiver runs and the ends agree, or the owed repetition would be acknowledged, an undisturbed line brings success |
| XmodemTransfer.RepetitionAcknowledgedIff | programs/xmodem-upload/xmodem.c:166-178 | a repetition is acknowledged exactly when its number is not 255 and a retry is left |
| XmodemTransfer.HopelessNeverSucceeds | programs/xmodem-upload/xmodem.c:165-188 | from every other point no continuation succeeds, however good the line |
| XmodemTransfer.SuccessPossibleIff | programs/xmodem-upload/xmodem.c:115-190 | so at any point of any run a transfer can still succeed if and only if the receiver runs and either the ends agree or the block to repeat is not numbered 255 and a retry is left |
| XmodemTransfer.LostAckAtWrapIsFatal | programs/xmodem-upload/xmodem.c:166 | once the acknowledgement of a block numbered 255 is lost no continuation succeeds |
| XmodemTransfer.WrapFails | programs/xmodem-upload/xmodem.c:166 | with 255 blocks or more and a retry allowed, 254 undisturbed exchanges and one lost acknowledgement are a run that leads there, and whatever follows fails |
| XmodemReceiverSafety.SeqNoCounts | programs/xmodem-upload/xmodem.c:175 | the sequence number is the number of the block modulo 256 |
| XmodemTransfer.BurstShows | programs/xmodem-upload/xmodem.c:94-101 | a burst of at most 16 bits in the data or checksum of a packet always shows |
| PrfDivide.DivideStep | lib/libc/minimal/prf.c:161-165 | one 32-bit partial division: the narrowing loses nothing and the quotient is the floor at its shift |
| PrfDivide.Ldiv5 | lib/libc/minimal/prf.c:150-169 | three 32-bit divisions make floor((v + 2) / 5) for all 64-bit v up to 2^64 - 3, and 0 for the two beyond |
| PrfDivide.Rlrshift | lib/libc/minimal/prf.c:130-133 | half, a half rounded up |
| PrfValue.HalveValue | lib/libc/minimal/prf.c:278-279 | halving with the exponent going up adds at most one unit to the number |
| PrfValue.FiveValue | lib/libc/minimal/prf.c:281-283 | multiplying by five against 2/10 leaves the number as it is |
| PrfValue.FifthValue | lib/libc/minimal/prf.c:292-294 | dividing by five against 10/2 moves the number by at most two units |
| PrfScale.DropToFifth | lib/libc/minimal/prf.c:277-280 | two or three halvings make room for a multiplication by five |
| PrfScale.Normalise | lib/libc/minimal/prf.c:285-288 | doubling until the top bit is set leaves the number as it is |
| PrfScale.ScaleUp | lib/libc/minimal/prf.c:276-289 | the fraction stays in [2^63, 2^64) with room for the division, five times it never overflows, the exponent rises by at least 3 a turn; error k * 2^-55 |
| PrfScale.ScaleDown | lib/libc/minimal/prf.c:291-299 | the same for the second loop, whose divisions meet the condition of Ldiv5; the exponent ends in [-3, 0] |
| PrfScale.Settle | lib/libc/minimal/prf.c:301-304 | the last halvings leave a 60-bit fraction between 1/10 and 1 |
| PrfScale.Scale | lib/libc/minimal/prf.c:275-304 | the whole phase is off by at most (k + 1) * 2^-55 of the number, k the turns of the first two loops, which the decimal exponent gives |
| PrfScale.StartIsDouble | lib/libc/minimal/prf.c:222-263 | the fraction and exponent it starts from are the double's value |
| PrfScale.MeantIffNormal | lib/libc/minimal/prf.c:222-263 | that value is the number the double stands for if and only if the double is normal; below, it is greater |
| PrfDigits.GetDigit | lib/libc/minimal/prf.c:171-183 | the next decimal digit, and the fraction that is left |
| PrfDigits.DigitsAreFloor | lib/libc/minimal/prf.c:344-369 | the first n digits spell floor(fract * 10^n / 2^60), for n up to 16 |
| PrfDigits.HalfUnitExact | lib/libc/minimal/prf.c:331-335 | the rounding term is half a unit of the last place, off by at most 2^-60 |
| PrfDigits.RoundingTerm | lib/libc/minimal/prf.c:331-335 | the loop computes that term |
| PrfDigits.RoundsPlain | lib/libc/minimal/prf.c:337-342 | without a carry the digits are within 6/10 of a unit of the scaled fraction |
| PrfDigits.CarryDigits | lib/libc/minimal/prf.c:338-342 | after a carry they are a one and zeros |
| PrfDigits.CarryRounds | lib/libc/minimal/prf.c:338-342 | a carry happens only within 6/10 of a unit of 1 |
| PrfFloat.WriteFixed | lib/libc/minimal/prf.c:344-360 | the loops of the f style write the specified text |
| PrfFloat.WriteScientific | lib/libc/minimal/prf.c:361-388 | those of the e style do, and a leading zero leaves the exponent as it is |
| PrfFloat.FirstDigit | lib/libc/minimal/prf.c:362-364 | the leading digit of a rounded number is not zero |
| PrfRead.ReadParts | lib/libc/minimal/prf.c:344-388 | a reader that knows only the notation finds sign, whole part, point, decimals and power in every text put together from them |
| PrfRead.ExponentReads | lib/libc/minimal/prf.c:378-388 | a printed power of two digits reads as the decimal exponent, with its sign, and one of 100 or more does not read at all |
| PrfRead.FixedParts | lib/libc/minimal/prf.c:344-360 | an f-style text reads as its sign, its whole part and as many decimals as asked for, with a point when there are decimals or it is asked for |
| PrfRead.ScientificParts | lib/libc/minimal/prf.c:361-388 | an e-style text reads as its sign, one digit, its decimals and its power, exactly when the power is below 100 and above -100 |
| PrfRead.ZeroParts | lib/libc/minimal/prf.c:306-388 | zero reads as zeros, with a power of zero in the e style |
| PrfAccuracy.PlainNumber | lib/libc/minimal/prf.c:326-369 | the digits asked for, zeros past the sixteenth included, are the rounded fraction |
| PrfAccuracy.FixedWithin | lib/libc/minimal/prf.c:321-360 | an f-style text denotes a number within 6/10 of its last rounded place of the scaled one |
| PrfAccuracy.ScientificWithin | lib/libc/minimal/prf.c:325-388 | so does an e-style text |
| PrfAccuracy.FixedPrints | lib/libc/minimal/prf.c:267-360 | the number read from an f-style text is within 6/10 of its last place, or of its sixteenth digit's, of a number as close to the signed double as the scaling leaves it, and sign, point and decimals are as the flags ask |
| PrfAccuracy.ScientificPrints | lib/libc/minimal/prf.c:267-388 | so is that read from an e-style text; one that cannot be read is of a number above 10^98 or below 10^-98 |
| PrfAccuracy.ToFloat | lib/libc/minimal/prf.c:210-392 | end to end, in e, E, f and F: the text of every normal double is read back, sign and power included, as a number within 6/10 of the last place of one within (k + 1) * 2^-55 of the signed double, k the decimal exponent, or its negative and at most two; zero reads as zero without a minus; subnormal numbers are printed as if normal; infinity and not a number are spelled out in the case of the conversion |
| PrfInteger.ReverseInPlace | lib/libc/minimal/prf.c:46-50 | the swap loop reverses exactly its part of the buffer |
| PrfInteger.ReverseAndPad | lib/libc/minimal/prf.c:36-52 | the digits come out reversed behind the zeros, with a terminator |
| PrfInteger.WriteDigits | lib/libc/minimal/prf.c:62-67 | the loop writes the numeral backwards |
| PrfInteger.ToX | lib/libc/minimal/prf.c:58-69 | the exact numeral in the base, padded to the minimum length |
| PrfInteger.ToHex | lib/libc/minimal/prf.c:71-88 | the hexadecimal text, with 0x and in upper case where asked |
| PrfInteger.ToOctal | lib/libc/minimal/prf.c:90-103 | the octal text, with one leading zero where asked, also for zero |
| PrfInteger.ToDec | lib/libc/minimal/prf.c:110-128 | the signed decimal text, for the most negative value too; its sign and its value are said by PrfConversion.DecimalSign and PrfConversion.TextSays |
| PrfField.Memmove | lib/libc/minimal/io.c:154-185 | for every overlap the source bytes arrive unharmed and nothing else changes |
| PrfField.Justify | lib/libc/minimal/prf.c:656-673 | the in-place justification makes the specified field |
| PrfField.MadeAsMeant | lib/libc/minimal/prf.c:663-671 | a prefix of one character always survives the overlapping move |
| PrfField.PrefixKeptIff | lib/libc/minimal/prf.c:663-671 | a prefix of two survives if and only if the width is not one more than the text |
| PrfField.FieldSaysIff | lib/libc/minimal/prf.c:656-673 | the field is blanks around a sign or mark and digits that give the value, if and only if zero fill takes no mark away and goes before none |
| PrfField.LostPrefixExample | lib/libc/minimal/prf.c:663-671 | 0xab in five places comes out as 000ab |
| PrfConversion.Convert | lib/libc/minimal/prf.c:542-639 | each integer conversion leaves its text in the buffer |
| PrfConversion.TextSays | lib/libc/minimal/prf.c:542-639 | for every conversion, value, flag and precision the text is its sign or mark and then digits of the base, in the case asked for, that give the value in positional notation, at least as many as asked for and with no zeros beyond that |
| PrfConversion.DecimalSign | lib/libc/minimal/prf.c:118-125 | a signed decimal starts with a minus exactly when it is negative, and with a plus or a blank exactly when it is not and the flags say so |
| PrfConversion.HexInCase | lib/libc/minimal/prf.c:71-88 | %X has no lower-case and %x and %p no upper-case letter |
| PrfConversion.NumeralPositional | lib/libc/minimal/prf.c:58-69 | the digits made, in either case, give the number in positional notation, without a leading zero but for zero |
| PrfField.Format | lib/libc/minimal/prf.c:478-673 | for every call that fits the buffer, width and precision are clamped as written, the field is the specified one, as long as the longer of text and width, and says the value if and only if zero fill leaves the mark of the base |
| PrfConversion.TextFitsIff | lib/libc/minimal/prf.c:416-673 | the text and its terminator stay inside the buffer if and only if what stands before the digits and the digits asked for are at most MAXFLD characters |
| PrfConversion.TextLength | lib/libc/minimal/prf.c:542-639 | the length of the text is that of its prefix and of the digits made or asked for, whichever are more |
| PrfConversion.SmallPrecisionFits | lib/libc/minimal/prf.c:511-512 | a precision below MAXFLD fits without #, and one below MAXFLD - 1 always |
| PrfConversion.OverrunExamples | lib/libc/minimal/prf.c:511-512 | %+.200d and %#.199x of 1 pass the test on the precision and make 201 characters, one more than fits with the terminator |
| Numerals.WordNumeral | lib/libc/minimal/prf.c:62-67 | a 32-bit number has at most 32 digits in any base |
| PrfField.FieldShape | lib/libc/minimal/prf.c:656-673 | the field is as long as the longer of text and width, and is blanks and text, text and blanks, or sign, zeros and digits |
| Strtol.Ustrtol | programs/uart-editor/strtol.h:8-124 | on every C string and base the result and end are the specification's |
| PrintParse.NumeralReads | programs/uart-editor/strtol.h:92-115 | the digits of a number, in either case, read as that number |
| PrintParse.HexRoundTrip | programs/uart-editor/strtol.h:63-115 | every 32-bit number printed by %#x or %#X, zero-padded or not, is read back in base 0 |
| PrintParse.DecimalRoundTrip | programs/uart-editor/strtol.h:84-115 | every number printed by %u is read back in base 10 |
| PrintParse.DecimalBaseZeroIff | programs/uart-editor/strtol.h:63-88 | in base 0 a positive number is read back if and only if it was printed without leading zeros; else the result is 0 |
| PrintParse.OctalRoundTrip | programs/uart-editor/strtol.h:37-42 | every number printed by %#o is read back in base 8 |
| PrintParse.HexBaseSixteenIff | programs/uart-editor/strtol.h:43-62 | in base 16 %#x is read back if and only if its first digit is not a lower-case letter; else the result is 0 |
| PrintParse.BlankIsRead | programs/uart-editor/strtol.h:92-115 | a blank after a number counts as the digit -23 instead of ending it |
| PrintParse.AnyBaseReadBack | programs/uart-editor/strtol.h:26-115 | in every base from 2 to 36 the digits of a number of any size, in either case, with leading zeros and after blanks, newlines and carriage returns, are read to their end as the number modulo 2^32 |
| PrintParse.ConversionReadBackIff | programs/uart-editor/strtol.h:8-124 | what each conversion prints is read back as the value in its base if and only if it has no minus and no plus |
| PrintParse.LetterStops | programs/uart-editor/strtol.h:99-113 | reading stops before the first letter that is no digit of the base |
| PrintParse.OctalMarkReadBack | programs/uart-editor/strtol.h:37-72 | octal digits behind 0o or 0O are read back in base 8 and in base 0 |
| PrintParse.OtherFirst | programs/uart-editor/strtol.h:28-88 | with no digit of the base first the result is 0: at the end of the blanks for nothing and for letters, with no end for all other characters |
| PrintParse.BaseAcceptedIff | programs/uart-editor/strtol.h:10-14 | a base is accepted if and only if it is 0 or from 2 to 36 |
| Rv32.StoredExactly | scripts/convert_raw.c:16-23 | storing a list of words puts exactly that list in memory and leaves the rest as it was |
| BootImage.Writer.DataWrite | scripts/convert_raw.c:10-13 | one word is appended and counted |
| BootImage.Writer.WriteWordToRAM | scripts/convert_raw.c:16-23 | the five words of a block are appended |
| BootImage.Writer.WriteLoader | scripts/convert_raw.c:66-68 | the loader's twenty blocks are appended |
| BootImage.Writer.WriteFile | scripts/convert_raw.c:86-89 | the file is appended in whole words, a shorter rest dropped |
| BootImage.Writer.Convert | scripts/convert_raw.c:25-95 | the output is the image of the file |
| BootImage.ImageLayout | scripts/convert_raw.c:80-89 | the image is code, zeros up to 0x400, the size and the file's whole words |
| BootRun.Materialises | scripts/convert_raw.c:17-19 | lui and addi with the sign fix-up give every 32-bit word |
| BootRun.BlockWords | scripts/convert_raw.c:16-23 | the five words decode to lui, addi, nop, sw and addi |
| BootRun.RunBlock | scripts/convert_raw.c:16-23 | running a block stores its word at t1 and moves t1 on |
| BootRun.RunBlocks | scripts/convert_raw.c:66-68 | for every list of words, running its blocks stores exactly that list |
| BootLoader.LoaderCode | scripts/convert_raw.c:41-64 | the loader's words decode to the instructions in its comments |
| BootLoader.Delay | scripts/convert_raw.c:47-49 | the delay loop ends, after as many rounds as its counter says |
| BootLoader.Choose | scripts/convert_raw.c:50-53 | the selector's lowest bit chooses between two records 0x1000 apart |
| BootCopy.CopyTurns | scripts/convert_raw.c:57-61 | as long as the size test is not met before, every word goes to its place and no instruction is executed that the loop has stored |
| BootCopy.CopyRecord | scripts/convert_raw.c:57-61 | a record of a positive multiple of four bytes up to 0x8038 is copied, the last word possibly over the loop's first instruction, and the loop left |
| BootCopy.LeavesIff | scripts/convert_raw.c:57-61 | the loop leaves through its own size test, with no instruction executed that it has stored, if and only if the size is a positive multiple of four of at most 0x8038 |
| BootCopy.Overruns | scripts/convert_raw.c:57-61 | for every other size it overwrites its own first instruction and is about to execute what it has stored there |
| BootTransfer.LoaderRuns | scripts/convert_raw.c:41-64 | the loader copies the chosen record and jumps to the copy |
| BootTransfer.ChosenBoots | scripts/convert_raw.c:39-89 | running the image ends at the program the selector chooses, with memory exactly as described |
| BootTransfer.ImageBoots | scripts/convert_raw.c:39-89 | with the selector bit clear, for every file of a positive multiple of four bytes up to 0x8038, running the image from 0x1a000080 ends at 0x1c000000 with the file's words from there on |
| BootTransfer.ImageLeavesIff | scripts/convert_raw.c:39-89 | for every file, running the image comes to the copying loop, and the loop leaves through its own size test if and only if the length, in 32 bits, is a positive multiple of four of at most 0x8038 |
| BootTransfer.ImageOverruns | scripts/convert_raw.c:57-61 | for every other length, larger multiples of four included, it comes back to the loop's first instruction with word 0x200d behind the size stored there |
| BootTransfer.OverrunMayBoot | scripts/convert_raw.c:57-61 | what happens then is up to that word: if it is a jump to the loader's end the program is started all the same |
| FlashCrc.GetCrc | bin/plp_flash_stimuli.py:159-171 | the bit loop computes the checksum that FlashCrcDivision.Crc32IsRemainder is about |
| FlashCrcDivision.Crc32IsRemainder | bin/plp_flash_stimuli.py:159-171 | complemented and read from the lowest bit up, it is the remainder of schoolbook division of the message, read from the lowest bit of each byte up, with ones over its front and 32 places up, by x^32 + x^26 + x^23 + x^22 + x^16 + x^12 + x^11 + x^10 + x^8 + x^7 + x^5 + x^4 + x^2 + x + 1 |
| FlashCrcDivision.CrcIsRegister | bin/plp_flash_stimuli.py:161-169 | the loop over the bytes is a register fed with the message bit by bit |
| FlashCrcDivision.PolynomialBits | bin/plp_flash_stimuli.py:169 | the bits of 0xEDB88320 are the powers of that polynomial, from the lowest bit up |
| FlashCrc.OneByteShows | bin/plp_flash_stimuli.py:159-171 | headers that differ in exactly one byte have different checksums |
| FlashImage.Utf8 | bin/plp_flash_stimuli.py:374-378 | a character takes one byte exactly when it is in ASCII |
| FlashImage.Utf8Decoded | bin/plp_flash_stimuli.py:374-378 | the bytes of a character stand for it, the first one says how many they are |
| FlashImage.Writer.Pad | bin/plp_flash_stimuli.py:121-129 | zeros and the cursor go on together, but a negative count moves the cursor only |
| FlashImage.Writer.AppendInt | bin/plp_flash_stimuli.py:131-138 | four bytes are appended and the cursor goes on |
| FlashImage.Writer.AppendBuffer | bin/plp_flash_stimuli.py:174-194 | the buffer is padded to its offset and the data appended |
| FlashImage.Writer.PlanAreas | bin/plp_flash_stimuli.py:277-283 | offsets and block counts are those of one segment after the other |
| FlashImage.Writer.DumpFlashHeader | bin/plp_flash_stimuli.py:258-315 | header, area table, checksum and segments are the specified ones |
| FlashImage.Writer.DumpComps | bin/plp_flash_stimuli.py:330-384 | the component table and data are the specified ones |
| FlashImage.Writer.DumpToBuff | bin/plp_flash_stimuli.py:198-200 | the whole image is the specified one |
| FlashReadBack.SegmentsGrow | bin/plp_flash_stimuli.py:311-315 | the cursor stays equal to the buffer length while segments are written |
| FlashReadBack.BootReadBack | bin/plp_flash_stimuli.py:258-315 | the reader finds exactly the entry point and segments given, and the header passes its check, whatever the components |
| FlashReadBack.CompsReadBackIff | bin/plp_flash_stimuli.py:330-384 | the reader finds exactly the components given if and only if all names are in ASCII, and then the cursor equals the buffer length |
| FlashReadBack.RegionsApart | bin/plp_flash_stimuli.py:264-289 | header, segments, table and components lie one after the other without overlap, the table as long as its header says for names in ASCII, the components at multiples of four |
| FlashLayout.HeaderSays | bin/plp_flash_stimuli.py:258-300 | the header gives the boot address 0x1c000000, and for each segment a place at a multiple of the block size, behind the header or the blocks of the one before, and the least number of blocks that holds it |
| FlashLayout.TableStart | bin/plp_flash_stimuli.py:277-289 | the component table starts at the first multiple of eight behind the last segment's blocks |
| FlashLayout.TableLengthSaid | bin/plp_flash_stimuli.py:330-367 | with names in ASCII the table's first field is its length up to the end of its last entry |
| FlashLayout.GapsAreZero | bin/plp_flash_stimuli.py:115-129 | and every byte that belongs to nothing is zero |

## Left out

- Allocator.Heap.AllocAlign: is stated for sizes that are multiples of 8 from an alignment of 8 on; AlignedAlloc.AlignBytes and AlignedAlloc.AlignCanonicalIff say what the same steps do for all other sizes, where the heap invariant is lost.
- Allocator.Heap.Init: a region of less than 8 aligned bytes gets no valid heap, and the contract says what is left behind instead.
- Sizes of zero are not allocated or freed; for them the code shrinks a chunk by nothing.
- Rounding to a power of two by masks, in the allocator, the boot image and the flash image, is written arithmetically (`Bits.RoundUp`, `Bits.RoundDown`, remainders and products).
- A new header is written before its bank is accounted and powered up (`kernel/alloc.c:229-242`). The model's memory keeps what is written all the same; the writes into banks that are off are logged, and `Allocator.Heap.NewHeaderOffIff` says when there are any.
- The power controller is a log of requests and the set of banks off; `pos_alloc_power_ctrl` is not part of this model. A request names a set of banks, without the 32-bank limit of its mask.
- `pos_alloc_dump`, tracing, standby accounting (only called from disabled code) and the set-up in `kernel/alloc_pool.c:61-73`, which is preprocessed out and accounts 16 bytes more than the first chunk's body; `Allocator.Heap.BeginTracking` is what a set-up has to do.
- XMODEM timing, `_inbyte`, `_outbyte`, `uart_read` and the serial port: an input is a sequence of bytes and timeouts. The line is lock-step, no reply is in flight when the sender repeats itself, and no end of transmission, cancel or acknowledgement is forged.
- `xmodem.c:151-155` cannot be reached and is not modelled; the mode is always CRC, as the model proves.
- `XMODEM.recv` of the Python side, callbacks and logging.
- PrfAccuracy.ToFloat: does not cover the g style or the buffer's fixed length: the text grows as a sequence. For decimal exponents of 100 and more the first exponent character is, as in the code, not a digit. For a zero only the last of the three scaling loops is written out, the only one whose guard it meets.
- PrfField.Format: covers the integer conversions, for the calls that fit the buffer (`PrfConversion.Fits`); the others overrun it. Parsing of the format string, %c, %s, %n and the output callback are left out.
- Strtol.Ustrtol: the end position is -1 where the code does not set it; a null end pointer is not modelled.
- Rv32.Exec: has only the instructions the image uses; misaligned and unmapped accesses stop the machine, and the pads are plain words of memory.
- BootImage.Writer.WriteLoader: is stated for a byte count below 0x100, the only one it is called with; so are the parts of main after it for theirs.
- The boot image's bytes are modelled as words, and the file is opened and written by parameters.
- FlashImage.Writer.DumpToBuff: is stated for fields that fit 32 bits, where packing raises no exception; layout version 1, encryption, ELF reading and the stimuli formats of `generate` are left out. Dividing by the block size in floating point is exact and modelled as integer division.
