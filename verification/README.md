# Verified model of the Objective Open H.323 stack's core

This project models four parts of the H.323 stack and proves properties of them in Dafny.

**The suballocator** (`src/memheap.c`). A block is an array of eight-octet units in which headers and
payloads share memory, as in C; `MemBlock.MemBlk` edits it in place. `MemBlockModel.Inv` is the
invariant that the source checks in its debug build: headers tile the block up to free_x, each back
link reaches the header before, only the last element is marked LAST and it is not free, the free
list is exactly the free elements in address order, no two of them touch, and freeMem is the sum of
their sizes. `MemHeap.Heap` adds the list of standard and RAW blocks, the chain through the RAW ones
and the totals. `Heap.Owned()` maps every live pointer to its payload; all operations are specified
as what they do to that map. `MemHeapTheorems` and `MemBlockTheorems` hold what follows.

**The aligned PER codec** (`src/encode.c`, `src/decode.c`, ITU-T X.691). `PerSpec` says which bits each
encoder adds after `pos` bits and what each decoder reads at bit `pos`. `PerEncoder.Encoder` and
`PerDecoder.Decoder` are the buffers with their cursors (byteIndex, bitOffset); each method is proved
to do what `PerSpec` says. `PerRoundTrip` proves that decoding undoes encoding, with the exact
condition where it does not; `PerSizes` does so for size constraints of several ranges. `PerForms` says
which bits are sent, in the terms of X.691 and without the functions of `PerSpec`. `PerFields`
extends this to lists of mixed fields and to a message passed from one buffer to another. `Bits` has
the shifts, masks and bit strings.

**The list library** (`src/dlist.c`), with its pointers, in `DList`.

**Protocol bookkeeping**: the RAS client (`GkClient`, `GkTheorems`; section 7 of H.225.0), logical
channels (`LogChan`) and capability selection (`Capability`).

## Where the code falls short of its intent

Each of these is stated as an exact condition, with an input on which the code falls short.

- A string sent in fragments whose length is a multiple of 16384 has no closing length, and is never
  read back (`PerRoundTrip.StringTripsIff`, `PerRoundTrip.OneFragmentOnly`).
- Under a size constraint the last fragment of a long string is measured against the range for the
  whole: if it is short and in no range, a string of allowed length is refused at its very end
  (`PerRoundTrip.StringTripsIff`, `PerRoundTrip.RefusedAtTheEnd`).
- Under a constraint of several ranges the encoder goes by the length and the decoder by the
  extension bit (`PerSizes.LengthTripsIff`, `PerSizes.ReadInFirst`).
- The first two arcs of an object identifier are counted as one octet (`PerRoundTrip.OidTripsIff`,
  `PerRoundTrip.TwoOctetArcs`).
- An unsigned value out of bounds is encoded when the bounds are equal or the range is the largest
  unsigned number (`PerRoundTrip.UnsEncodes`, `PerRoundTrip.UnsTrip`, `PerRoundTrip.UnsOutOfBounds`).
- An empty string read into fresh memory is skipped by one octet, so it comes back exactly when its
  length takes one octet (`PerFields.DynTripsIff`); and its size constraint is left pending
  (`src/decode.c:557-561`), so the next length is read under it (`PerDecoder.Decoder.DecodeDynOctetString`).
- A rejected call leaves its timer running (`GkTheorems.RejectedWhileWaiting`).
- Outside the function that clears rivals, channels are established without regard to others of
  their session and direction (`LogChan.Call.SetState`, `LogChan.TwoEstablished`).
- A rival is cleared by its number, which the two ends choose on their own, so that another channel
  may go instead (`LogChan.Call.OnLogicalChannelEstablished`, `LogChan.WrongOneCleared`).
- A selected half-rate or enhanced GSM capability, or an H.263 one of a later format, fails the
  check for the offer it was selected for (`Capability.SelectThenCheckAudio`,
  `Capability.SelectThenCheckH263`).

## Model

| member | source | states |
|---|---|---|
| MemBlock.MemBlk.constructor | src/memheap.c:703-743 | a new block holds exactly one live element, of the size asked for, and keeps the block invariant |
| MemBlock.MemBlk.Append | src/memheap.c:582-632 | a slot taken at the end is a new live element at the old free_x; every other payload is unchanged; the block invariant holds |
| MemBlock.MemBlk.DropLast | src/memheap.c:857-896 | the last live element goes, with the free one before it if there is one; nothing else changes, and the element left last is never free |
| MemBlock.MemBlk.FreeInner | src/memheap.c:958-1024 | an inner element is released and joined with free neighbours on either side; the other payloads are unchanged and the invariant holds, so no two free elements touch |
| MemBlock.MemBlk.JoinBack | src/memheap.c:967-999 | joining backwards ends at the free neighbour if there is one and otherwise links the element into the free list behind the nearest earlier free element |
| MemBlock.MemBlk.JoinForward | src/memheap.c:1000-1018 | joining forwards swallows the next element if it is free and hands its free-list link on |
| MemBlock.MemBlk.SetLastElem | src/memheap.c:105-107 | the element before gets the LAST flag and lastElemOff points at it, or at nothing when there is none |
| MemBlock.MemBlk.MarkFree | src/memheap.c:513-533 | the element is marked free, and heads the free list when it is the first free one of the block; otherwise the head stays; an element marked LAST is left alone, and no element at all empties the list |
| MemBlock.MemBlk.InitNewFree | src/memheap.c:1027-1095 | a free element cut off inside a block enters the free list in address order, behind the nearest free element before it and ahead of the nearest one after it |
| MemBlock.MemBlk.ResizeLast | src/memheap.c:1176-1342 | the last element is resized in place; its first units and all other payloads are kept |
| MemBlock.MemBlk.ShrinkInner | src/memheap.c:1333-1356 | an inner element is cut down and the rest becomes free; its first units and all other payloads are kept |
| MemBlock.MemBlk.GrowInto | src/memheap.c:1201-1283 | an inner element takes over the free element after it, whole if no more than a header would be left and otherwise just the units asked for; its first units and all other payloads are kept |
| MemBlock.MemBlk.FirstFit | src/memheap.c:651-690 | the search finds the first free element that is large enough, and none before it is |
| MemBlock.MemBlk.TakeFree | src/memheap.c:643-686 | the first free element that fits is a new live element at its full size, every other payload is unchanged, and nothing is found only if no free element fits |
| MemBlock.MemBlk.SetSaved | src/memheap.c:1513-1526 | marking an element changes its flag and the count of saved elements, and nothing else in memory |
| MemBlock.MemBlk.Clean | src/memheap.c:1556-1570 | a block reset for reuse has nothing live and all its offsets and totals are zero |
| MemBlock.MemBlk.WriteUnit | src/memheap.c:45-45 | a caller that stores into its own payload changes no other payload and no header |
| MemBlockModel.DropKeeps | src/memheap.c:857-905 | dropping the last element keeps the whole invariant: tiling, back links, LAST flag, free list and totals |
| MemBlockModel.DropFreeKeeps | src/memheap.c:866-896 | so does dropping the last element together with the free element before it |
| MemBlockModel.FreeKeeps | src/memheap.c:958-1024 | releasing an inner element with joining on both sides keeps the whole invariant |
| MemBlockModel.SplitKeeps | src/memheap.c:1027-1095 | cutting a free element off a live one keeps the whole invariant |
| MemBlockModel.AbsorbKeeps | src/memheap.c:1201-1283 | a live element swallowing the free one after it keeps the whole invariant |
| MemBlockModel.ResizeLastKeeps | src/memheap.c:1176-1342 | moving the end of the last element keeps the whole invariant |
| MemBlockModel.TakeKeeps | src/memheap.c:655-686 | taking an element off the free list keeps the whole invariant |
| MemBlockModel.FreeListPlace | src/memheap.c:1027-1095 | a free element put between its neighbours leaves the list exactly the free elements in address order |
| MemBlockModel.SmallFreeMem | src/memheap.c:641-641 | the test on freeMem that spares the search never passes over a block in which an element fits |
| MemBlockTheorems.WalkVisitsHeaders | src/memheap.c:377-420 | walking a block from its start visits every header once, in address order, and ends exactly at free_x |
| MemBlockTheorems.PayloadsDisjoint | src/memheap.c:200-305 | two live payloads share no unit, and no payload holds a header |
| MemBlockTheorems.CanonicalForm | src/memheap.c:307-427 | all of the bookkeeping (headers, back links, flags, free list, counters) is determined by the offsets and sizes of the live elements, whatever operations led to them |
| MemBlockTheorems.CountersCount | src/memheap.c:307-427 | freeMem is the number of units below free_x that are neither a header nor in a live payload, and nsaved the number of elements marked saved |
| MemBlockTheorems.CleanWhenEmpty | src/memheap.c:905-949 | a block without live elements has free_x, freeMem and both offsets zero |
| MemHeap.Heap.constructor | src/memheap.c:1702-1719 | a new heap is valid and owns nothing |
| MemHeap.Heap.Alloc | src/memheap.c:535-768 | an allocation returns a payload of at least the octets asked for and fewer than 16 more, fewer than 8 more if a block has room at its end; it was not handed out before, every other payload is as it was, it fails only when the C library has no memory, and it is a RAW block exactly when more than 65534 units are needed |
| MemHeap.Heap.FromEnd | src/memheap.c:581-632 | the first standard block with room for a header and the units at its end serves the request there, with exactly the units asked for; none serves only if none has room |
| MemHeap.Heap.FromFree | src/memheap.c:634-700 | the first block in which a free element is large enough serves the request from the lowest such element, cut down unless no more than a header would be left; none serves only if none is large enough (of no units, only an element without any serves) |
| MemHeap.Heap.FreePtr | src/memheap.c:777-1025 | exactly the given pointer is taken out of what callers own; every other payload is unchanged, and so is its saved mark; freeing null, or a pointer whose header still has the mark of a free element, changes nothing |
| MemHeap.Heap.FreeRaw | src/memheap.c:794-825 | a RAW block anywhere in the list goes, and the chain of RAW blocks is mended |
| MemHeap.Heap.EmptyBlock | src/memheap.c:905-949 | a block that has lost its last live element is given to the C library or kept clean, as the limits say, and the totals follow |
| MemHeap.Heap.UnlinkStd | src/memheap.c:914-927 | a standard block leaves the list; when it was the head, the next standard block inherits its RAW chain |
| MemHeap.Heap.FindRaw | src/memheap.c:794-797 | the walk over the RAW chain finds the block of a pointer if and only if some RAW block of the list has it |
| MemHeap.Heap.Realloc | src/memheap.c:1097-1366 | the result has at least the octets asked for, fewer than 16 more, and the first units of the old payload that fit, on every path, and it is marked saved if the old one was; no other payload and no other mark changes; a smaller size stays in place; no result means that nothing has changed, or that a payload of a standard block was freed for a size of zero |
| MemHeap.Heap.GrowInPlace | src/memheap.c:1171-1284 | a larger size is had in place exactly when the rest of the block, or the free element behind, has room for it; the length then is the one asked for, or a unit more where no more than a header would be left; the payload is kept, and otherwise nothing changes |
| MemHeap.Heap.Shrink | src/memheap.c:1317-1363 | a smaller payload is kept at the same pointer, cut down exactly when more than a header is freed by it; a size of zero frees it |
| MemHeap.Heap.Move | src/memheap.c:1286-1315 | a moved payload is copied before the old one is released, and is marked saved where it goes if it was marked where it came from |
| MemHeap.Heap.MarkSaved | src/memheap.c:1476-1537 | marking changes no payload and no list, and of a standard block only the one flag; the flag of a RAW block is only ever set; the payload is marked afterwards exactly as asked, save a RAW one that was marked before, and every other mark stays; the block is returned exactly when there was something to mark |
| MemHeap.Heap.Reset | src/memheap.c:1542-1578 | a reset leaves saved blocks as they are, makes the other standard blocks clean and gives the other RAW blocks back, in one pass over a list that is shortened under it; what is marked saved is still there and still marked |
| MemHeap.Heap.AddBlock | src/memheap.c:1582-1632 | a block added at the head keeps the RAW chain: the old head is chained to only if it is RAW |
| MemHeap.Heap.Write | src/memheap.c:45-45 | storing into one payload leaves all others as they were, across blocks |
| MemHeap.Heap.Copy | src/memheap.c:1305-1305 | copying a payload into a larger one copies every unit and touches nothing else |
| MemHeapModel.StdPut | src/memheap.c:600-632 | a payload added in one block is added to what callers own, and nothing is lost from any other block |
| MemHeapModel.StdDelete | src/memheap.c:855-957 | a payload removed from one block is removed from what callers own, and nothing else is |
| MemHeapModel.DataUnitsFit | src/memheap.c:708-721 | a new block has the least multiple of the default size that holds the element, its header and that of the block, up to what 16 bits can count |
| MemHeapModel.ResetList | src/memheap.c:1542-1578 | after a reset the list has exactly the saved blocks as they were and the unsaved standard ones made clean |
| MemHeapModel.ChainWithoutRaw | src/memheap.c:798-813 | relinking the RAW chain around a removed RAW block is right for every position of it |
| MemHeapModel.ChainWithoutStd | src/memheap.c:914-927 | relinking the RAW chain around a removed standard block is right for every position of it |
| MemHeapModel.ChainWithHead | src/memheap.c:1606-1622 | the RAW chain of a list with a new head is right whatever the head and the old head are |
| MemHeapTheorems.ChainVisitsRaws | src/memheap.c:794-827 | from any place the pnextRaw chain visits exactly the RAW blocks after it, in list order |
| MemHeapTheorems.OwnedDisjoint | src/memheap.c:535-768 | two pointers that are both handed out never overlap, in one block or in two |
| MemHeapTheorems.CleanWhenNothingOwned | src/memheap.c:855-957 | once every pointer is released, in whatever order, no RAW block is left, every block is clean, and freeUnits and freeBlocks are the whole heap |
| MemHeapTheorems.ResetKeepsSaved | src/memheap.c:1542-1578 | after a reset callers own exactly what they owned in saved blocks, unchanged |
| MemHeapTheorems.MarkedSurvives | src/memheap.c:1471-1578 | a payload marked saved and then resized, in place or by a move, is still there after a reset, with the octets asked for and what it kept of its contents |
| MemHeapTheorems.Run | src/memheap.c:535-1366 | over every run of allocations, resizings (to nothing as well), releases, stores, marks and resets the heap stays valid, what it has handed out is exactly what the client holds, every payload has the octets its client asked for and what the client stored in it, and what is marked saved, wherever it was moved since, outlives every reset |
| MemHeapTheorems.Serve | src/memheap.c:535-1366 | one request of such a run: what it does to the client's table is exact, and a reset takes away just the payloads outside saved blocks, none of them marked |
| Bits.BitsSplit | src/encode.c:69-125 | the bits of a number are the bits above a place followed by the bits below it |
| Bits.OrBits | src/encode.c:62-66 | C's or on numbers is or on every bit |
| PerSpec.BitCount | src/perutil.c:197-224 | the decision tree finds the least number of bits that hold a value |
| PerSpec.CheckSize | src/perutil.c:94-106 | the range found is the first that the length falls in; none is found only if there is none |
| PerSpec.GetSize | src/perutil.c:152-163 | the range found has the extension flag asked for; none is found only if there is none |
| PerSpec.Taken | src/encode.c:1060-1088 | a length announces all that is left, or a fragment that is a positive multiple of 16384 |
| PerSpec.DecUncons | src/decode.c:616-650 | a general length ends on an octet boundary, inside the buffer, and a fragment size is a multiple of 16384 |
| PerRoundTrip.WholeTrip | src/encode.c:348-402 | a constrained whole number comes back in all four cases of section 10.5.7 of X.691, at any bit position |
| PerRoundTrip.IntEncodesAs | src/encode.c:297-310 | both ways of forming the adjusted value and range, wraparound included, give the same encoding |
| PerRoundTrip.IntTrip | src/encode.c:286-322 | the encoder takes exactly the values in range, and each comes back, for every pair of 32-bit bounds |
| PerRoundTrip.IntAccepts | src/decode.c:242-267 | whatever the bits, a decoded value lies in [lower, upper], and it is accepted exactly when the number read is at most upper - lower, although only a wrapped 32-bit sum is compared |
| PerRoundTrip.UnsTrip | src/encode.c:324-346 | an unsigned value comes back if and only if it lies within its bounds, which the encoder does not always check |
| PerRoundTrip.UnsEncodes | src/encode.c:324-356 | the unsigned encoder lets a value through exactly when it is in bounds, the bounds are equal, or they span all but one of the 32-bit numbers or more; with the bounds the wrong way round the range wraps, and is written out as well |
| PerRoundTrip.UnsOutOfBounds | src/encode.c:324-356 | values out of bounds that are encoded, and not read back: 7 within [5, 5], and 4294967295 within [0, 4294967294] |
| PerRoundTrip.UnconsTrip | src/encode.c:1060-1088 | each of the three general length forms is told apart and comes back |
| PerRoundTrip.LengthTrip | src/encode.c:515-559 | a length under a size constraint comes back, with the extension bit, if the extension bit alone singles out the range used |
| PerRoundTrip.OneRange | src/encode.c:515-559 | no constraint, or one of a single range, always meets that condition |
| PerRoundTrip.LengthEncodes | src/encode.c:515-559 | exactly the lengths that the constraint allows are encoded; the others violate it |
| PerSizes.LengthTripsIff | src/perutil.c:152-163 | so a length gets across if and only if it is allowed and the range the decoder takes, the first with the extension bit read, agrees at that bit position with the range it lies in; agreement is stated in widths, lower bounds and forms alone |
| PerSizes.BoundedIff | src/decode.c:576-651 | whatever range a length is sent in and whatever range it is read in, it is read as itself, with the cursor where the encoder left it, if and only if the two agree |
| PerSizes.ReadInFirst | src/perutil.c:152-163 | a length that does not come back: 9 under SIZE(0..3 | 8..11), read as 1 |
| PerRoundTrip.StringTrip | src/decode.c:790-837 | an octet or bit string of any closing length that is allowed, and whose last fragment is, is encoded in any number of fragments and comes back with the cursor where the encoder left it |
| PerRoundTrip.StringEncodes | src/encode.c:652-686 | a string is encoded if and only if each of its fragments has an allowed length or is long enough to be aligned without looking one up; otherwise the constraint is violated |
| PerRoundTrip.RefusedAtTheEnd | src/encode.c:652-686 | a string of allowed length that is refused on its last octet: 16385 octets under SIZE(3..100000) |
| PerRoundTrip.StringUnclosed | src/encode.c:678-682 | a string whose length is sent in fragments and is a multiple of 16384 is never read back as sent: the decoder goes on past the encoding, or fails if nothing follows |
| PerRoundTrip.StringTripsIff | src/encode.c:652-686 | under a constraint whose range the extension bit singles out, a string is encoded if and only if its length is allowed and a short last fragment is looked up with success in the original constraint (src/perutil.c:61-92); and it gets across if and only if, besides, its length closes |
| PerRoundTrip.OneFragmentOnly | src/encode.c:678-682 | such a string: 16384 octets, on which the decoder fails |
| PerRoundTrip.TotalMatches | src/decode.c:1027-1065 | whenever a string can be read, the look-ahead scan over its fragments finds exactly the number of items the string decoder delivers |
| PerRoundTrip.TotalFails | src/decode.c:1027-1065 | when the scan fails the string cannot be read either, for the same reason |
| PerRoundTrip.FragmentShape | src/encode.c:1077-1085 | fragments sum to the length: as many of 64K as fit, then one of 16K, 32K or 48K, then the rest, as in section 10.9.3.8 of X.691 |
| PerRoundTrip.FragmentsSent | src/encode.c:652-686 | the encoding of an unconstrained string is, fragment by fragment, one length and its items, all on octet boundaries |
| PerRoundTrip.TwosLeast | src/encode.c:783-795 | the length used for a signed number is the least that holds it in two's complement (section 10.4.6 of X.691) |
| PerRoundTrip.TwosTrip | src/decode.c:884-893 | octet by octet the decoder rebuilds the number from its sign-extended leading octets |
| PerRoundTrip.SemiTrip | src/encode.c:776-809 | a semi-constrained integer comes back for every value and lower bound, even where their difference wraps |
| PerRoundTrip.SemiEncodes | src/encode.c:776-809 | a semi-constrained integer is encoded if and only if its octet count is allowed |
| PerRoundTrip.ArcTrip | src/decode.c:670-683 | an arc in base 128 comes back, with the count of octets left lowered by its length |
| PerRoundTrip.ArcsSize | src/encode.c:567-574 | the length computed beforehand is the octets written, one to five for each arc |
| PerRoundTrip.ArcsTrip | src/decode.c:667-696 | every list of arcs within the limit comes back |
| PerRoundTrip.ArcsConsumed | src/decode.c:663-698 | when the decoder accepts, the octets it took are the announced length |
| PerRoundTrip.OidTripsIff | src/encode.c:561-605 | an object identifier is encoded if and only if it is well formed and its octet count is allowed; it gets across, with the cursor where the encoder left it, if and only if, besides, 40 a + b is below 128, since the first two arcs are counted as one octet |
| PerRoundTrip.TwoOctetArcs | src/encode.c:567-574 | an identifier that does not come back: 2.48 |
| PerForms.WholeIs | src/encode.c:348-402 | one of up to 255 numbers takes the least bits that tell them apart, of 256 an octet, of up to 65536 two octets, and of more the fewest octets that hold it, counted in two bits: section 10.5.7 of X.691 |
| PerForms.IntForm | src/encode.c:286-322 | a constrained integer is refused out of bounds, takes nothing if they are equal, and else is sent as its distance from the lower one among upper - lower + 1 numbers |
| PerForms.UnsForm | src/encode.c:324-346 | an unsigned integer in bounds takes nothing if they are equal, and else is sent as its distance from the lower one among upper - lower + 1 numbers |
| PerForms.PortAndChoice | src/encode.c:324-346 | the port 1720 within 0..65535 is the octets 06 B8, and one of two alternatives is one bit |
| PerForms.IntReads | src/decode.c:242-267 | from any bits, the signed decoder accepts exactly when the number read among upper - lower + 1 is at most upper - lower, and gives a value within the bounds |
| PerForms.UnsAccepts | src/decode.c:341-365 | so does the unsigned one |
| PerForms.GeneralForm | src/encode.c:1060-1088 | a general length is an octet below 128, two octets with a leading one below 16384, and else an octet that counts 16384s up to four |
| PerForms.LengthForm | src/encode.c:515-559 | a length is sent in the form of the first range it lies in, after a bit that tells whether that is an extension if there is any; no range, no encoding |
| PerForms.AlignForm | src/perutil.c:61-92 | items start on an octet boundary exactly if they take more than 16 bits, there is no constraint, or the range of their number has several lengths or is an extension |
| PerForms.FixedForm | src/encode.c:652-686 | a string of fixed size has no length before it, and is aligned exactly above 16 bits |
| PerForms.StringForm | src/encode.c:652-686 | a string sent whole is its length, padding where it is aligned, and its items |
| PerForms.FragmentedForm | src/encode.c:652-686 | a string sent in fragments under a constraint is the extension bit, if there is one, and from an octet boundary on the fragments of the unconstrained string |
| PerForms.SemiForm | src/encode.c:776-809 | a semi-constrained integer is the octet count and the least octets in two's complement of its distance from the bound, taken modulo 2^32, and not at all from the least bound |
| PerForms.ArcForm | src/encode.c:489-513 | an arc is its digits to base 128 in the fewest octets, the top bit set in all but the last |
| PerForms.OidForm | src/encode.c:561-605 | an object identifier is its octet count, 40 a + b as one arc, and the others; exactly the malformed ones are refused |
| PerForms.TooManyArcs | src/decode.c:667-696 | a 129th arc is not read |
| PerEncoder.FieldOr | src/encode.c:82-87 | a field or'ed into the free low bits of an octet leaves the bits above it and clears the bits below it |
| PerEncoder.PutField | src/encode.c:82-87 | so the stream grows by exactly the field |
| PerEncoder.Encoder.constructor | src/context.c:31-54 | a new encoder is valid and has written nothing |
| PerEncoder.Encoder.EncodeBit | src/encode.c:28-66 | exactly one bit is appended, at any bit offset |
| PerEncoder.Encoder.EncodeBits | src/encode.c:68-125 | exactly the low nbits of the value are appended, at any bit offset; it fails exactly when a buffer of fixed size has no room |
| PerEncoder.Encoder.BitsAcross | src/encode.c:96-125 | a field that crosses octets is cut up and written without loss, and the unused bits stay zero |
| PerEncoder.Encoder.EncodeBitsFromOctet | src/encode.c:127-182 | exactly the nbits high bits of the octet are appended, at any bit offset |
| PerEncoder.Encoder.EncodeOctets | src/encode.c:607-650 | exactly the first nbits of the octets are appended, copied whole on an octet boundary and shifted off it: both are one function; it fails exactly when a buffer of fixed size has no room |
| PerEncoder.Encoder.CopyOctets | src/encode.c:625-632 | the memcpy path appends the octets |
| PerEncoder.Encoder.ShiftOctets | src/encode.c:636-641 | the bit-by-bit path appends the same octets |
| PerEncoder.Encoder.EncodeByteAlign | src/encode.c:255-268 | padding to the octet boundary appends zeros and nothing else |
| PerEncoder.Encoder.ExpandBuffer | src/encode.c:457-475 | growing the buffer keeps its octets; a buffer of fixed size is not grown |
| PerEncoder.Encoder.CheckBuffer | src/encode.c:270-284 | afterwards there is room for the octets and one more, or the buffer has a fixed size |
| PerEncoder.Encoder.EncodeNonNegBinInt | src/encode.c:1040-1058 | the rounded bit count is the least number of octets, which are appended |
| PerEncoder.Encoder.EncodeConsWholeNumber | src/encode.c:348-402 | the buffer gets exactly the bits that section 10.5.7 of X.691 gives, or the range error is reported; a buffer of fixed size overflows only if they do not fit with two octets to spare |
| PerEncoder.Encoder.EncodeConsInteger | src/encode.c:286-322 | the buffer gets exactly the encoding of the adjusted value, or the error is reported |
| PerEncoder.Encoder.EncodeConsUnsigned | src/encode.c:324-346 | the buffer gets exactly the encoding of the adjusted value, or the error is reported |
| PerEncoder.Encoder.EncodeUnconsLength | src/encode.c:1060-1088 | a general length is written in its short, long or fragment form, and the items it announces are returned |
| PerEncoder.Encoder.EncodeLength | src/encode.c:515-559 | a length is written under the pending constraint, extension bit first, and the constraint is used up |
| PerEncoder.Encoder.EncodeFragments | src/encode.c:652-686 | the loop writes the whole fragmented string, or reports its reason; a buffer of fixed size overflows only if the string with two octets to spare does not fit |
| PerEncoder.Encoder.EncodeOctetString | src/encode.c:652-686 | an octet string is written as specified, or the constraint violation is reported |
| PerEncoder.Encoder.EncodeBitString | src/encode.c:184-218 | a bit string is written as specified, or the constraint violation is reported |
| PerEncoder.Encoder.EncodeOpenType | src/encode.c:688-726 | an open type is written with a zero octet for empty contents, always aligned |
| PerEncoder.SignedLength | src/encode.c:783-795 | the scan with the 9-bit mask finds the least two's complement length |
| PerEncoder.TwosOctets | src/encode.c:1000-1036 | the loop of truncating divisions yields exactly that many octets, and they are the number in two's complement |
| PerEncoder.SignOctet | src/encode.c:1020-1034 | the sign octet is added exactly when the last octet's top bit disagrees with the sign |
| PerEncoder.Encoder.EncodeSemiConsInteger | src/encode.c:776-809 | a semi-constrained integer is written as specified |
| PerEncoder.Encoder.EncodeIdent | src/encode.c:489-513 | an arc is written in groups of seven bits |
| PerEncoder.Encoder.EncodeObjectIdentifier | src/encode.c:561-605 | an object identifier is written as specified, or the invalid one is reported |
| PerDecoder.ShiftIn | src/decode.c:76-90 | shifting octets into a 32-bit word keeps the low 32 bits of the number read so far |
| PerDecoder.Straddle | src/decode.c:747-756 | an octet put together from two neighbours has exactly the bits at the cursor |
| PerDecoder.PackFlat | src/decode.c:738-743 | packing the bits of octets gives the octets back |
| PerDecoder.FlatPack | src/decode.c:779-786 | packed octets hold just the bits packed, and zeros up to the octet boundary |
| PerDecoder.MaskedPack | src/decode.c:779-786 | masking the last octet leaves exactly the bits asked for |
| PerDecoder.Decoder.constructor | src/context.c:31-54 | a new decoder stands at the first bit |
| PerDecoder.Decoder.DecodeBit | src/ooasn1.h:1019-1027 | the bit at the cursor is read and the cursor moves by one |
| PerDecoder.Decoder.DecodeBits | src/decode.c:27-94 | it succeeds exactly when the bits are there, gives the low 32 bits of their number and moves by exactly them; on failure the cursor stays |
| PerDecoder.Decoder.MoveBitCursor | src/decode.c:1067-1082 | the cursor moves by exactly the bits given, and an error is reported exactly when it leaves the buffer |
| PerDecoder.Decoder.DecodeByteAlign | src/decode.c:170-177 | the cursor moves to the octet boundary |
| PerDecoder.Decoder.DecodeConsWholeNumber | src/decode.c:367-422 | it reads what the four cases of section 10.5.7 of X.691 say |
| PerDecoder.Decoder.DecodeConsInteger | src/decode.c:242-267 | it reads the specified value or gives the specified error |
| PerDecoder.Decoder.DecodeConsUnsigned | src/decode.c:341-365 | it reads the specified value or gives the specified error |
| PerDecoder.Decoder.DecodeLength | src/decode.c:576-651 | it reads the specified length, says whether fragments follow, and uses up the constraint |
| PerDecoder.Decoder.DecodeOctets | src/decode.c:704-788 | on or off an octet boundary the target gets exactly the bits at the cursor, zero filled; too short a buffer and too small a target are reported, and octets before the target's part are untouched |
| PerDecoder.Decoder.CopyOctets | src/decode.c:738-743 | the memcpy path loads the octets |
| PerDecoder.Decoder.ShiftOctets | src/decode.c:745-776 | the shifting path loads the same octets |
| PerDecoder.Decoder.DecodeFragments | src/decode.c:790-837 | the loop stores or skips the whole fragmented string and reports the specified reason when it cannot be read; it reports an overflow only when some fragment does not fit the target |
| PerDecoder.Decoder.DecodeOctetString | src/decode.c:790-837 | the octets stored and counted are those of the specified string, if they fit |
| PerDecoder.Decoder.DecodeBitString | src/decode.c:96-131 | the bits stored and counted are those of the specified string, with the unused bits zero |
| PerDecoder.Decoder.GetComponentLength | src/decode.c:1027-1065 | the scan gives the specified total, and on every exit the cursor, the constraint and both reference counts are as before |
| PerDecoder.Decoder.ScanLengths | src/decode.c:1043-1060 | the loop over the fragment chain adds up its lengths |
| PerDecoder.HeapRef.AddRef | src/memheap.c:1435-1442 | the count goes up by one |
| PerDecoder.HeapRef.Release | src/memheap.c:1445-1468 | the count goes down by one, and the heap is marked freed exactly when it reaches zero |
| PerDecoder.Decoder.DecodeDynOctetString | src/decode.c:547-573 | the string is read into memory of just its length, which always suffices; an empty one is skipped by one octet and leaves its constraint pending; reference counts are unchanged |
| PerDecoder.Decoder.DecodeSemiConsInteger | src/decode.c:862-905 | it reads the specified number, or reports the end of the buffer |
| PerDecoder.Decoder.DecodeObjectIdentifier | src/decode.c:653-702 | it reads the specified arcs or gives the specified error |
| PerDecoder.Decoder.DecodeArc | src/decode.c:670-683 | the inner loop ends, since every octet read shortens what is left, and gives the specified arc |
| PerFields.FieldTrip | src/encode.c:28-809 | every kind of field comes back under its own exact condition, a bit field of any width up to 32 |
| PerFields.FieldsTrip | src/decode.c:27-905 | every list of mixed fields, encoded in order and decoded in order, comes back, both cursors at the same bit, from any starting position and with anything after it |
| PerFields.FieldEncodes | src/encode.c:28-809 | a field of each kind is encoded if and only if it meets the stated condition on its value and constraint |
| PerFields.AllEncodes | src/encode.c:28-809 | a list of fields is encoded if and only if each of them is |
| PerFields.EncodeAll | src/encode.c:28-809 | the encoder object, called field by field, writes exactly the list's encoding |
| PerFields.DecodeAll | src/decode.c:27-905 | the decoder object, called field by field, reads exactly the list, or gives the reason of the first field that cannot be read |
| PerFields.Transfer | src/encode.c:457-487 | fields that meet their conditions are encoded into one buffer, and decoded from a copy of the message they are what was sent; of any others the encoder's reason for refusing comes back |
| PerFields.DynTripsIff | src/decode.c:547-566 | through the decoder that allocates, a closing string comes back exactly when it is not empty or the length of an empty one takes just eight bits |
| PerFields.EmptyLength | src/encode.c:515-559 | the length 0 takes exactly eight bits under just these constraints and bit positions |
| PerFields.EmptyOfThree | src/decode.c:557-561 | an empty string that does not come back: one of at most three octets, whose length is two bits |
| PerFields.BitStringOctets | src/decode.c:779-786 | a decoded bit string is the octets sent, the last one cleared beyond its end |
| DList.List.AppendNode | src/dlist.c:51-81 | the node is last; order and data of the others are kept; links, ends and count are right |
| DList.List.Append | src/dlist.c:28-49 | a new node holding the data is last |
| DList.List.Remove | src/dlist.c:127-142 | the node at any place is taken out and the others keep their order and data |
| DList.List.DeleteHead | src/dlist.c:84-96 | the first node goes and its data is returned; an empty list gives nothing |
| DList.List.FindByIndex | src/dlist.c:156-166 | the node at the index, none past the end, and the head for a negative index |
| DList.List.FindAndRemove | src/dlist.c:144-154 | the first node that holds the data goes, if there is one |
| DList.List.InsertBefore | src/dlist.c:170-215 | the data stands right before the given node, or last when none is given |
| DList.List.InsertAfter | src/dlist.c:219-264 | the data stands right after the given node, or first when none is given |
| DList.LinkedIn | src/dlist.c:170-264 | linking a node in between two neighbours, or at either end, leaves next and prev inverse to each other throughout |
| DList.LinkedOut | src/dlist.c:127-142 | so does linking one out |
| DList.List.InsertUndone | src/dlist.c:127-215 | on the list itself, removing the node just inserted restores nodes, order and data |
| GkClient.NumbersRepeat | src/ooGkClient.c:1659-1662 | no request number is 0, and two are equal exactly when a multiple of 65535 requests lies between them |
| GkClient.Client.NextNumber | src/ooGkClient.c:1659-1662 | the next number is the counter, stepped over 0, and the counter goes up by one modulo 2^16; so the numbers run from 1 to 65535 in turn |
| GkClient.Client.SendAdmissionRequest | src/ooGkClient.c:1565-1852 | a new call gets a pending record with the next number and, if the request went out, a timer; a failed send fails the client |
| GkClient.Client.FindPending | src/ooGkClient.c:1868-1872 | the first pending record with the number is found |
| GkClient.Client.HandleAdmissionConfirm | src/ooGkClient.c:1857-1953 | the first pending record with the reply's number moves to the admitted ones and loses its timer; an address of another kind, or no match, changes nothing |
| GkClient.Client.HandleAdmissionReject | src/ooGkClient.c:1960-1991 | the first pending record with the reply's number is released; no timer is touched, so that, if every timer belonged to a pending record before, it still does exactly when the rejected call had none |
| GkClient.Client.SendDisengageRequest | src/ooGkClient.c:2049-2172 | the call's first admitted record is released, whether or not the request went out |
| GkClient.Client.CleanCall | src/ooGkClient.c:2281-2332 | the call's first admitted record is released; failing that, its first timer goes and its pending record is released; nothing else moves, and the call has no live record afterwards; only the timers before its own are looked at |
| GkClient.Client.FireHead | src/ooTimer.c:99-121 | the first timer's handler runs and the timer is deleted; if it sends, one new timer, for the same request and record, takes its place (for registration after a keep-alive) and the others stay in order; which number is sent and which state follows is exact; records stay where they are, only the timer's own has its number and retries changed, and a measure of retries left and timers running goes down |
| GkClient.Client.ExpireRequest | src/ooGkClient.c:2183-2252 | a discovery or registration request is repeated up to its retry limit, each with a timer of its own kind, and a keep-alive starts a registration |
| GkClient.Client.ExpireARQ | src/ooGkClient.c:2254-2279 | an admission request is repeated under a new number up to its retry limit |
| GkClient.Client.Resend | src/ooGkClient.c:1803-1813 | a retransmission gives the pending record the next number and, if it went out, counts a retry; every other record keeps its own |
| GkTheorems.UniqueReply | src/ooGkClient.c:1868-1872 | while fewer than 65535 requests separate the pending records, a reply's number is that of at most one of them |
| GkTheorems.NumbersInARow | src/ooGkClient.c:1659-1662 | any 65535 requests in a row have different numbers, and the next has the first one's again |
| GkTheorems.RejectedWhileWaiting | src/ooGkClient.c:1986-1991 | a new call that is asked for and rejected leaves its timer without a pending record, whatever calls are pending |
| GkTheorems.OneRejection | src/ooGkClient.c:1565-1991 | a reachable state of this kind: one request, one rejection |
| GkClient.TimerLeft | src/ooGkClient.c:1986-1991 | with one record gone, every timer belongs to a pending record exactly when none was that record's |
| GkTheorems.Silence | src/ooGkClient.c:2183-2279 | against a silent gatekeeper, with any number of pending calls, timers run out after at most as many expiries as the measure; no admission request goes out more than four times, and discovery and registration requests no more often than their limits, plus one for each keep-alive; whatever had a timer is asked for as often as its limit allows; and the gatekeeper is given up |
| GkTheorems.Run | src/ooGkClient.c:1565-2332 | over every run each event does exactly what its handler is for, as the history of the client's states shows; at all times each record ever made is in exactly one of pending, admitted and released; and what is released stays so |
| GkTheorems.Step | src/ooGkClient.c:1565-2332 | one event of such a run, whichever it is: whether it takes place, which record moves, where to, with which number and retries, and which timer comes and goes, is exact |
| GkTheorems.StepTick | src/ooTimer.c:99-121 | of these, an expiring timer: its own record alone gets the next number and counts a retry, and a new timer takes its place if the request went out |
| GkTheorems.StepClean | src/ooGkClient.c:2281-2332 | and a clean-up: it takes place exactly when the search for the call's timer looks at no freed record |
| LogChan.Call.AddNewLogicalChannel | src/ooLogChan.c:98-112 | the new channel is last and idle, whatever numbers are in use, the others are unchanged, and the count is the length |
| LogChan.Call.FindLogicalChannel | src/ooLogChan.c:118-139 | the first channel with the number is found if there is one |
| LogChan.Call.RemoveLogicalChannel | src/ooLogChan.c:308-346 | the first channel with the number goes, from any place |
| LogChan.Call.ClearLogicalChannel | src/ooLogChan.c:253-306 | the first channel with the number goes; without one nothing changes |
| LogChan.Call.ClearAllLogicalChannels | src/ooLogChan.c:233-251 | the walk that clears each channel after taking the next one leaves none, and the count is zero |
| LogChan.Call.ClearRivals | src/ooLogChan.c:361-375 | the walk over the list it shortens leaves what clearing each rival by its number leaves, the next channel being taken before |
| LogChan.Call.OnLogicalChannelEstablished | src/ooLogChan.c:355-377 | exactly the other channels of the session and direction go if and only if none of them comes after one that is to stay and has its number; the channel itself stays; with distinct numbers it is the only one of its session and direction |
| LogChan.WalkedKept | src/ooLogChan.c:361-375 | the walk that removes by number removes exactly what is not to stay if and only if nothing that is to stay comes before something that is not and has its number |
| LogChan.WrongOneCleared | src/ooLogChan.c:361-375 | such a case: a receive channel of the remote end is cleared in place of a rival that has its number |
| LogChan.Call.SetState | src/ooh245.c:3538-3543 | assigning a state directly keeps what held before, at most one established channel for each session and direction, exactly when the state is not established or no other established channel is a rival |
| LogChan.Call.OnReceivedOpenLogicalChannelAck | src/ooh245.c:1460-1483 | an acknowledged channel takes a session number if it has none and is established if it can be started; where there was at most one for each session and direction, there still is exactly when it is not established or no other established channel is a rival |
| LogChan.KeptOrder | src/ooLogChan.c:361-375 | what stays is in the order it had |
| LogChan.Run | src/ooLogChan.c:233-377 | over every run each event does exactly what its handler is for, as the history of the list shows; at most one channel is established for a session and direction until an event establishes one past another, and then no longer; an establishment does so only if two channels have one number |
| LogChan.Step | src/ooh245.c:1308-3862 | one event, whichever it is: which channel comes, goes or changes, and how, is exact |
| LogChan.MovesKeep | src/ooh245.c:1308-3862 | an event leaves two channels of one session and direction established, where there were none, exactly when it leaves the one it sets established beside another |
| LogChan.TwoEstablished | src/ooh245.c:1460-1483 | such a run: two channels opened to transmit in one session, each acknowledged |
| Capability.SelectAudio | src/ooCapability.c:1574-1739 | the first local capability of the kind that shares a direction with the request is taken: to receive it must take the offered frames; to transmit only, its copy sends the smaller of the two frame counts; nothing is selected only if there is none or its frames are too few |
| Capability.SelectH263 | src/ooCapability.c:1769-1906 | the first local H.263 capability of the format that shares a direction with the request is taken: to receive, pictures must not come faster than it allows; to transmit only, its copy has the larger of the two intervals; nothing is selected only if there is none or the pictures come too fast |
| Capability.CheckCompatibility | src/ooCapability.c:1366-1385 | when the check accepts is given by kind, frames, picture format and interval for each kind of offer, and it changes only the frame count of a GSM capability that is to transmit |
| Capability.SameFormat | src/ooCapability.c:1177-1240 | the first format with an interval is the one the check looks at |
| Capability.SelectThenCheckAudio | src/ooCapability.c:1321-1344 | a selected audio capability passes the check for the same offer if and only if the offer is not half-rate or enhanced GSM, which the check does not know |
| Capability.HalfRateFails | src/ooCapability.c:1321-1344 | a selection that fails the check: half-rate GSM |
| Capability.SelectThenCheckH263 | src/ooCapability.c:1161-1316 | a selected H.263 capability passes the check for the same offer if and only if its format is the first one offered |
| Capability.SecondFormatFails | src/ooCapability.c:1161-1316 | a selection that fails the check: the second format of an offer of two |
| Capability.Call.UpdateJointCapabilities | src/ooCapability.c:2442-2536 | exactly what suits of an offer goes to the end of the joint list, formats in their fixed order |
| Capability.Call.UpdateAll | src/ooCapability.c:2568-2680 | for every offer and format the joint list has a capability exactly when a local one suits it, of the kind and format and for a direction asked for, in the remote end's order of preference, and nothing else |

## Left out

- Out of scope: sockets, configuration, logging, message building, the Asterisk driver, media plug-ins and G.711 tables are input, output or tables.
- Out of scope: `memHeapFreeAll`, `encodeSemiConsUnsigned`, `encodeUnconsUnsigned`, `encodeSmallNonNegWholeNumber`, character strings, H.264 parsing and DTMF flags.
- Memory: payloads are counted in units of eight octets, RAW ones included; the size of the block header is taken as 32 octets; whether the C library has memory is a parameter of the call; the debug fills and checks are not modelled.
- Lists of blocks: the order given by pnext and pprev is a sequence; the pnextRaw chain is kept as pointers.
- MemHeap.Heap.Realloc: new memory for a RAW payload is always a fresh array, of no units for a size of zero; a `realloc` that frees the memory for a size of zero and returns none, which leaves the block in the list, is not modelled.
- MemHeap.Heap.Alloc: a failed `malloc` for a link record is not told apart from one for its memory.
- MemHeap.Heap.FreePtr: a pointer must be null, handed out, or have the mark of a free element in front of it in a block that is still there, as a freed one has until its header is overwritten; an element freed as the last of its block has no such mark, and freeing it again is outside the contract, as is any other pointer.
- Property setting, pointer checks and the printing functions of the suballocator, and the functions of the list library that free all nodes, would only add easy members.
- The RAS client's lists of records and timers and the joint capability list are sequences; the list library and the channel list have pointers. Replies to discovery and registration requests are not modelled.
- PerEncoder.Encoder.EncodeBit: on the last bit of an octet the source starts the next octet unchecked, so room for it is required.
- PerEncoder.Encoder.EncodeBits: from bit offset 0 a field of 32 bits is not allowed, since the source would shift by 32; `PerFields.EncodeField` writes such a field in two halves.
- PerEncoder.Encoder.EncodeBitsFromOctet: room for the next octet is required of the caller, who has checked it in the source.
- PerEncoder.Encoder.EncodeLength: with an extensible constraint the room that a single bit needs is required.
- PerEncoder.Encoder.ExpandBuffer: a growing buffer always grows; a failed reallocation, which loses the buffer, is not modelled.
- PerEncoder.Encoder.Did: after an error nothing is said of the buffer, since several encoders stop half way.
- PerDecoder.Decoder.DecodeLength: with an extensible constraint at the very end of the buffer the source reads an octet that is not there; one bit is required to be left.
- PerDecoder.Decoder.DecodeOctets: off an octet boundary the source checks whole octets only, so the last octet may come in part from after the buffer; the contract says which bits are read, and one readable octet after the buffer is required. With bit offset 0 and whole octets one more octet of the target is touched and required.
- PerDecoder.Decoder.DecodeDynOctetString: only the copying path is modelled, not the one that points into the message (ASN1FASTCOPY).
- PerRoundTrip.LengthTrip: the condition that the extension bit singles out the range is sufficient; the exact one is that of PerSizes.LengthTripsIff.
- PerSizes.LengthTripsIff: a range whose lower bound is above its upper one is excluded.
- PerRoundTrip.StringTripsIff: constraints of several ranges that the extension bit does not single out are excluded; there the padding before the contents can make up for a length read with the wrong width.
- PerDecoder.HeapRef.Release: freeing the heap is a flag; what the memory is used for afterwards is not modelled.
- Numbers: signed overflow in the integer codecs wraps as on a two's complement machine; cursors, counts and list lengths are unbounded, so buffers are taken to be below 2^28 octets and strings below 2^31.
- GkClient.Client.SendAdmissionRequest: the message itself and allocation failures are not modelled; a send succeeds or fails by parameter.
- GkClient.Client.HandleAdmissionReject: records are distinct objects for ever; in C the memory of a released record may be given to a new one, and the timer left behind is then matched to that by its address (src/ooGkClient.c:1928-1929), which is not modelled.
- GkClient.Client.CleanCall: requires that every admission timer up to the call's own belongs to a pending record, since the source reads the record through the timer.
- GkClient.Client.FireHead: the clock is a parameter, which says where a new timer goes and that the first timer has run out; the first timer must not be one whose record was rejected, since its handler would read the freed record; later ones may be.
- LogChan.Call.AddNewLogicalChannel: ports, addresses, media callbacks and a failed allocation are not modelled.
- Capability.CheckCompatibility: generic video, data and the outer type test are not modelled; the kind of a capability says whether it is audio or video.
