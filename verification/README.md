# Verified models of CSMWrap

CSMWrap boots legacy operating systems on UEFI firmware. It carries a SeaBIOS compatibility
module, a freestanding integer runtime and a small `printf`. This project models the parts of it
whose correctness is arithmetic, bookkeeping or program transformation, and proves what they
promise. Everything is in Dafny 4.11; `dafny verify dfyconfig.toml` checks the whole project.

What is modelled, and the main result of each part:

- **Wide integer arithmetic** (`Words`, `Division`, `Multiply`). Knuth's Algorithm D
  (The Art of Computer Programming, volume 2, section 4.3.1), branch-free shift-subtract division,
  half-word multiplication and overflow detection return exact quotients, remainders, products and
  flags, although intermediate values wrap. Shifts are products and quotients by powers of two,
  truncation is a remainder, and `&` and `|` are defined bit by bit.
- **The zone allocator and its clients** (`Zones`, `Allocator`, `AllocatorRoom`, `AllocatorRuns`,
  `AllocatorHidden`, `Malloc`, `HList`, `Pmm`). Over every run of region additions (empty ones
  included), allocations, frees and handle updates the zone lists hold exactly the blocks handed
  out and not taken back, each once, aligned, with the handle last set on it, and are made of
  exactly the added regions. An allocation succeeds if and only if its zone has an aligned free place
  and a temporary zone has one for the record beside it, and both go to the highest place of the first
  range that has any. The lists are modelled twice: as sequences for the
  run invariants, and with `next` and `pprev` pointers for the move of a bookkeeping record from
  the stack into its own block.
- **The e820 map** (`E820`, `E820Loss`, `E820Map`). The in-place array refines a total map from addresses to
  types in which the last writer wins; when the table is full it may report nothing, but never a
  wrong type, and which addresses it loses is stated exactly. A list that dropped nothing is the one
  canonical list of its map.
- **JPEG Huffman decoding** (`JpegBits`, `Huffman`, `JpegScan`). The ten-bit lookup table that also decodes the
  value bits agrees with canonical codes and EXTEND (ITU-T T.81, Annex C and sections F.2.2.1 and
  F.2.2.3) in run, value and number of bits taken, on every stream, and rejects exactly the
  streams that start with no code. A scan that was encoded, packed and byte-stuffed is decoded to the
  runs and values that went in.
- **Relocation of the init code** (`Relocation`), **ROM layout** (`Layout`, `LayoutFit`,
  `LayoutRom`) and **the `leal` fix-ups** (`Leal`). Transformations that keep their meaning: every
  reference resolves after the move; exactly the sections to be laid out get an address, aligned, in
  their order and without overlap, and gaps are filled until nothing fits; and the replacement
  instructions have the effect of the instruction they replace.
- **Disk addressing** (`Disk`, `Cdemu`). The logical geometry never reaches beyond the disk, and
  falls less than 1024 tracks short of it (up to the largest that can be addressed) or, when the
  physical one is shifted by `n` bits, less than 2^n of its cylinders; and 512-byte reads over 2048-byte CD blocks are the obvious slice of the image, also after a failure
  half-way.
- **Formatted output** (`Digits`, `FormatSpec`, `Printf`, `PrintfLaws`). Numbers read back as themselves through
  every flag and width, the format parser undoes the text of a specification, every letter, flag and width has the
  effect that C gives it, and the truncating buffer holds what it should.

Where the source updates things in place the model is a class or an array and each method is
proved against a function; where it computes, the model is functions and lemmas.

Results that are conditions rather than plain promises:

- The wrap guard of `alloc_new` is adequate exactly for sizes and alignments that together stay
  within 2^32 (`Zones.WrapGuardLimit`).
- The sign-bit comparison is right exactly while its operands are less than half the word range
  apart (`Division.CompareMaskSound`).
- A PMM request keeps its size exactly below 2^28 paragraphs (`Pmm.RequestWraps`).
- A free or a handle update at a held block works exactly if no empty region at that address stands
  ahead of the block, in zone order and in the order of addition (`AllocatorRuns.RunSafe`,
  `AllocatorRuns.HandleTakes`). `malloc_preinit` can create such a region, from a RAM entry of
  exactly 256 KiB below a smaller one;
  `AllocatorHidden.HiddenBlock` is a run in which a held block can be neither freed nor labelled.
- A zone's list descends exactly if no empty region was added to it before a region that starts at
  the same address (`Allocator.ZoneDescends`; `Zones.AscendingList` is a list that does not).
- A full e820 table loses the new range exactly if it frees no slot of its own or splits an entry
  whose right part takes the last one, and that right part exactly if the table was already full
  (`E820Loss.AddedExact`).
- A first e820 range that does not pass 2^64 is safe under every continuation exactly if it ends
  below 2^64 (`E820.TopLimit`; `E820.TopMisplaced` shows how it goes wrong otherwise).
- A relative reference from moved code to an absolute symbol is on no relocation list; it resolves
  exactly when the code moves by a multiple of 2^32 (`Relocation.RelocationPreserves`;
  `Relocation.UncoveredStale` is such a reference).
- The sections of the ROM are pairwise apart if the fixed sections fit and sizes and alignments
  leave room below the first of them (`LayoutRom.DoLayout`, `LayoutRom.RoomFits`); for fixed
  sections that are not empty the first condition is also necessary (`LayoutRom.FixedFitNeeded`).
- `leaw` in place of `leal` for `%esp` is exact precisely while the result stays in the 64 KiB of
  the old stack pointer (`Leal.LeawLower`).
- `setSectionsStart` rounds toward zero, so a group ends at or below its end address exactly when
  it fits above zero or the (negative) space left is a multiple of its alignment
  (`Layout.EndsBelow`).

## Model

| member | source | states |
|---|---|---|
| Division.QuotientDigit | cc-runtime/src/cc-runtime.c:3627-3651 | one quotient digit: `q*v <= u*2^32 + un < (q+1)*v`, at most two corrections, no product in the loop test overflows |
| Division.DivideNormalized | cc-runtime/src/cc-runtime.c:3619-3654 | both digits give an exact quotient and remainder although `un21` and the rest are computed modulo 2^64 |
| Division.Normalize | cc-runtime/src/cc-runtime.c:3607-3617 | the shift sets the divisor's top bit and multiplies dividend and divisor by the same power of two without losing a bit |
| Division.Udiv128By64To64 | cc-runtime/src/cc-runtime.c:3596-3655 | `u1*2^64 + u0 == q*v + r` with `r < v` for every `u1 < v` |
| Division.CompareMaskSound | cc-runtime/src/cc-runtime.c:3541-3547 | the sign of `d - r - 1` stands for `r >= d` if and only if the operands are less than half the range apart |
| Division.ConditionalSubtract | cc-runtime/src/cc-runtime.c:3546-3548 | under the doubling invariant the branch-free step is `if (r >= d)` and leaves `r < d` |
| Division.ShiftStep | cc-runtime/src/cc-runtime.c:3535-3548 | one step keeps: consumed prefix of the dividend == quotient so far times divisor plus `r` |
| Division.ShiftSubtract | cc-runtime/src/cc-runtime.c:3533-3553 | the whole loop gives `dividend == q*d + r` with `r < d` |
| Division.UdivmodXi3 | cc-runtime/src/cc-runtime.c:1217-1274 | `__udivXi3` and `__umodXi3` for any word width: `a == q*d + r`, `r < d` |
| Division.StartHalves | cc-runtime/src/cc-runtime.c:3483-3501 | the starting registers computed on halves are the dividend split at bit `sr` |
| Division.DivideHighOnly | cc-runtime/src/cc-runtime.c:3413-3462 | divisor with a zero low half: exact through all its cases |
| Division.DivideByLow | cc-runtime/src/cc-runtime.c:3464-3501 | divisor within the low half: exact |
| Division.DivideByBoth | cc-runtime/src/cc-runtime.c:3502-3526 | divisor with two halves: exact |
| Division.DivideByPowerOfTwo | cc-runtime/src/cc-runtime.c:3468-3477 | mask and shift are remainder and quotient by a power of two |
| Division.Udivmoddi4 | cc-runtime/src/cc-runtime.c:3385-3554 | `a == q*b + r` and `r < b` for every 64-bit `a` and `b != 0` |
| Division.DivideWide | cc-runtime/src/cc-runtime.c:3706-3728 | the 128-bit loop is exact for a divisor with a high word |
| Division.Udivmodti4 | cc-runtime/src/cc-runtime.c:3673-3729 | `a == q*b + r` and `r < b` for every 128-bit `a` and `b != 0` |
| Multiply.MulWide | cc-runtime/src/cc-runtime.c:2497-2517 | the exact double-word product from half words, nothing overflows on the way |
| Multiply.MulDouble | cc-runtime/src/cc-runtime.c:2518-2527 | the product of two double words modulo the double-word range |
| Multiply.GeneralTest | cc-runtime/src/cc-runtime.c:2289-2301 | the tests on absolute values decide whether the product is representable |
| Multiply.MulOverflow | cc-runtime/src/cc-runtime.c:2273-2303 | the flag is set if and only if the mathematical product is not representable; the result is the wrapped product |
| E820.Canonical | src/e820.c:79-137 | two ordered coalesced lists with the same view are equal |
| E820.AddedView | src/e820.c:79-137 | the result is ordered and reports at every address the pointwise update or, after a drop, nothing |
| E820.AddedCoalesced | src/e820.c:97-131 | no two touching entries of equal type are left, whether or not an entry was dropped |
| E820.AddedFits | src/e820.c:40-59 | the table is never exceeded; with room for two more entries nothing is dropped |
| E820.RunSound | src/e820.c:79-144 | after any run: ordered, coalesced, within capacity, never a type other than the last writer's |
| E820.RunDetermined | src/e820.c:79-144 | runs with the same last-writer-wins map that drop nothing leave the same list |
| E820.TopMisplaced | src/e820.c:88-96 | a range that reaches 2^64 has end 0, and the request just below it leaves a wrong table |
| E820.TopLimit | src/e820.c:88-131 | a first range that does not pass 2^64 is reported right after every run of ranges below 2^64 if and only if it ends below 2^64 |
| E820.RunFits | src/e820.c:40-59 | two table slots per request are enough for nothing to be dropped |
| E820Loss.AddedExact | src/e820.c:40-137 | the table reports the pointwise update except at the lost addresses, where it reports nothing: the new range if it gets no slot, and the right part of an entry that a full table cannot split; it drops an entry if and only if an address is lost |
| E820Loss.RunExact | src/e820.c:40-144 | after any run, overflowed or not, the last request that covers or loses an address decides what is reported there |
| E820Map.Table.Remove | src/e820.c:23-36 | in-place removal of entry `i`; an index outside the table changes nothing |
| E820Map.Table.Insert | src/e820.c:40-59 | in-place insertion at `i`, or no change when the table is full |
| E820Map.Table.Cut | src/e820.c:88-111 | the search loop with its split or merge computes the specification's cut, in 64-bit words |
| E820Map.Table.DropFrom | src/e820.c:114-123 | the loop removes exactly the entries that the range covers to their end |
| E820Map.Table.ClipFrom | src/e820.c:112-133 | the overlap loop removes or cuts exactly the overlapped entries |
| E820Map.Table.Add | seabios/src/e820map.c:80-138 | the array after `e820_add` or `e820_remove` of any 64-bit range is the specification's list; ordered and still coalesced if the range ends below 2^64 |
| E820Map.Table.IsUsed | seabios/src/e820map.c:155-168 | true if and only if some mapped address lies in the range or, for an empty range, it lies strictly inside an entry |
| E820Map.ConvertMemoryType | src/e820.c:150-173 | RAM exactly for conventional, loader and boot-services memory, ACPI and NVS exactly for their UEFI types, reserved for the rest |
| E820Map.DescriptorIdeal | src/e820.c:186-204 | the requests made for the descriptors have the last covering descriptor's type as their map |
| E820Map.BootIdeal | src/e820.c:186-213 | with the four low requests: RAM on [0, 0x80000), reserved on [0x80000, 0x100000), the last descriptor's type above |
| E820Map.BootTable | src/e820.c:179-220 | the finished table reports that map everywhere or, only after an overflow, nothing; a size that cannot overflow |
| E820Map.BuildMap | src/e820.c:179-220 | for any descriptors the array holds the table of that run of requests |
| Zones.FitExact | seabios/src/malloc.c:55-58 | `alloc_new`'s test finds the highest aligned place in a range, exactly when there is one |
| Zones.WrapGuardLimit | seabios/src/malloc.c:57-58 | the wrap guard is sound for every range if and only if size plus alignment is at most 2^32 |
| Zones.NodesApart | seabios/src/malloc.c:50-130 | ranges at different positions of a zone list do not overlap |
| Zones.Descending | seabios/src/malloc.c:102-111 | ranges of a zone list descend if and only if no empty region stands ahead of one that starts at its address |
| Zones.AscendingList | seabios/src/malloc.c:102-111 | such a list, from an empty region and one added after it |
| Zones.CoverExact | seabios/src/malloc.c:50-130 | the ranges of a list cover exactly its regions |
| Zones.AheadPlaced | seabios/src/malloc.c:102-111 | the list keeps an empty region ahead of exactly those regions at its address that were added after it |
| Zones.AllocNewShape | seabios/src/malloc.c:51-70 | the block is aligned and inside the free space of its range; list shape and regions are kept |
| Zones.AllocThenFree | seabios/src/malloc.c:123-130 | freeing what was just allocated restores the list exactly |
| Zones.FreeSpaceUnused | seabios/src/malloc.c:50-70 | no block starts inside free space |
| Zones.AllocFreeShape | seabios/src/malloc.c:123-130 | a block's successor ends where the block starts, and freeing gives it the block's space |
| Zones.InsertMarkerShape | seabios/src/malloc.c:97-119 | adding a region, empty or not, keeps the list well formed, never splits a block from its successor, and inserts exactly that region |
| Allocator.RangesApart | seabios/src/malloc.c:50-130 | no two ranges of any zones overlap |
| Allocator.CoverAdded | seabios/src/malloc.c:97-119 | the ranges of a zone cover exactly the regions it received |
| Allocator.ZoneDescends | seabios/src/malloc.c:102-111 | a zone's list descends if and only if no empty region was added to it before a region that starts there |
| Allocator.BlockStartUnique | seabios/src/malloc.c:133-145 | whatever else starts at a block's address is empty: the block's own region marker, later in the same list, or the marker of an empty region |
| Allocator.PallocSound | seabios/src/malloc.c:236-262 | a failed allocation changes nothing; a successful one keeps the invariant, is aligned, lies in the zone's regions and adds exactly that block |
| Allocator.AddRegionSound | seabios/src/malloc.c:97-119 | adding a region, empty or not, keeps the invariant and every block, or changes nothing |
| AllocatorRoom.FirstPlace | seabios/src/malloc.c:51-70 | `alloc_new` finds a place if and only if some range has an aligned one, and takes the highest of the first such range |
| AllocatorRoom.DetailPlace | seabios/src/malloc.c:73-87 | a record comes from the high temporary zone if that has a place, else from the low one, else there is none |
| AllocatorRoom.PallocExact | seabios/src/malloc.c:236-262 | an allocation succeeds if and only if its zone has a place for the block and a temporary zone one for the record beside it; which places they are; the record starts with the default handle |
| AllocatorRoom.AddRegionExact | seabios/src/malloc.c:97-119 | a region is added if and only if a temporary zone, or the region itself if it is added to one, has a place for its record; else nothing changes |
| Allocator.FindsBlock | seabios/src/malloc.c:134-145 | searching a block's address finds the block's own node if and only if no empty region there stands ahead of it |
| Allocator.FindsMarker | seabios/src/malloc.c:134-145 | what it finds otherwise is a region marker |
| Allocator.SelfAddress | seabios/src/malloc.c:341-342 | a node lies at the start of its own range if and only if it is a bookkeeping node |
| Allocator.PfreeBlock | seabios/src/malloc.c:273-285 | freeing a block's address removes exactly that block and its record, or is refused without effect if an empty region hides the block |
| Allocator.PfreeOther | seabios/src/malloc.c:273-285 | any other address is refused and nothing changes |
| Allocator.BlocksApart | seabios/src/malloc.c:236-262 | live blocks do not overlap |
| Allocator.RecordsApart | seabios/src/malloc.c:73-93 | no block overlaps a bookkeeping record |
| Allocator.SetHandleSound | seabios/src/malloc.c:322-331 | setting a handle at a block's address changes that block's record only, or nothing if an empty region hides the block |
| Allocator.SetHandleOther | seabios/src/malloc.c:322-331 | at any other address it changes nothing |
| Allocator.FindHandleSound | seabios/src/malloc.c:335-350 | a handle carried by one record alone is found as that record's block |
| Allocator.FindHandleFirst | seabios/src/malloc.c:335-350 | of several blocks with one handle, the one whose record comes first in zone and list order is found |
| Allocator.FindHandleNone | seabios/src/malloc.c:335-350 | a handle carried by no record gives 0 |
| AllocatorRuns.PallocFresh | seabios/src/malloc.c:236-262 | a block is never handed out while it is held |
| AllocatorRuns.FreeAccepts | seabios/src/malloc.c:273-285 | a free is accepted if and only if a held block starts at the address and no empty region hides it; a refused one changes nothing |
| AllocatorRuns.HandleTakes | seabios/src/malloc.c:322-331 | a new handle takes effect on a held block if and only if no empty region hides it |
| AllocatorRuns.LookUp | seabios/src/malloc.c:335-350 | a non-default handle is found exactly if a held block carries it |
| AllocatorRuns.StepSafe | seabios/src/malloc.c:50-350 | every operation keeps the invariant and the refinement to the map of held blocks |
| AllocatorRuns.RunSafe | seabios/src/malloc.c:50-350 | in every state of every run the lists hold exactly the held blocks, once each, with their handles, and a free is taken exactly at the held blocks that no empty region hides |
| AllocatorRuns.RunAligned | seabios/src/malloc.c:236-262 | every held block was returned by an allocation of its size at a multiple of the alignment asked for, inside its zone's regions, and has been held since |
| AllocatorHidden.HiddenBlock | seabios/src/malloc.c:434-453 | a run with an empty region ahead of the permanent high zone, after which a held block can be neither freed nor given a handle |
| AllocatorRuns.HeldPositive | seabios/src/malloc.c:236-262 | no block starts at 0, so a result of 0 always means failure |
| Malloc.Heap.AllocNew | seabios/src/malloc.c:51-70 | the search loop computes the first fit of the specification in place |
| Malloc.Heap.Reserve | seabios/src/malloc.c:236-262 | block, record, and give-back on failure compute the specification's `Palloc` |
| Malloc.Heap.Palloc | seabios/src/malloc.c:236-262 | succeeds if and only if the zone has a place for the block and a temporary zone one for its record; a fresh aligned block, at the highest place of the first range with room, is added to the held blocks with the default handle, or nothing changes |
| Malloc.Heap.AddRegion | seabios/src/malloc.c:97-119 | the held blocks stay and the new region, empty or not, is added if and only if its record finds a place; else nothing changes |
| Malloc.Heap.InsertThenRecord | seabios/src/malloc.c:97-119 | marker, record and give-back on failure compute the specification, and keep every held block |
| Malloc.Heap.FindNode | seabios/src/malloc.c:134-145 | the nested loops find the first node that satisfies the test |
| Malloc.Heap.Pfree | seabios/src/malloc.c:273-285 | accepts exactly the starts of held blocks that no empty region hides, and removes the block |
| Malloc.Heap.SetHandle | seabios/src/malloc.c:322-331 | changes the handle of the held block at the address, if there is one that no empty region hides |
| Malloc.Heap.FindHandle | seabios/src/malloc.c:335-350 | returns a held block with the handle, or 0 if there is none |
| Pmm.RequestWraps | seabios/src/pmm.c:60-61 | the size in bytes is exact if and only if the request is below 2^28 paragraphs |
| Pmm.AlignFits | seabios/src/pmm.c:60-68 | every request that is let through is within the allocator's wrap guard |
| Pmm.AlignMeans | seabios/src/pmm.c:63-68 | sixteen bytes or, on request, the highest power of two that divides the size |
| Pmm.GetSpace | seabios/src/malloc.c:299-318 | the largest free space of the zone, less room for a record in the temporary zones |
| Pmm.Query | seabios/src/pmm.c:41-59 | for length zero: nothing, the space of the low or the high zone of the kind asked for, or the larger of the two |
| Pmm.ChoiceZones | seabios/src/pmm.c:35-97 | which zones, in which order, each value of the flags asks for |
| Pmm.ServedExact | seabios/src/pmm.c:70-97 | a request is served if and only if one of these zones can serve it, by the first that can |
| Pmm.Serve | seabios/src/pmm.c:70-97 | the first zone in the order the flags ask for that has room serves the request |
| Pmm.Allocate | seabios/src/pmm.c:60-101 | that zone serves it with a fresh aligned block carrying the handle (the default one if an empty region hides the block), or nothing changes; the e820 reservation is made exactly for a permanent high request served from temporary memory |
| Pmm.FindBuffer | seabios/src/pmm.c:105-112 | a non-zero answer is a held block with the handle; zero means the default handle or a handle no held block has |
| Pmm.Deallocate | seabios/src/pmm.c:116-125 | status 0 exactly for the start of a held block that no empty region hides, which is then no longer held |
| HList.Replace | seabios/src/list.h:65-72 | the new node takes the old one's place and every `pprev` still points at the link to its node |
| HList.Del | seabios/src/list.h:26-33 | the list without the node is well formed |
| HList.Add | seabios/src/list.h:36-44 | the list with the node inserted is well formed |
| HList.CopyRecord | seabios/src/malloc.c:88-89 | ranges, links and handle are copied |
| HList.ReplaceBoth | seabios/src/malloc.c:90-91 | both replacements leave all lists well formed with their ranges, also when one node's link lies in the other |
| HList.MoveRecord | seabios/src/malloc.c:74-93 | after the move all lists are well formed with the same ranges, for adjacent nodes in either order too |
| JpegBits.Reader.FillBits | seabios/src/jpeg.c:483-509 | the register stays a window of the payload: stuffing removed, zeros after a marker |
| JpegBits.Reader.GetBits | seabios/src/jpeg.c:527-531 | returns the next `n` bits of the payload and advances by `n` |
| JpegBits.Reader.UngetBits | seabios/src/jpeg.c:533-535 | moves back by `n` bits that were just read |
| Huffman.CodeUnique | seabios/src/jpeg.c:639-665 | canonical codes are prefix-free |
| Huffman.TakenCodes | seabios/src/jpeg.c:639-665 | the codes of each length take exactly the Kraft share of all words |
| Huffman.CodeFits | seabios/src/jpeg.c:645-659 | under the Kraft bound every table index is in range |
| Huffman.CodesAscend | seabios/src/jpeg.c:639-665 | codes, padded to sixteen bits, ascend in the order of the symbols |
| Huffman.CodeOfSymbol | seabios/src/jpeg.c:639-665 | every symbol of the list has a code |
| Huffman.Table.FillCode | seabios/src/jpeg.c:646-660 | the entries of one code are written and no others |
| Huffman.Table.Make | seabios/src/jpeg.c:621-667 | `dec_makehuff` leaves in every slot the entry of the code that the slot's bits start with, and zero elsewhere |
| Huffman.Hit | seabios/src/jpeg.c:571-587 | a stream that starts with a code of at most ten bits selects that code's entry |
| Huffman.Unpack | seabios/src/jpeg.c:628-637 | flag, run, value or size, and bits to put back are recovered from a packed entry |
| Huffman.Table.LongCode | seabios/src/jpeg.c:549-550 | the loop stops at the first length whose codes reach the bits read, or after sixteen |
| Huffman.Table.ReadCode | seabios/src/jpeg.c:538-559 | run and size of the code at the position, failing exactly when there is none |
| Huffman.Table.Receive | seabios/src/jpeg.c:560-568 | as many bits as the size says, with EXTEND, are the value |
| Huffman.Table.DecRec | seabios/src/jpeg.c:538-587 | succeeds exactly when a code matches; run, value and bits taken are those of the canonical decoding; a run and value that were encoded are returned |
| Huffman.EncodesUnique | seabios/src/jpeg.c:538-587 | at most one decoding exists, so that result is the only one |
| Huffman.ExtendValue | seabios/src/jpeg.c:560-568 | EXTEND undoes the encoding of every number in the bits of its magnitude category |
| Huffman.ExtendOdd | seabios/src/jpeg.c:560-568 | the complemented bits stand for the negated value, and bits that start with a one for themselves |
| Huffman.WrittenEncodes | seabios/src/jpeg.c:538-587 | the code of a run and a category followed by the value bits decodes to that run and value, and to that many bits |
| JpegScan.WindowOfPacked | seabios/src/jpeg.c:483-531 | bits packed into bytes, first bit highest, are read back as the number they stand for |
| JpegScan.StuffedPayload | seabios/src/jpeg.c:483-509 | the payload of a stuffed byte string up to the next marker is the byte string |
| JpegScan.ScanRoundTrip | seabios/src/jpeg.c:538-587 | in a scan made of any encodable runs and values each is what the decoder finds at its place, where the one before it ends |
| Relocation.PatchListed | seabios/src/post.c:244-249 | a listed field grows by delta modulo 2^32 |
| Relocation.PatchOther | seabios/src/post.c:244-249 | a field apart from the listed ones is unchanged |
| Relocation.UpdateRelocs | seabios/src/post.c:244-249 | the loop over the list computes that patch in place |
| Relocation.RelocOf | seabios/scripts/layoutrom.py:357-362 | every listed position belongs to a relocation of the chosen kind between the chosen sections |
| Relocation.RelocIn | seabios/scripts/layoutrom.py:357-362 | every such relocation is listed |
| Relocation.PassField | seabios/scripts/layoutrom.py:391-402 | a pass with a generated list moves exactly the selected fields |
| Relocation.RelocationPreserves | seabios/src/post.c:255-281 | after the three passes a field resolves modulo 2^32 to its target's new address, except a relative one from moved code to an absolute symbol, which does so if and only if delta is 0 modulo 2^32 |
| Relocation.UncoveredStale | seabios/scripts/layoutrom.py:391-402 | a linked image with such a reference, which does not resolve after its code has moved by 8 |
| Relocation.RelocationCopies | seabios/src/post.c:272-277 | outside its fields the moved code is the old code byte for byte |
| Relocation.RelocationFrame | seabios/src/post.c:273-279 | outside the new place only fields of unmoved code change |
| Relocation.RelocPreinit | seabios/src/post.c:255-281 | the copy and the three passes in place compute that memory |
| Layout.SectionAligned | seabios/scripts/layoutrom.py:49-61 | every section of a group is aligned |
| Layout.SectionsOrdered | seabios/scripts/layoutrom.py:56-60 | sections follow one another without overlap |
| Layout.EndsBelow | seabios/scripts/layoutrom.py:51-54 | a group ends at or below its end address if and only if it fits above zero or the space left is a multiple of its alignment |
| Layout.StartAbove | seabios/scripts/layoutrom.py:51-54 | a group with room above zero ends in place and starts less than its space and alignment below |
| Layout.StartLeast | seabios/scripts/layoutrom.py:49-54 | a group starts on a multiple of the least alignment asked for |
| Layout.MinAlignLargest | seabios/scripts/layoutrom.py:50-53 | the alignment of a group is the largest of that and those of its sections |
| Layout.SectionsTight | seabios/scripts/layoutrom.py:56-60 | between two sections there is less than the alignment of the second |
| Layout.SetSectionsStart | seabios/scripts/layoutrom.py:49-61 | the loops put every section at its offset from the start |
| LayoutFit.FindFit | seabios/scripts/layoutrom.py:117-128 | the last section that fits with its alignment before the first that is too long, or none |
| LayoutFit.FillGap | seabios/scripts/layoutrom.py:111-137 | fillers lie inside the gap, apart from each other and use it up to an end where nothing that is left fits; the others are untouched |
| LayoutFit.FillNext | seabios/scripts/layoutrom.py:110-137 | filling one more gap keeps the fillers apart and every earlier gap full |
| LayoutFit.FillGaps | seabios/scripts/layoutrom.py:110-137 | fillers of all gaps are apart, each inside one gap, and no gap has room for a filler that went to a later one or to none |
| LayoutFit.FreeApart | seabios/scripts/layoutrom.py:90-102 | gaps of different fixed sections never meet, even if the sections overlap |
| LayoutFit.FitSections | seabios/scripts/layoutrom.py:74-150 | fails exactly for a fixed section with an alignment; else fixed sections are at their addresses, every filler is inside some gap, and after its fillers no gap has room for one that went to a larger gap or to none |
| LayoutRom.FittedLaid | seabios/scripts/layoutrom.py:74-150 | if each fixed section ends by the start of the next, fixed sections and fillers are pairwise apart and above the first fixed address |
| LayoutRom.FixedFitNeeded | seabios/scripts/layoutrom.py:76-88 | fixed sections that are not empty are pairwise apart only then |
| LayoutRom.GroupPlaced | seabios/scripts/layoutrom.py:49-61 | a group that ends in place lies between its start and end, pairwise apart |
| LayoutRom.GroupExact | seabios/scripts/layoutrom.py:49-61 | a group that is not empty lies between its start and end if and only if it ends in place |
| LayoutRom.RoomFits | seabios/scripts/layoutrom.py:183-281 | if the sizes and alignments of all groups and 2048 bytes fit below the first fixed address, every group ends in place, whichever 16-bit sections went into the gaps |
| LayoutRom.PositiveFits | seabios/scripts/layoutrom.py:183-281 | every group ends in place if the lowest one starts above zero |
| LayoutRom.UnplacedNeed | seabios/scripts/layoutrom.py:191-194 | what is left of the 16-bit sections needs no more room than all of them |
| LayoutRom.GroupWhole | seabios/scripts/layoutrom.py:183-266 | the group of a category holds exactly its sections of the prefixes that are laid out |
| LayoutRom.GroupInOrder | seabios/scripts/layoutrom.py:183-239 | text before read-only data before data before zero-initialised data, each in the order of the input |
| LayoutRom.SelectInOrder | seabios/scripts/layoutrom.py:202-213 | the other groups are in the order of the input |
| LayoutRom.PlaceRest | seabios/scripts/layoutrom.py:191-194 | exactly the 16-bit sections without an address are placed below the fixed ones, aligned and in order |
| LayoutRom.Layout16 | seabios/scripts/layoutrom.py:183-194 | every 16-bit section to be laid out is code in a gap between fixed sections or lies aligned below them, without overlap if they end in place and the fixed ones fit |
| LayoutRom.PlaceFlat | seabios/scripts/layoutrom.py:223-239 | flat code ending at an address and init code below it, without overlap if they end in place |
| LayoutRom.LayoutFlat | seabios/scripts/layoutrom.py:216-262 | the same, with the alignment of the init code and an f-segment zone of at least 2048 bytes that is free of them: from 0xf0000 up to the lowest section that stays, or just below the f-segment sections |
| LayoutRom.DoLayout | seabios/scripts/layoutrom.py:178-281 | exactly the sections to be laid out get an address; all but fixed ones and gap fillers are aligned and in the order of their prefix and input; if the fixed sections fit and every group ends in place, no two sections overlap, categories lie in their order, the init range holds exactly the init sections, and the f-segment zone is free of every section that stays; every group does end in place if there is room below the first fixed address; without overlap the fixed sections, if not empty, do fit; segment locations are relative to the base of their segment; where the zones, read-only memory and low memory start and end |
| LayoutRom.FinalLow | seabios/scripts/layoutrom.py:267-274 | low memory ends at read-only memory or at 0xa0000; its zone starts 64 KiB below, on a multiple of 2048 and not below 0xc0000 in upper memory |
| Leal.RearrangedAddress | seabios/scripts/vgafixup.py:39-46 | rearranging base, index and scale keeps the address |
| Leal.Backup | seabios/scripts/vgafixup.py:62-67 | scaling in the index register with a push and a pop restores that register and adds to the destination |
| Leal.LealPreserved | seabios/scripts/vgafixup.py:29-71 | the destination gets base + index*scale + offset modulo 2^32; no other register, flag, or byte but the six below `%esp` changes |
| Leal.HandleLeal | seabios/scripts/vgafixup.py:29-71 | gives up exactly on an `%esp` index; else emits `leaw` for an `%esp` destination and that sequence for any other |
| Leal.LeawLower | seabios/scripts/vgafixup.py:36-38 | `leaw` gives `%esp` the right lower half and changes nothing else; it agrees with `leal` if and only if the upper half of the result is that of the old `%esp` |
| Leal.CallFrame | seabios/scripts/vgafixup.py:83-84 | the rewritten call leaves the same registers, return word and memory outside the upper half of the return address as `calll` |
| Leal.ReturnAfterCall | seabios/scripts/vgafixup.py:79-80 | `retw $2` returns to the caller with its stack pointer |
| Leal.LeavePreserved | seabios/scripts/vgafixup.py:81-82 | the rewritten `leave` has the effect of `leave` |
| Disk.HalvedFits | seabios/src/block.c:162-169 | the shifting loop keeps 16-bit fields and never enlarges the capacity |
| Disk.LogicalFits | seabios/src/block.c:110-191 | at most 1024 cylinders, 16-bit fields and a capacity of at most the disk's sectors; `PlainChoice`, `LargeChoice` and `LbaChoice` say what the geometry is |
| Disk.PlainChoice | seabios/src/block.c:93-108 | a small physical geometry that fits the disk is used as it is |
| Disk.LargeChoice | seabios/src/block.c:157-170 | one with at most 131072 tracks has heads multiplied and cylinders divided by the first power of two that brings 1024 cylinders or more than 127 heads, and loses fewer than that many cylinders |
| Disk.LbaChoice | seabios/src/block.c:93-147 | otherwise 63 sectors per track and the least of 16, 32, 64, 128 and 255 heads that is enough; the capacity is less than 63*1024 sectors short of the disk, or the largest that can be addressed |
| Disk.LargeLoop | seabios/src/block.c:162-169 | the loop in 16-bit arithmetic is the loop in unbounded arithmetic |
| Disk.Drive.SetupTranslation | seabios/src/block.c:111-191 | the geometry computed in 16- and 32-bit arithmetic is the unbounded one |
| Disk.SectorBelow | seabios/src/disk.c:141-150 | an accepted triple addresses a sector within the capacity |
| Disk.SectorInjective | seabios/src/disk.c:149-150 | different accepted triples address different sectors |
| Disk.SectorOnto | seabios/src/disk.c:149-150 | every sector within the capacity has an accepted triple |
| Disk.SectorOrder | seabios/src/disk.c:149-150 | sectors are numbered from 0 through a track, then the heads, then the cylinders |
| Disk.RegisterFields | seabios/src/disk.c:127-129 | the register bit fields are cylinder and sector |
| Disk.RegisterRoundTrip | seabios/src/disk.c:126-129 | every cylinder below 1024, sector below 64 and head below 256 can be asked for |
| Disk.BasicAccess | seabios/src/disk.c:120-150 | accepted if and only if count and triple, read from the register values, are in range; the sector number is the triple's modulo 2^32 |
| Disk.RequestOnDisk | seabios/src/disk.c:119-159 | with a heuristic geometry every accepted request starts on the disk |
| Disk.RequestExact | seabios/src/disk.c:149-150 | with at most 255 physical heads and sectors per track no accepted sector number wraps |
| Cdemu.ProcessOp | seabios/src/block.c:620-639 | the counted blocks are those of the image; over 64 KiB is refused, and an unchanged count on failure counts nothing |
| Cdemu.CdemuRead | seabios/src/cdrom.c:30-86 | the reported sectors are the image's bytes from `ilba*2048 + lba*512` on, also on failure; all of them on success; it fails only when the driver does on a request of at most 32 blocks, never for the 64 KiB limit |
| Digits.ReadNumber | nanoprintf/nanoprintf.h:500-510 | the digits read back as the number, without a leading zero |
| Digits.NumberFits | nanoprintf/nanoprintf.h:84-89 | every 64-bit number fits the conversion buffer in base 8 to 16 |
| Digits.UtoaRev | nanoprintf/nanoprintf.h:500-510 | the buffer holds the digits, last first |
| Digits.BinLenExact | nanoprintf/nanoprintf.h:724-759 | the leading-zero count gives the number of binary digits |
| Digits.BinaryDigit | nanoprintf/nanoprintf.h:1110-1113 | the shifted bits are the binary digits |
| FormatSpec.ParseEnd | nanoprintf/nanoprintf.h:337-498 | a specification lies inside the string |
| FormatSpec.ParseShow | nanoprintf/nanoprintf.h:337-498 | parsing undoes writing a specification, whatever surrounds it |
| FormatSpec.ParseFormatSpec | nanoprintf/nanoprintf.h:337-498 | the loops over flags and width compute that parse; zero length exactly when it fails |
| Printf.MagnitudeExact | nanoprintf/nanoprintf.h:928-929 | 64-bit negation gives the absolute value, also of the least number |
| Printf.FieldLength | nanoprintf/nanoprintf.h:1079-1086 | a field is as long as the larger of its width and its sign and text |
| Printf.ReadBack | nanoprintf/nanoprintf.h:1050-1122 | whatever the flags and width, a number field reads back as its number with its sign |
| Printf.SignedReadBack | nanoprintf/nanoprintf.h:898-932 | a signed conversion reads back as the number in the range of its type that agrees with the argument modulo the type's size, so as the argument if that fits |
| Printf.UnsignedReadBack | nanoprintf/nanoprintf.h:935-985 | `x`, `o`, `u`, `b` and `p` read back in base 16, 8, 10, 2 and 16 as the argument modulo the size of the type |
| Printf.Convert | nanoprintf/nanoprintf.h:860-1000 | the conversion buffer holds the specification's text |
| Printf.Sink.Putc | nanoprintf/nanoprintf.h:762-779 | every character is counted and the first `len` are stored |
| Printf.Sink.PutField | nanoprintf/nanoprintf.h:802-1122 | a conversion emits exactly its field and takes its arguments |
| Printf.Vpprintf | nanoprintf/nanoprintf.h:789-1126 | everything rendered is emitted, the result counts it, and `%n` stores the count so far |
| Printf.PrintOne | nanoprintf/nanoprintf.h:789-1126 | the text of a specification as a format prints its field |
| Printf.PrintReadBack | nanoprintf/nanoprintf.h:789-1126 | printing a number of the right type through any such format and reading the output in base 10, 16, 8 or 2 gives the number |
| PrintfLaws.NumberLetters | nanoprintf/nanoprintf.h:500-510 | numbers are written with the first `base` digits of the lower- or upper-case alphabet |
| PrintfLaws.ParseMeans | nanoprintf/nanoprintf.h:337-498 | a specification is a percent sign, flags, width, length and letter, and says what these stand for in C |
| PrintfLaws.LetterMeans | nanoprintf/nanoprintf.h:433-496 | exactly thirteen letters are conversions, and what each asks for |
| PrintfLaws.LengthMeans | nanoprintf/nanoprintf.h:403-430 | the size of the type that each length modifier stands for |
| PrintfLaws.PaddingLaw | nanoprintf/nanoprintf.h:1079-1122 | sign and text are made up to the width with spaces on the right or left, or zeros between them |
| PrintfLaws.StarWidthLaw | nanoprintf/nanoprintf.h:802-813 | a star stands for its argument as a literal width, to the left if it is negative |
| PrintfLaws.PlainText | nanoprintf/nanoprintf.h:789-801 | text without specifications, stray percent signs included, is printed as it stands |
| PrintfLaws.PercentLaw | nanoprintf/nanoprintf.h:877-881 | two percent signs print one and take no argument |
| PrintfLaws.TextLaw | nanoprintf/nanoprintf.h:887-896 | `%s` prints its argument, nothing for a null pointer |
| PrintfLaws.CharacterLaw | nanoprintf/nanoprintf.h:882-886 | `%c` prints its argument |
| PrintfLaws.SignedLaw | nanoprintf/nanoprintf.h:898-932 | `%d` and `%i` print a minus sign for negative numbers and the decimal digits |
| PrintfLaws.UnsignedLaw | nanoprintf/nanoprintf.h:935-985 | the base and alphabet of every unsigned conversion |
| PrintfLaws.PointerLaw | nanoprintf/nanoprintf.h:935-985 | `%p` prints 64 bits in hexadecimal |
| PrintfLaws.CountLaw | nanoprintf/nanoprintf.h:1004-1030 | `%n` prints nothing and stores the number of characters so far |
| PrintfLaws.PrependLaw | nanoprintf/nanoprintf.h:898-932 | a plus or blank flag puts that character before numbers that are not negative |
| Printf.Vsnprintf | nanoprintf/nanoprintf.h:1154-1175 | the buffer holds the first min(n, size-1) characters, a NUL, and then what it held before; the result is the full length |

## Left out

- EFI boot flow, ACPI glue, chipset unlocking, thunking and video probing: firmware calls, port I/O and assembly.
- Allocator: `zonelow_expand`, EBDA relocation, option-ROM reservation and `malloc_prepboot` depend on BDA memory and linker symbols; low memory is the plain zone of the `CONFIG_MALLOC_UPPERMEMORY` configuration.
- Allocator: regions given to `alloc_add` do not overlap, an empty one does not lie inside another, and one that starts at 0 is empty, as the callers ensure; the allocator uses address 0 for failure.
- Malloc.Heap.Palloc: sizes and alignments stay within the limit of the wrap guard, which `Zones.WrapGuardLimit` shows to be exact and `Pmm.AlignFits` shows for PMM requests.
- E820.RunSound: ranges end below 2^64, on which the source relies without a test; `E820.TopLimit` shows that the bound is exact for ranges that do not pass 2^64.
- E820Map.BuildMap: starts from an empty table, as at boot; `dump_map` only prints.
- HList.MoveRecord: the record's address is an object identity, so the byte copy is a copy of fields.
- JPEG marker parsing, IDCT, colour conversion and the filling of blocks; scans without an end marker, which the reader would run past; the refill callback of the input.
- Huffman.Table.DecRec: after a rejected stream the reader's state is unspecified, as the source leaves its registers half updated.
- Relocation: 16-bit relocation types; the allocation before the copy and the jump to the moved code after it; the order in the lists is only required to be increasing, as `sort` makes it.
- Layout.SetSectionsStart: alignments are powers of two, and the division is exact integer division rounded toward zero, as the floating-point quotient is at these magnitudes.
- LayoutFit.FillGap: does not promise alignment of fillers, because the source reserves aligned room but records the unaligned position.
- LayoutRom.DoLayout: does not promise disjointness when some group does not end in place (`Layout.EndsBelow` says when), and not that disjointness then fails, because the overlap may fall on padding or empty sections.
- Leal: operands with neither base nor index and a destination other than `%esp`, parsing of assembly text, and a 16-bit stack pointer that wraps inside the sequence.
- Disk: host-supplied and NVRAM translations, whose geometry comes from outside; whether a request of several sectors ends on the disk.
- Disk.Drive.SetupTranslation: heads times cylinders is below 2^31, since the source multiplies them as C `int`.
- Cdemu.CdemuRead: counts up to 128 sectors, as INT 13h requests have; drivers are any function that stores what it reports.
- Printf: `long`, `size_t` and pointers have 64 bits, as in the UEFI build; 32-bit builds, where they have 32, are not modelled.
- Printf: precision, floating point and the alternate form are compiled out; an `INT_MIN` star width, counts beyond `int` and arguments of the wrong type are undefined in C.
- Signed division wrappers, shifts, comparisons and population counts of the runtime, hashes, fonts and tables: they would only add easy members.
