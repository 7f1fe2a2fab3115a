# Verified models of rstd's runtime, parsers and protocols

Dafny models of the parts of rstd whose correctness rests on an invariant that no single function shows,
with proofs of what those parts promise:

* the dlmalloc allocator of the wasm32 runtime, from bit tricks and the in-memory size tries up to every run
  of allocations, releases, resizings and client writes over growing linear memory;
* 128-bit unsigned division;
* the TOML parser's two trees, the JSON reader's language, its two encodings and two walks, and exact integers
  in both;
* the serde token stream, with what it accepts and where it fails;
* two concurrent protocols, as atomic steps of any number of threads: the one-time construction guard and
  the two-phase epoch barrier;
* the first-fit range model and the checker of sort results.

`dafny verify dfyconfig.toml` checks everything. Automatic induction is switched off on every lemma
(`{:induction false}`), so each proof is the one that is written down.

## How it is laid out

| files | what they hold |
|---|---|
| `Options`, `Powers`, `BinMaps`, `Alignment` | the option type, powers of two, 32-bit maps as numbers with their bit operations, alignment arithmetic |
| `Division` | `__udivmodti4` |
| `TreeIndex`, `SizeTrie`, `TrieMemory`, `TrieEdit`, `TreeBins`, `BinEdits`, `LargeBins` | tree bins: the index function, the trie as a value, its representation in memory cells, pointer edits, and the class that performs them |
| `SmallBins`, `ChunkBins` | small bins as circular lists with a map, and both kinds of bin together |
| `HeapTiling`, `HeapPlacement`, `HeapRelease`, `HeapResize`, `HeapFrame` | boundary tags, where each free chunk is kept, coalescing, growing, and what all that leaves of the bytes in live blocks |
| `FreeStore`, `Malloc`, `WasmMemory`, `Allocator`, `Replays`, `Sessions` | which free chunk serves and what is left, without the heap; malloc, free, realloc and memalign on chunks; linear memory; the entry points with `sys_alloc`; what a run of client requests comes to, and the runs themselves |
| `TomlTables`, `TomlGrowth`, `TomlParser`, `TomlMeaning`, `TomlAcceptance` | the value tree and the definition tree, how they may grow, the parser over statements, what a document means, and which statements are accepted |
| `Unicode`, `JsonString`, `JsonAgreement`, `JsonGrammar`, `JsonTokens`, `JsonLiterals`, `JsonWalk`, `JsonLanguage`, `JsonMeaning`, `JsonTwins`, `JsonReader` | UTF-8 and UTF-16, string literals in both, their agreement, the reader's steps, blanks, numbers and string literals as the grammar has them, the walks, the language they accept and what it means, whole values in both encodings, and the class with its cursor |
| `Integers` | integer literals of TOML and JSON |
| `TokenStream`, `TokenFailures` | the token stream's recogniser and writer, and its failures |
| `FirstFit`, `RangeTrace` | the first-fit span array, and the trace loop over it |
| `EpochBarrier`, `EpochWork` | the barrier and its safety; what its rounds get done |
| `OnceGuard`, `SortCheck` | the rest, one file each |

Imperative code is modelled by classes and methods with loops (the allocator, the division, the readers,
the token stream, the span array, the checker); concurrent code by a state, a step function and lemmas about
all runs. Machine words are numbers with the wrap-around written out.

## Findings

* `internal_memalign` rounds an alignment that is not a power of two up by doubling a 32-bit word; the loop
  ends if and only if the alignment is at most 2^31 (`Alignment.RoundingEndsIff`). The runtime's exports refuse
  such alignments before the call.
* The non-contiguous path of `sys_alloc` hands `init_top` a whole number of pages; top's size word then keeps
  its flag bits clear if and only if the base is a multiple of 8 (`Allocator.MisalignedBase`). The model
  therefore takes `__heap_base` to be a multiple of 8, which the wasm linker guarantees. With that, the break
  is never 2^32-1, the one value that `wasm_morecore(0)` could not tell from failure.
* The sign-mask comparison in the division is right if and only if the dividend is less than 2^127 above
  the divisor and the divisor at most 2^127 above the dividend (`Division.SignMaskNeedsAlignment`); the loop keeps
  the two that close.
* `resolve_table` in the TOML parser never fails once `resolve_definition` has succeeded, and `insert_path`'s
  second duplicate test never decides (`TomlParser.InsertMirrors`).
* A chunk one step larger than asked for is a remainderless fit for a small request only while it is in a small bin:
  for the largest small request, of 248 bytes, a binned chunk of 256 is not taken before the designated victim
  (`FreeStore.Exact`).
* `scan_number` does not backtrack: it takes the longest number there is, but fails
  where that is followed by what looks like more of it (`JsonTokens.ScanNoBacktrack`: on `1.`, though `1` is a
  number). It succeeds if and only if a number begins there that no digit, point or exponent mark continues
  (`JsonTokens.ScanIff`).

## Model

| member | source | states |
|---|---|---|
| BinMaps.MarkBit | src/runtime/dlmalloc/malloc.c:2927-2931 | marking adds exactly one index to the map |
| BinMaps.ClearBit | src/runtime/dlmalloc/malloc.c:2928-2932 | clearing removes exactly one index from the map |
| BinMaps.MarksAbove | src/runtime/dlmalloc/malloc.c:2938-2939 | `left_bits` masks out everything but the marks above an index |
| BinMaps.LowestMark | src/runtime/dlmalloc/malloc.c:2935-2971 | `least_bit` and `ffs` give the lowest marked index |
| Division.QuotientDigit | src/runtime/compiler-rt/builtins/udivmodti4.c:54-78 | each digit of Algorithm D is exact after at most two corrections, and its partial remainder is below the divisor |
| Division.WrappedRemainder | src/runtime/compiler-rt/builtins/udivmodti4.c:66-70 | the 64-bit wrapped difference is the true partial remainder |
| Division.Udiv128By64To64 | src/runtime/compiler-rt/builtins/udivmodti4.c:23-82 | exact quotient and remainder of u1*2^64+u0 by v for all u1 < v |
| Division.InitialShift | src/runtime/compiler-rt/builtins/udivmodti4.c:133-138 | shifting the divisor loses no bit, brings it within 2^127 of the dividend and establishes the loop invariant |
| Division.SignMaskCompares | src/runtime/compiler-rt/builtins/udivmodti4.c:141-151 | while divisor and dividend are within 2^127 of each other the sign mask selects exactly dividend >= divisor |
| Division.SignMaskNeedsAlignment | src/runtime/compiler-rt/builtins/udivmodti4.c:141-151 | the sign mask compares correctly if and only if they are that close |
| Division.ShiftSubtract | src/runtime/compiler-rt/builtins/udivmodti4.c:131-156 | the shift/subtract loop divides exactly when the divisor has a high word |
| Division.Udivmodti4 | src/runtime/compiler-rt/builtins/udivmodti4.c:100-156 | a = q*b + r with r < b for all a and all b > 0 |
| Division.DivisionUnique | src/runtime/compiler-rt/builtins/udivmodti4.c:97-99 | that equation determines quotient and remainder |
| TreeIndex.TreeIndexInBin | src/runtime/dlmalloc/malloc.c:2887-2903 | every large size is filed in the bin whose interval minsize(i) <= s < minsize(i+1) holds it |
| TreeIndex.BinUnique | src/runtime/dlmalloc/malloc.c:2911-2918 | the bins partition the sizes, in order |
| TreeIndex.TopBitIs | src/runtime/dlmalloc/malloc.c:2911-2914 | the shifted size word shows, level by level, on which side of the middle a size lies |
| SizeTrie.LeftBelowRight | src/runtime/dlmalloc/malloc.c:3338-3350 | under the prefix invariant each left subtree lies below its right subtree |
| SizeTrie.LeastIsMinimum | src/runtime/dlmalloc/malloc.c:2419 | the walk along leftmost children finds the minimum of a whole trie |
| SizeTrie.SearchStep | src/runtime/dlmalloc/malloc.c:4446-4468 | one step of the descent keeps every chunk that may still be the best fit covered by the best so far, the current subtree or the deepest untaken right subtree |
| SizeTrie.ReplaceByLeafRange | src/runtime/dlmalloc/malloc.c:3737-3751 | replacing a node by a leaf below it keeps every node under its prefix |
| SizeTrie.ReplaceByLeafStored | src/runtime/dlmalloc/malloc.c:3737-3751 | and loses exactly the chunks of the node |
| TrieMemory.PutRep | src/runtime/dlmalloc/malloc.c:3654-3693 | replacing a subtree in memory leaves the rest of the trie represented as it was |
| TrieEdit.TransplantRep | src/runtime/dlmalloc/malloc.c:3752-3790 | relinking a ready replacement to the parent and children of a node represents the trie with that node replaced |
| TreeBins.ReplaceBin | src/runtime/dlmalloc/malloc.c:3357-3389 | a correct edit of one bin keeps all bins valid |
| LargeBins.LargeBins.constructor | src/runtime/dlmalloc/malloc.c:3917-3924 | empty bins are valid |
| LargeBins.LargeBins.FindSlot | src/runtime/dlmalloc/malloc.c:3668-3694 | the descent ends at the node of the size, or at the empty slot where it belongs |
| LargeBins.LargeBins.Insert | src/runtime/dlmalloc/malloc.c:3654-3693 | inserting keeps the trie invariant in memory and adds exactly that chunk |
| LargeBins.LargeBins.CutLeaf | src/runtime/dlmalloc/malloc.c:3737-3751 | the loop finds the rightmost leaf below a node and empties its slot |
| LargeBins.LargeBins.FinishUnlink | src/runtime/dlmalloc/malloc.c:3752-3791 | the replacement takes over parent slot and children, and an emptied bin loses its mark |
| LargeBins.LargeBins.Unlink | src/runtime/dlmalloc/malloc.c:3722-3791 | unlinking a chained node, leaf or inner node keeps the invariant and removes exactly that chunk |
| LargeBins.LargeBins.SearchBin | src/runtime/dlmalloc/malloc.c:4446-4468 | after the descent the best fit of the bin is the one in hand or in the remembered subtree |
| LargeBins.LargeBins.LeftmostWalk | src/runtime/dlmalloc/malloc.c:4479-4486 | the walk improves the candidate to the least size of the subtree |
| LargeBins.LargeBins.BestFit | src/runtime/dlmalloc/malloc.c:4440-4486 | the search selects a chunk of least size >= nb among all tree chunks, or none fits |
| LargeBins.LargeBins.Smallest | src/runtime/dlmalloc/malloc.c:4511-4527 | the small-request search selects the smallest of all tree chunks |
| LargeBins.EmptyIff | src/runtime/dlmalloc/malloc.c:3357-3370 | the treemap is zero if and only if no chunk is in a tree bin |
| SmallBins.SmallBins.Insert | src/runtime/dlmalloc/malloc.c:3576-3592 | inserting keeps every list with a mark valid and adds exactly that chunk, at the front of its list |
| SmallBins.SmallBins.Unlink | src/runtime/dlmalloc/malloc.c:3595-3637 | unlinking keeps them valid and removes exactly that chunk; stale pointers of an emptied bin do no harm |
| SmallBins.SmallBins.ExactFit | src/runtime/dlmalloc/malloc.c:4586-4594 | the two-bit test finds the first chunk of the bin or of the next, and null means both are empty |
| SmallBins.SmallBins.NextFit | src/runtime/dlmalloc/malloc.c:4602-4612 | the first chunk of the next marked bin, which is the smallest that is large enough |
| ChunkBins.ChunkBins.Insert | src/runtime/dlmalloc/malloc.c:3795-3797 | `insert_chunk` adds exactly that chunk to the bins of its size |
| ChunkBins.ChunkBins.Unlink | src/runtime/dlmalloc/malloc.c:3799-3801 | `unlink_chunk` removes exactly that chunk |
| FreeStore.SomeChosen | src/runtime/dlmalloc/malloc.c:4578-4674 | some chunk is chosen whenever any chunk at hand fits |
| FreeStore.ChosenFits | src/runtime/dlmalloc/malloc.c:4578-4674 | what is chosen fits with less than a chunk to spare, and is the tightest fit of all binned chunks unless dv or top serves |
| HeapTiling.MakeFreeTiled | src/runtime/dlmalloc/malloc.c:2297-2299 | turning a run between two chunks in use into one free chunk keeps tiling, tags and coalescing |
| HeapTiling.MakeTopTiled | src/runtime/dlmalloc/malloc.c:4740-4747 | so does giving the end of the heap to top |
| HeapTiling.MakeUsedTiled | src/runtime/dlmalloc/malloc.c:3060-3067 | so does taking a run into use |
| HeapTiling.SplitUsedTiled | src/runtime/dlmalloc/malloc.c:4829-4834 | so does cutting a chunk in use |
| HeapTiling.SplitTopTiled | src/runtime/dlmalloc/malloc.c:4664-4669 | so does taking the front of top |
| HeapTiling.ExtendTopTiled | src/runtime/dlmalloc/malloc.c:3902-3914 | so does growing top |
| HeapTiling.FreshHeapTiled | src/runtime/dlmalloc/malloc.c:3902-3914 | a first segment that is all top is a tiled heap |
| HeapTiling.PayloadsDisjoint | src/runtime/dlmalloc/malloc.c:2227-2228 | payloads of chunks in use do not overlap |
| HeapTiling.PayloadWriteTiled | src/runtime/dlmalloc/malloc.c:2155-2167 | whatever is written inside a live payload, including the borrowed foot of the next chunk, the heap stays tiled with the same live and free chunks of the same sizes |
| HeapTiling.WalkTiles | src/runtime/dlmalloc/malloc.c:3429-3457 | following sizes meets every chunk once, in order, and the sizes add up to the heap below top |
| HeapPlacement.PlacedSizes | src/runtime/dlmalloc/malloc.c:3429-3487 | what is in a bin, or is dv, is a free chunk of that size between chunks in use |
| HeapPlacement.PayloadWritePlaced | src/runtime/dlmalloc/malloc.c:2155-2167 | and every free chunk is still where the bins and dv say it is |
| HeapPlacement.SplitPlaced | src/runtime/dlmalloc/malloc.c:4528-4540 | splitting a free chunk keeps tiling and placement and adds one live chunk |
| HeapRelease.BackwardRun | src/runtime/dlmalloc/malloc.c:4711-4736 | the run to free begins at the chunk or, found by its foot, at the one free chunk before it |
| HeapRelease.ForwardRun | src/runtime/dlmalloc/malloc.c:4738-4770 | and ends behind the chunk or behind the one free chunk after it |
| HeapResize.GrowIntoTopPlaced | src/runtime/dlmalloc/malloc.c:4837-4848 | growing into top keeps tiling and placement and changes one live size |
| HeapResize.AbsorbPlaced | src/runtime/dlmalloc/malloc.c:4849-4888 | so does growing over the free chunk behind |
| HeapFrame.WrittenUntouched | src/runtime/dlmalloc/malloc.c:2297-2299 | heads and feet written outside a payload that is live before and after leave its words alone, coalescing and splitting included |
| HeapFrame.PayloadKept | src/runtime/dlmalloc/malloc.c:2227-2228 | no byte of a payload live before and after an operation is in a word it wrote or in the body of a free chunk |
| HeapFrame.KeptBytes | src/runtime/dlmalloc/malloc.c:2227-2228 | so all bytes that a block has before and after an operation are the same, whatever the operation wrote elsewhere |
| HeapFrame.BytesMoved | src/runtime/dlmalloc/malloc.c:5223-5230 | allocate, copy, free: every other block keeps its bytes, and the bytes copied arrive |
| Malloc.MallocState.ReplaceDv | src/runtime/dlmalloc/malloc.c:3640-3648 | the remainder becomes dv, and the old dv goes to its bin, and nothing else changes in free memory |
| Malloc.MallocState.TmallocSmall | src/runtime/dlmalloc/malloc.c:4511-4546 | serves a small request from the smallest tree chunk of all, with the remainder becoming dv |
| Malloc.MallocState.BestTree | src/runtime/dlmalloc/malloc.c:4440-4489 | the tree chunk chosen is the best fit, and is used exactly when it fits strictly better than dv |
| Malloc.MallocState.TmallocLarge | src/runtime/dlmalloc/malloc.c:4440-4508 | serves a large request from it, with the remainder binned, or changes nothing |
| Malloc.MallocState.SmallRequest | src/runtime/dlmalloc/malloc.c:4581-4633 | a remainderless fit if there is one, and otherwise, if dv is too small, a smallest fitting binned chunk; null only if no binned chunk fits or dv does |
| Malloc.MallocState.FromDv | src/runtime/dlmalloc/malloc.c:4644-4662 | serves from dv, which becomes the remainder or nothing |
| Malloc.MallocState.FromTop | src/runtime/dlmalloc/malloc.c:4664-4674 | serves from the front of top |
| Malloc.MallocState.Find | src/runtime/dlmalloc/malloc.c:4578-4674 | malloc short of the system serves from exactly the chunk that the policy chooses (`FreeStore.Chosen`), hands out all of it or nb bytes, and leaves the free memory that this makes; it fails if and only if no chunk at hand fits, and then changes nothing |
| Malloc.MallocState.Dispose | src/runtime/dlmalloc/malloc.c:4369-4435 | releasing a chunk removes exactly it from the live chunks and keeps the heap sound; the chunk joins its free neighbours and goes to top, to dv or to a bin, as `FreeStore.AfterFree` says |
| Malloc.MallocState.TryRealloc | src/runtime/dlmalloc/malloc.c:4817-4894 | resizes in place if and only if the chunk is large enough, or top behind it with a byte to spare, or the free chunk behind it; then size and free memory are as `FreeStore.AfterGrow` says, and otherwise nothing changes |
| Malloc.MallocState.Trim | src/runtime/dlmalloc/malloc.c:4828-4834 | cuts a live chunk and releases the rest, which joins what is free behind it |
| Malloc.MallocState.GiveLeader | src/runtime/dlmalloc/malloc.c:4940-4944 | cuts a live chunk and releases the front, which joins what is free before it |
| Malloc.MallocState.InitTop | src/runtime/dlmalloc/malloc.c:3902-3914 | top, its size, its head word and the fake chunk behind it |
| Malloc.MallocState.Scribble | src/runtime/dlmalloc/malloc.c:2155-2167 | a client writing in its payload changes no live block and keeps the whole allocator state sound |
| Malloc.CloserFit | src/runtime/dlmalloc/malloc.c:4488-4489 | the unsigned test `rsize < dvsize - nb` means: dv does not fit, or fits worse |
| WasmMemory.Memory.Morecore | src/runtime/src/alloc_wasm.c:10-22 | the break moves by exactly the increment and just enough pages back it, or it does not move; and then the address space ends or the host has turned a request down |
| Alignment.PowerTest | src/runtime/src/alloc_wasm.c:65 | the mask test accepts exactly the powers of two |
| Alignment.RoundToPower | src/runtime/dlmalloc/malloc.c:4900-4904 | the least power of two, from 16 on, that is no less than the alignment |
| Alignment.RoundingEndsIff | src/runtime/dlmalloc/malloc.c:4900-4904 | the rounding loop ends if and only if the alignment is at most 2^31 |
| Alignment.MaskRounds | src/runtime/dlmalloc/malloc.c:2682-2684 | clearing the low bits with `& ~(a-1)` rounds down to a multiple of a, in any word width |
| Alignment.AlignUpIsMask | src/alloc/src/range.cppm:78-80 | on words of any width, adding a-1 and masking is `AlignUp`, as long as the sum does not wrap |
| Allocator.RequestFits | src/runtime/dlmalloc/malloc.c:2232-2242 | padding gives a legal chunk size that holds the bytes and is no larger than needed |
| Allocator.GranularityIsMask | src/runtime/dlmalloc/malloc.c:2682-2684 | the rounding to pages is the mask expression of the source, wrap-around included |
| Allocator.ProductTest | src/runtime/dlmalloc/malloc.c:4801-4805 | `dlcalloc`'s overflow test lets a product through if and only if it fits a word |
| Allocator.MisalignedBase | src/runtime/dlmalloc/malloc.c:3902-3914 | a first segment of whole pages leaves top's flag bits clear if and only if its base is aligned |
| Allocator.Allocator.Contiguous | src/runtime/dlmalloc/malloc.c:4089-4148 | what is obtained starts at the old break, is what top lacks or reaches a page boundary, and is enough; the partial-failure path is not reached |
| Allocator.Allocator.Noncontiguous | src/runtime/dlmalloc/malloc.c:4159-4175 | the same of the non-contiguous attempt |
| Allocator.Allocator.Serve | src/runtime/dlmalloc/malloc.c:4177-4244 | memory obtained extends the one segment, prepending and adding segments are not reached, and nb < topsize, so the request is served |
| Allocator.Allocator.SysAlloc | src/runtime/dlmalloc/malloc.c:4043-4249 | in every reachable state memory obtained from the system serves the request, from the old top or the old break, and as much is obtained as the attempt made asks for; failure changes nothing, and means that the rounded size wraps, is half of memory or ends behind it, or that the host turned a request down |
| Allocator.Allocator.Conserved | src/runtime/dlmalloc/malloc.c:3429-3487 | live bytes, free bytes, top and its foot add up to the segment |
| Allocator.Allocator.Malloc | src/runtime/dlmalloc/malloc.c:4550-4683 | one new live block with room for the bytes, from the chunk at hand that the policy chooses, or else from the system; or nothing, if no chunk at hand fits and the system could not or would not give more; every block keeps its bytes |
| Allocator.Allocator.Free | src/runtime/dlmalloc/malloc.c:4688-4795 | removes exactly that block, which joins free memory as `FreeStore.AfterFree` says; null does nothing; every other block keeps its bytes |
| Allocator.Allocator.ReallocInPlace | src/runtime/dlmalloc/malloc.c:5236-5265 | if and only if the chunk can grow (see `TryRealloc`) the same block with room for the bytes and its old bytes as far as they fit; otherwise nothing changes |
| Allocator.Allocator.Realloc | src/runtime/dlmalloc/malloc.c:5191-5234 | the block is resized where it is if it can grow, and otherwise moved, with the first min(old, new) bytes in place and a copy as long as both allow; all other blocks keep their bytes; null only if it can not grow, nothing at hand fits and the system gave nothing |
| Allocator.Allocator.ReallocMoving | src/runtime/dlmalloc/malloc.c:5223-5230 | the moving half: allocate, copy, free |
| Allocator.Allocator.Copy | src/runtime/dlmalloc/malloc.c:5226-5227 | copying into a block held breaks nothing: the bytes arrive and all others stay |
| Allocator.Allocator.Relocate | src/runtime/dlmalloc/malloc.c:5226-5228 | copying and freeing carries the bytes over, and all other blocks keep theirs |
| Allocator.Allocator.Calloc | src/runtime/dlmalloc/malloc.c:4797-4810 | a zeroed block for n*size bytes, and null if the product does not fit a word |
| Allocator.Allocator.Store | src/runtime/dlmalloc/malloc.c:2155-2167 | a byte written by the client is the only one that changes, and the heap stays sound |
| Allocator.Allocator.InternalMemalign | src/runtime/dlmalloc/malloc.c:4896-4968 | one new block at a multiple of the rounded alignment; null only if the over-sized request fails as `Malloc` may |
| Allocator.Allocator.GiveBack | src/runtime/dlmalloc/malloc.c:4915-4958 | the block moves to the first aligned spot that leaves no front or a legal one; the front and the spare end go back |
| Allocator.LeaderFits | src/runtime/dlmalloc/malloc.c:4927-4934 | the aligned spot leaves a leader of legal size within alignment + 8 bytes |
| Allocator.FirstSpot | src/runtime/dlmalloc/malloc.c:4927-4934 | and it is the first such spot |
| Allocator.Allocator.Memalign | src/runtime/dlmalloc/malloc.c:5267-5272 | one new block aligned as asked, for every power of two; null only if what it asks of `dlmalloc` is not at hand and the system gave nothing |
| Allocator.Allocator.RstdAlloc | src/runtime/src/alloc_wasm.c:63-67 | a block aligned and large enough, empty requests included; null only if the alignment is no power of two, or as in `Memalign` |
| Allocator.Allocator.RstdRealloc | src/runtime/src/alloc_wasm.c:76-91 | keeps the alignment, moved or not; the first min(old, new) bytes survive, and other blocks keep theirs; null only if the block can not grow and there is no room for another |
| Allocator.Allocator.ReallocAligned | src/runtime/src/alloc_wasm.c:81-90 | the same of the branch for large alignments, in place or by a move |
| Allocator.Allocator.RstdAllocZeroed | src/runtime/src/alloc_wasm.c:94-101 | an aligned block whose bytes asked for are all zero; null as in `RstdAlloc` |
| Sessions.Session.Alloc | src/runtime/src/alloc_wasm.c:63-67 | the client's view: one more block held, and all that was written still reads back |
| Sessions.Session.AllocZeroed | src/runtime/src/alloc_wasm.c:94-101 | one more, of which every byte reads as zero |
| Sessions.Session.Release | src/runtime/src/alloc_wasm.c:69-74 | one block fewer |
| Sessions.Session.Resize | src/runtime/src/alloc_wasm.c:76-91 | one block replaced, with what was written to it as far as it fits |
| Sessions.Session.Write | src/runtime/dlmalloc/malloc.c:2155-2167 | a write to a block held changes what that byte reads as, and nothing else |
| Sessions.Session.SafeSeparate | src/runtime/dlmalloc/malloc.c:3225-3290 | blocks held are disjoint, inside linear memory, and as large and aligned as asked |
| Replays.StillKnown | src/runtime/src/alloc_wasm.c:63-101 | what is known of a byte is not lost by any requests behind it, but by release, cutting off and overwriting |
| Sessions.Session.Run | src/runtime/src/alloc_wasm.c:63-101 | after every run of allocations, zeroed allocations, releases, resizings and writes, what is held is what the requests and the addresses returned make it; blocks are apart and the heap is sound; and unless the host turned a request for pages down, only requests were refused that the system could not have met |
| Sessions.Session.ReadsLastWritten | src/runtime/src/alloc_wasm.c:76-91 | after any run, memory holds the last value written to a byte, wherever resizing has taken its block, unless it was released or cut off |
| Sessions.Session.ReadsZeroed | src/runtime/src/alloc_wasm.c:94-101 | and zero where a block came zeroed and was not written |
| TomlTables.WalksTogether | src/toml/src/parser.cpp:377-447 | once `resolve_definition` succeeds, so does `resolve_table`, at places that mirror each other |
| TomlTables.ResolvesTogether | src/toml/src/parser.cpp:404-453 | a path that resolves among the definitions resolves in the document |
| TomlTables.ResolvedWalk | src/toml/src/parser.cpp:404-453 | where the current path resolves, resolving it again creates nothing |
| TomlTables.PutTogether | src/toml/src/parser.cpp:820-836 | a change at corresponding places keeps the mirror |
| TomlGrowth.KeepsTrans | src/toml/src/parser.cpp:820-836 | "nothing stored has changed" carries over from statement to statement |
| TomlGrowth.WalksKeep | src/toml/src/parser.cpp:377-447 | walking a path, creating what is missing, changes nothing stored |
| TomlGrowth.PlacesKept | src/toml/src/parser.cpp:820-836 | every place, through keys and array-of-tables indices, keeps its kind and what that kind fixes |
| TomlParser.InsertMirrors | src/toml/src/parser.cpp:820-836 | `insert_path` keeps the mirror and overwrites nothing; its checks on the value tree never decide |
| TomlParser.InsertStores | src/toml/src/parser.cpp:820-836 | where `insert_path` succeeds there was nothing under the key, and now there is the value |
| TomlParser.EntriesMirror | src/toml/src/parser.cpp:839-883 | an inline table's own pair of trees mirror each other at every entry |
| TomlParser.Eval | src/toml/src/parser.cpp:784-906 | a value is within the nesting limit and every value written is counted once (see `TomlMeaning.EvalMeans` and `TomlAcceptance.EvalIff`) |
| TomlParser.HeaderConsistent | src/toml/src/parser.cpp:933-993 | a header keeps the mirror, overwrites nothing, and its path is current and resolves (see `TomlMeaning.HeaderStores` and `TomlAcceptance.HeaderIff`) |
| TomlParser.AssignmentConsistent | src/toml/src/parser.cpp:910-930 | so does an assignment, whose current table is found without creating anything |
| TomlParser.AssignmentStores | src/toml/src/parser.cpp:910-930 | an assignment puts its value at the place of its key under the current path, which was empty |
| TomlParser.RunConsistent | src/toml/src/parser.cpp:1076-1090 | along every successful run the trees mirror each other and all that is stored stays |
| TomlParser.StoredForGood | src/toml/src/parser.cpp:820-883 | a value or inline table stored under a place is there unchanged at the end |
| TomlParser.AssignedForGood | src/toml/src/parser.cpp:1076-1090 | a plain value or inline table assigned anywhere in a successful run is at its place, unchanged, at the end |
| TomlParser.ExplicitOnce | src/toml/src/parser.cpp:977-990 | a second header for the same table is refused as a duplicate, whatever came between |
| TomlMeaning.EvalMeans | src/toml/src/parser.cpp:784-906 | an atom is itself, an array its items in order, an inline table its entries, each put at its path |
| TomlMeaning.AssignmentMeans | src/toml/src/parser.cpp:910-930 | the document changes at one place, the path below the current table, which was empty |
| TomlMeaning.HeaderMeans | src/toml/src/parser.cpp:933-993 | a header changes the document at its path only: an empty table where nothing was, one more empty table at the end of an array, and nothing where a table was |
| TomlMeaning.HeaderStores | src/toml/src/parser.cpp:933-993 | afterwards the table that was opened or appended is there, and is the current one |
| TomlMeaning.RunMeans | src/toml/src/parser.cpp:1076-1090 | a document that is accepted is the one its statements mean, taken one by one without definitions |
| TomlAcceptance.WalkIff | src/toml/src/parser.cpp:410-447 | a walk succeeds if and only if everything that stands under a prefix of its path can be entered |
| TomlAcceptance.HeaderIff | src/toml/src/parser.cpp:933-993 | a header is accepted if and only if its way is open and its place is empty, or implicit for `[k]`, or an array of tables for `[[k]]`; and which error otherwise |
| TomlAcceptance.AssignmentIff | src/toml/src/parser.cpp:910-930 | an assignment is accepted if and only if nothing but dotted tables stands on its way below the current table, and nothing at its place; and which error otherwise |
| TomlAcceptance.HeaderKnows | src/toml/src/parser.cpp:933-993 | what a header makes known: its place is explicit or one table longer, what it made on the way is implicit, all else is as it was |
| TomlAcceptance.AssignmentKnows | src/toml/src/parser.cpp:820-836 | what an assignment makes known: a value at its place, dotted tables on the way, all else as it was |
| TomlAcceptance.EvalIff | src/toml/src/parser.cpp:784-906 | a value is accepted if and only if it is shallow, within the number of values allowed, and no path of an inline table leads to or through another |
| TomlParser.TomlParser.ParseStatement | src/toml/src/parser.cpp:910-993 | one statement on the parser's fields keeps them consistent |
| TomlParser.TomlParser.Parse | src/toml/src/parser.cpp:1076-1090 | the loop computes the run, or its first failure |
| Unicode.JoinUtf16 | src/json/src/reader.cpp:197-212 | units of text join back to the text |
| Unicode.LoneSpoils | src/json/src/reader.cpp:197-212 | a surrogate that is not half of a pair makes the whole fail, whatever follows |
| Unicode.DecodeUtf8 | src/json/src/reader.cpp:217-220 | bytes of text decode to the text |
| JsonAgreement.ChunkAgrees | src/json/src/reader.cpp:254-258 | raw chunks end at the same character in both encodings |
| JsonAgreement.ChunkText | src/json/src/reader.cpp:216-220 | chunks of UTF-8 begin and end between characters, so the unwrap does not fail |
| JsonAgreement.HexAgrees | src/json/src/reader.cpp:111-123 | hexadecimal escapes read alike in both |
| JsonAgreement.Doomed | src/json/src/reader.cpp:126-159 | a high surrogate without its second half next to it makes the UTF-16 reading fail in the end |
| JsonAgreement.PairAgrees | src/json/src/reader.cpp:126-159 | a written surrogate pair is one step over UTF-8 and two over UTF-16, to the same effect |
| JsonAgreement.EncodingsAgree | src/json/src/reader.cpp:240-299 | both encodings of every text are accepted together, decode to the same string and end at corresponding places |
| JsonTwins.SpaceTwin | src/json/src/reader.cpp:53-88 | blanks and comments end at corresponding places of both encodings |
| JsonTwins.NumberTwin | src/json/src/reader.cpp:303-423 | numbers are taken alike from both, with the same value |
| JsonTwins.ParseTwin | src/json/src/parser.cpp:13-84 | from corresponding places both encodings of a text give the same value, depth and corresponding ends, or both fail |
| JsonTwins.SkipTwin | src/json/src/reader.cpp:510-556 | the same of skipping |
| JsonTwins.ValuesAgree | src/json/src/parser.cpp:56-84 | so the two forms of any text, with any options and depth, are built and skipped alike |
| JsonReader.AppendUtf16 | src/json/src/reader.cpp:197-212 | the loop joins units, or fails, as specified |
| JsonReader.Reader.ReadString8 | src/json/src/reader.cpp:240-288 | the reading loop over UTF-8 |
| JsonReader.Reader.ReadUnits16 | src/json/src/reader.cpp:240-288 | the reading loop over UTF-16 |
| JsonReader.Reader.ParseString | src/json/src/reader.cpp:290-298 | `parse_string` in both encodings |
| JsonReader.Reader.ConsumeWhitespace | src/json/src/reader.cpp:53-88 | the loop over white space and comments ends where `Space` says (see `JsonTokens.SpaceIff`) |
| JsonReader.Reader.ScanNumber | src/json/src/reader.cpp:303-356 | the scanning loops give the number of `Scan` (see `JsonTokens.ScanIff` and `ScanLongest`) with its saturating exponent |
| JsonReader.Reader.ParseNumber | src/json/src/reader.cpp:390-423 | the number of the token: an exact integer, or the float that the conversion gives (see `JsonLanguage.NumberToIs`) |
| JsonReader.Reader.NextArrayElement | src/json/src/reader.cpp:441-457 | elements, commas and the end of an array, as `NextArray` has them (see `JsonLanguage.NextArrayIs`) |
| JsonReader.Reader.NextObjectKey | src/json/src/reader.cpp:470-504 | keys, commas and the end of an object, as `NextKey` has them (see `JsonLanguage.NextKeyIs`) |
| JsonReader.Reader.SkipValue | src/json/src/reader.cpp:510-556 | skips one value as specified by `JsonWalk.Skip` |
| JsonReader.Reader.ParseValue | src/json/src/parser.cpp:56-84 | builds the value of `JsonWalk.Parse`, which is the one denoted (see `JsonMeaning.ParseIff`) |
| JsonReader.Reader.ParseArray | src/json/src/parser.cpp:13-26 | the array loop, with the elements in their order (see `JsonMeaning.ParseIff`) |
| JsonReader.Reader.ParseObject | src/json/src/parser.cpp:28-46 | the object loop, with duplicate-key rejection |
| JsonReader.Reader.ParseDocument | src/json/src/parser.cpp:86-92 | a value and nothing behind it but blanks, as `JsonWalk.Document` has it |
| JsonTokens.SpaceIff | src/json/src/reader.cpp:53-88 | blanks are skipped up to q if and only if white space and whole comments lead there and no blank begins there; it fails if and only if they lead to a block comment without end |
| JsonTokens.ScanComplete | src/json/src/reader.cpp:303-356 | a number of RFC 8259 section 6 that nothing continues is taken to its end, sign, digits and fraction apart |
| JsonTokens.ScanIff | src/json/src/reader.cpp:303-356 | scanning succeeds if and only if a number begins here that nothing continues |
| JsonTokens.ScanLongest | src/json/src/reader.cpp:303-356 | what it takes is the longest number that begins here |
| JsonTokens.ScanNoBacktrack | src/json/src/reader.cpp:326-334 | a text on which it fails although a number begins there |
| JsonLiterals.StringIff | src/json/src/reader.cpp:240-299 | a string is read up to n, as s, if and only if a literal of RFC 8259 section 7 with paired surrogates and that meaning is written there |
| JsonLanguage.NextArrayIs | src/json/src/reader.cpp:441-457 | it finds another element if and only if one is due by the grammar, behind a comma unless it is the first and with no comma before the bracket, and the end if and only if the bracket is there |
| JsonLanguage.NextKeyIs | src/json/src/reader.cpp:470-504 | it finds another key, with its characters, if and only if a string of these and a colon are there in that order, at their place |
| JsonLanguage.NextKeyEnd | src/json/src/reader.cpp:470-504 | and the end if and only if the brace is there |
| JsonLanguage.ScalarIff | src/json/src/reader.cpp:510-556 | a scalar is read up to n, as v, if and only if null, true, false, a string literal or a number with that value is written there |
| JsonLanguage.NumberToIs | src/json/src/reader.cpp:390-423 | a number is read as x if and only if one is written whose integer is x and fits, or whose float is x because it has a fraction or exponent, is -0, or does not fit and may be a float |
| JsonLanguage.SkipIff | src/json/src/reader.cpp:510-556 | a value is skipped up to n if and only if the grammar derives one from here to n whose nesting is within the depth |
| JsonLanguage.WrittenTooDeep | src/json/src/reader.cpp:425-439 | a value that is written well but nested too deeply is refused for its depth |
| JsonMeaning.ParseIff | src/json/src/parser.cpp:56-84 | v is built, up to n, if and only if the text denotes it: arrays in order, of equal keys the last, nested within the depth, and with no equal keys if they are rejected |
| JsonMeaning.DocumentIff | src/json/src/parser.cpp:86-92 | a whole text is accepted as v if and only if it denotes v and has only blanks behind it |
| JsonMeaning.DuplicateOnly | src/json/src/parser.cpp:28-46 | a duplicate key is reported only if keys are not to be repeated and two members of one object have the same |
| JsonMeaning.WrittenRepeats | src/json/src/parser.cpp:28-46 | and a value that is written well but repeats a key is refused for that |
| JsonMeaning.Unique | src/json/src/parser.cpp:13-84 | a text has one derivation at most, and one end |
| JsonWalk.Skip | src/json/src/reader.cpp:510-556 | on success the position has strictly advanced and the depth is restored |
| JsonWalk.Parse | src/json/src/parser.cpp:56-84 | on success the position has strictly advanced and the depth is restored (what is built: `JsonMeaning.ParseIff`) |
| JsonWalk.WalksAgree | src/json/src/reader.cpp:510-556 | skipping and building agree in outcome, error, position and depth, up to a repeated key that building objects to |
| JsonWalk.SkipEqualsParse | src/json/src/parser.cpp:13-84 | with duplicate keys allowed they agree on every input and depth limit |
| JsonWalk.DepthHeld | src/json/src/reader.cpp:425-439 | a value built is nested less deep than the limit |
| Integers.GuardExact | src/json/src/reader.cpp:402-409 | the overflow guard fires exactly when the next value would exceed the limit |
| Integers.Magnitude | src/json/src/reader.cpp:400-409 | overflow if and only if the numeral exceeds u64, and otherwise its exact value |
| Integers.ParseNumber | src/json/src/reader.cpp:390-423 | u64 or i64 exactly when representable, otherwise float or out of range, -0 to float |
| Integers.Exponent | src/json/src/reader.cpp:345-352 | the exponent is the smaller of the true one and 2^31-1 |
| Integers.ValidUnderscores | src/toml/src/parser.cpp:715-739 | every underscore stands between two digits of the base |
| Integers.Accumulate | src/toml/src/parser.cpp:488-498 | exact value, or failure if there is a foreign character or the limit is exceeded |
| Integers.ParseInteger | src/toml/src/parser.cpp:455-504 | accepts exactly the well-formed numerals in [-2^63, 2^63-1], with the right value |
| Integers.IntegerToken | src/toml/src/parser.cpp:758-780 | the same of a token with its underscores |
| TokenStream.ValueSound | src/serde/src/token.cpp:415-474 | what is recognised is a value of the grammar |
| TokenStream.ValueComplete | src/serde/src/token.cpp:415-474 | every value of the grammar is recognised, as itself and at its full length |
| TokenStream.RecognisedIff | src/serde/src/token.cpp:415-474 | recognised if and only if the tokens begin with a value, which is then the only one |
| TokenStream.PrefixFree | src/serde/src/token.cpp:415-474 | no value is a prefix of another |
| TokenStream.TokenDeserializer.Take | src/serde/src/token.cpp:208-218 | takes the expected token, or stays and says what is there instead |
| TokenStream.TokenDeserializer.IgnoreValue | src/serde/src/token.cpp:415-474 | succeeds exactly if a value begins here, moves over exactly it, and never past the end; a failure has the fault and leaves the position that `TokenFailures.FailsFirst` is about |
| TokenFailures.FailsFirst | src/serde/src/token.cpp:415-474 | it fails at the first token that no value could have there; the fault fits that token, and a type mismatch asks for a kind that could stand in its place |
| TokenFailures.EndIff | src/serde/src/token.cpp:415-474 | the fault is an unexpected end if and only if more tokens could make a value |
| TokenStream.FlattenBalanced | src/serde/src/token.cpp:131-141 | a whole value opens as many compounds as it closes |
| TokenStream.TokenSerializer.Begin | src/serde/src/token.cpp:131-141 | one more open compound |
| TokenStream.TokenSerializer.Part | src/serde/src/token.cppm:163-215 | elements, keys and values in their order |
| TokenStream.TokenSerializer.End | src/serde/src/token.cpp:175-197 | one fewer; the counter never underflows and always equals starts minus ends |
| TokenStream.TokenSerializer.IsComplete | src/serde/src/token.cpp:79-81 | complete if and only if every compound begun has been ended |
| OnceGuard.StepInv | src/nostd/cxa.cpp:65-86 | every atomic step keeps the invariant of lock and byte |
| OnceGuard.Safety | src/nostd/cxa.cpp:65-86 | in every run at most one thread is in initialisation, acquire returns 0 only after a release, at most one initialisation completes (how often an initialiser finishes: `OnceGuard.FinishedOnce`) |
| OnceGuard.StaysInitialized | src/nostd/cxa.cpp:79-82 | the initialized byte never goes back |
| OnceGuard.SetByRelease | src/nostd/cxa.cpp:79-82 | only the release of the building thread sets it |
| OnceGuard.AbortThenRetry | src/nostd/cxa.cpp:84-86 | after an abort another thread can be given the initialisation |
| OnceGuard.FinishedOnce | src/nostd/cxa.cpp:65-86 | in every run at most one initialiser finishes, counted over the events, nobody is told 0 before one has, and nobody builds after one has |
| OnceGuard.AcquireAlone | src/nostd/cxa.cpp:65-77 | a whole acquire: 0 at once if the byte is set, 1 with the lock taken if neither is |
| OnceGuard.AcquireSpins | src/nostd/cxa.cpp:67-76 | while another thread has the lock, acquire goes round in its loop and changes nothing |
| OnceGuard.AcquireBacksOut | src/nostd/cxa.cpp:70-73 | if the byte was set meanwhile, the lock is given back and 0 returned |
| OnceGuard.ReleaseAlone | src/nostd/cxa.cpp:79-82 | a whole release leaves the byte set and the lock free, and nothing else changed |
| OnceGuard.AbortAlone | src/nostd/cxa.cpp:84-86 | a whole abort leaves the lock free and the byte as it was |
| OnceGuard.NeverAgain | src/nostd/cxa.cpp:65-86 | once the byte is set no thread is ever told to build again |
| OnceGuard.CanComplete | src/nostd/cxa.cpp:65-86 | however a run has gone, it can go on so that the object is built |
| EpochBarrier.StepInv | benches/allocator_parallel.cpp:38-99 | every step of coordinator or worker keeps the invariant |
| EpochBarrier.Safety | benches/allocator_parallel.cpp:38-99 | in every run no worker releases while another allocates, each enters each epoch once, `pending` does not underflow |
| EpochBarrier.RoundReturns | benches/allocator_parallel.cpp:83-99 | when `round` has returned every slot is null and every block released (how many: `EpochWork.BatchesDone`) |
| EpochBarrier.ReleasedOnce | benches/allocator_parallel.cpp:70-76 | in every run no block is released twice, and whoever released it was the worker whose source row it was allocated in: its own, or the next one in remote mode |
| EpochBarrier.ReleaseNext | benches/allocator_parallel.cpp:70-76 | a worker about to release a slot in any run releases a block not released before, and it is in no slot any more |
| EpochWork.BatchesDone | benches/allocator_parallel.cpp:51-80 | in every run without a reported failure, between rounds every worker has been given exactly its batch in every epoch, and all of it was released |
| EpochWork.FailedIff | benches/allocator_parallel.cpp:51-68 | a failure is on record if and only if an allocation was refused to a worker that asked for one, and that worker has gone on to report it |
| EpochWork.FailedStays | benches/allocator_parallel.cpp:83-85 | after that it stays on record and no epoch begins |
| EpochWork.RoundBegins | benches/allocator_parallel.cpp:83-88 | until then a round that is asked for begins a new epoch |
| EpochWork.StepsDown | benches/allocator_parallel.cpp:83-99 | while a round is under way every event changes nothing or brings its end nearer |
| EpochWork.NoDeadlock | benches/allocator_parallel.cpp:83-99 | and some event changes something: no round gets stuck |
| EpochWork.RoundEnds | benches/allocator_parallel.cpp:83-99 | so from any state of a round it can return, within a bounded number of steps |
| FirstFit.AlignedOffsetIs | src/alloc/src/range.cppm:70-83 | the lowest aligned place, if there is one, 64-bit overflow included |
| FirstFit.Canonical | benches/range.cpp:39-56 | a coalesced list is determined by the addresses in it |
| FirstFit.ReleasedOk | benches/range.cpp:39-56 | inserting and joining adds exactly the span and keeps the list ordered and coalesced |
| FirstFit.TraceFirstFit.Deallocate | benches/range.cpp:39-56 | the same on the array |
| FirstFit.TraceFirstFit.Allocate | benches/range.cpp:23-38 | the lowest place in all the free space, or none if and only if nothing fits; exactly that span leaves the list |
| FirstFit.FreeCount | benches/range.cpp:18-22 | at most one free span more than live ones |
| FirstFit.AllFree | benches/range.cpp:132-134 | with nothing live the list is the single span it began as |
| RangeTrace.TurnIs | benches/range.cpp:115-124 | what `allocate` does with the free list is what first fit does on bare addresses, down to the count of spans looked at |
| RangeTrace.TotalIsVacant | benches/range.cpp:127-130 | the sizes in the free list add up to the addresses that no live span holds |
| RangeTrace.LargestIsLongest | benches/range.cpp:127-130 | the largest span is the longest stretch of such addresses |
| RangeTrace.Operation | benches/range.cpp:115-134 | over every trace the closing check passes, and failures, searches, free and largest are those of first fit on bare addresses |
| SortCheck.MatchedIsPermutation | benches/slice.cpp:53-60 | in-range, unseen and key-equal for every element means a permutation of the seed |
| SortCheck.ValidSort | benches/slice.cpp:51-68 | accepts exactly the permutations of the seed in non-decreasing key order |
| SortCheck.StableIsUnique | benches/slice.cpp:51-68 | in stable mode exactly one sequence is acceptable, the stable sort |
| SortCheck.ScrambleInjective | benches/slice.cpp:19-23 | sort keys are equal only for equal keys |

## Left out

- mmap, mspaces, footers, locks, trimming, statistics, `ialloc` and bulk free: switched off or unused in the wasm32 configuration; only wasm32 word sizes are modelled.
- Corruption checks (RTCHECK): the model has no branch for them; on a sound heap their conditions hold.
- Link words inside free chunks: bin links live in a memory of their own, keyed by chunk, apart from the head and foot words; their writes appear to clients as arbitrary changes in the body of any free chunk.
- What a fresh block holds is left open unless it was asked for zeroed; bytes are numbers without a bound.
- `memory.grow`: whether the host grants it is left open, and its refusals are counted; the 64-bit product of pages is a number.
- Allocator.Allocator.constructor: takes `__heap_base` to be a positive multiple of 8, as the wasm linker places it; see Findings for what that excludes.
- TOML text: key, string, date and float syntax, line ends and comments are not modelled; the parser is modelled from statements and written values on, and pointers into its trees are paths.
- Trees after a failed TOML statement: nodes made before the failure are not modelled, since the parser gives up then.
- Float conversion: a parameter of the JSON reader, which names a float by its bits or says that there is none; number and datetime values of TOML other than integers are opaque.
- Error line and column: an error has a code and an offset.
- `read_string` into units over UTF-8 and into a string over UTF-16, which `parse_string` does not use.
- Token payloads and the typed accessors of the token stream: only token kinds matter to the recogniser.
- Epoch wrap-around: epochs are unbounded, and that a thread which can go on is woken is not claimed.
- RangeTrace.Operation: the capacity is positive, and the constant metadata figure is left out.
- Random seeds, benchmark plumbing, printers, network, async runtime, file and OS wrappers.
