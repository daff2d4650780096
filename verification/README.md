# Verified models of the hard parts of range-v3 for EASTL

This project models, in Dafny, the algorithms of the repository whose
correctness is not evident from their text, and proves what each is for. Every
theorem quantifies over all inputs: every tree and every node, every strict weak
order with every projection, every word width, every buffer size, every text.

* **Red-black tree engine** (`RbShape`, `RbClimb`, `RbEngine`). `RbTree` holds real nodes
  with parent, left and right links and an anchor that caches root, first and
  last node. Insertion, erasure and the two stepping functions rewrite or read
  those links in the order the C++ code does. `Valid` says that the links are
  those of a red-black tree (black root, no red node under a red one, equal
  black counts, consistent parents) and that the anchor is exact; `Order` is the
  in-order sequence of node identities. Insertion puts one node beside its
  parent in that sequence, erasure removes one, and the sequence is what the
  stepping functions walk. The proofs use a zipper: the path from the root to
  the node being repaired, and the subtree below it.
* **Stable merging and sorting** (`StableMerge`, `InplaceMerge`, `StableSort`).
  `Merged` is the two-way merge that prefers the first run; it is proved to be
  the only sorted arrangement that keeps equivalent elements in their order. The
  adaptive merge in place (rotations, forward merge through the buffer, reversed
  merge with the negated comparison) leaves exactly that, for any buffer size,
  with a recursion depth logarithmic in the length. `stable_sort` is built on it;
  it is right whenever it ends, and when it ends is told exactly, down to what the
  allocator grants.
* **Heaps** (`Heap`). Sifting moves elements through a hole; heapsort leaves a
  sorted permutation; the heap test returns the longest prefix that is a heap.
* **PCG generators** (`Modular`, `Lcg`, `OutputPermutation`, `OutputNumbers`,
  `Uint128`, `Draws`).
  Logarithmic jump-ahead equals single steps; going back undoes going forward
  exactly if the multiplier is odd; the distance loop meets its own assertion
  and finds the only distance below the period; the period is exact. The output
  function of the `rxs_m_xs` generators is a permutation with the given inverse.
  Limb arithmetic (carries, four-limb product, shifts, highest bit, division) is
  right for every limb width. Bounded draws favour no result, and a shuffle gives
  every arrangement for equally many sequences of accepted draws, exactly within
  the range of the generator.
* **Weighted choice** (`DiscreteWeights`). The sum tree is a sum tree after
  construction and after every update, and the search finds the one event whose
  cumulative interval holds the probe. Weights are real numbers.
* **Text** (`StringInsert`, `Utf8`, `Utf8Forms`). Range insertion gives the right characters
  and terminator in every layout, also when the string is inserted into itself
  and when the new terminator falls on the byte that holds the size of a small
  string. Converting UTF-32 to UTF-8 and back through the 512-unit buffer is the
  identity exactly on units up to 0x10FFFF (section 3 of RFC 3629, except that
  the code also accepts surrogates).
* **Circular intrusive list** (`IntrusiveList`). Reversal in place, and the
  validator, which halts on every graph of nodes and accepts exactly the lists.

Methods follow the C++ functions statement by statement; a loop body or a branch
that is a unit of the proof is a method of its own. Pointers and iterators into
arrays are indices, masks and shifts of words are remainders and quotients by
powers of two, and C++ moves are copies. Where the code falls short of its
documentation, or does not end, the model keeps the code and says when:

* `StableSort.OnlyOneGranted` and `StableSort.StableSortExact`: the allocation
  loop halves the size once more after it has succeeded. When the request for a
  single element is the first one granted, the buffer has size zero and the sort
  recurses without end; exactly then it does.
* `InplaceMerge.FrontsOrdered`, `InplaceMerge.BacksOrdered` and
  `InplaceMerge.CutsUnordered`: two of the three relations that a comment of the
  in-place merge claims of the parts it cuts are false; the merge is right all
  the same.
* `Draws.DividesByZero` and `Draws.DividesByZeroAt`: a shuffle of more elements
  than the largest word of the generator divides by zero.
* `Draws.UniformExact` and `Draws.ShuffleReaches`: a bound beyond the range of the
  generator favours some results, and more elements than it has values cannot come
  in every arrangement.
* `Uint128.ShiftRightInside`: a right shift of five limbs or more indexes outside
  the limbs.
* `RbClimb.MeetsExact` and `RbClimb.ClimbMisses`: the black count does not end
  when the upper node does not lie above the lower one.
* `DiscreteWeights.UpdateNeedsTwo`: an update of a single event leaves the tree.
* `Utf8.FourthByteUnchecked` and `Utf8.DecodeExact`: the fourth byte of a sequence
  may have any top bits.
* `Utf8Forms.FiveBytesExact` and `Utf8Forms.LongFormSwallows`: the second byte of a
  five-byte form has a bit too many for units with bit 24 set, and on reading the
  lead bytes of the longer forms swallow what follows them.
* `OutputNumbers.ProductFits`: a product of 16-bit words overflows a signed integer.
* `Utf8.RoundTrip`: units beyond 0x10FFFF do not come back.

`dafny verify dfyconfig.toml` checks the whole project.

## Model

| member | source | states |
|---|---|---|
| RbEngine.RbTree.Insert | first-party/EASTL/source/red_black_tree.cpp:190-286 | inserting at an empty slot keeps the red-black conditions and the exact anchor, and puts the node directly before or after its parent in the order; the climb terminates |
| RbEngine.RbTree.InsertLink | first-party/EASTL/source/red_black_tree.cpp:190-222 | the new red node hangs below its parent on the given side, and first, last and root of the anchor are exact wherever that is |
| RbEngine.RbTree.InsertRebalance | first-party/EASTL/source/red_black_tree.cpp:224-284 | from a tree whose only fault is a red node under a red one the climb restores the red-black conditions and keeps the order |
| RbEngine.RbTree.InsertStep | first-party/EASTL/source/red_black_tree.cpp:225-281 | each turn either moves the fault closer to the root or ends it, for all uncle colours and sides |
| RbEngine.RbTree.Erase | first-party/EASTL/source/red_black_tree.cpp:294-490 | erasing any node, by relinking only, leaves a valid tree whose order is the old one without that node, with an exact anchor also when the tree becomes empty |
| RbEngine.RbTree.EraseInner | first-party/EASTL/source/red_black_tree.cpp:363-396 | a node with two children is replaced by its in-order successor, which takes over its links and colour |
| RbEngine.RbTree.EraseSimple | first-party/EASTL/source/red_black_tree.cpp:319-362 | a node with at most one child is unlinked and the cached first and last nodes move to the right neighbours |
| RbEngine.RbTree.EraseRebalance | first-party/EASTL/source/red_black_tree.cpp:398-488 | a missing black node anywhere is made up for on the way to the root, the order unchanged |
| RbEngine.RbTree.EraseStepLeft | first-party/EASTL/source/red_black_tree.cpp:403-441 | one turn for a left child repairs the deficit or passes it up, in all four sibling cases |
| RbEngine.RbTree.EraseStepRight | first-party/EASTL/source/red_black_tree.cpp:442-483 | the mirror image for a right child |
| RbEngine.RbTree.RotateLeftAt | first-party/EASTL/source/red_black_tree.cpp:130-151 | a left rotation at any node changes shape there and nowhere else, keeps the order and the anchor's ends, and moves the root if it was the root |
| RbEngine.RbTree.RotateRightAt | first-party/EASTL/source/red_black_tree.cpp:160-181 | the same for a right rotation |
| RbEngine.RbTree.Increment | first-party/EASTL/source/red_black_tree.cpp:44-68 | the next node in order, the anchor after the last, also where the climb passes through the anchor back to the root |
| RbEngine.RbTree.Decrement | first-party/EASTL/source/red_black_tree.cpp:75-98 | the previous node in order, the last one from the red anchor, and what the code does at the first node |
| RbEngine.RbTree.Traverse | first-party/EASTL/source/red_black_tree.cpp:44-68 | repeated increment from the first node visits every node once, in order, and ends at the anchor |
| RbEngine.RbTree.BlackCount | first-party/EASTL/source/red_black_tree.cpp:108-124 | wherever the climb ends, the number of black nodes it passes: from any node up to any node above it, and from a node with an empty side always the black height of the upper node's subtree |
| RbClimb.MeetsExact | first-party/EASTL/source/red_black_tree.cpp:112-121 | the climb from one node ends exactly if it starts nowhere, the tree is empty, or the other is the anchor, the root or a node at or above it |
| RbClimb.ClimbMisses | first-party/EASTL/source/red_black_tree.cpp:112-121 | counted from a root to its child the climb never ends |
| RbClimb.BlacksUniform | first-party/EASTL/source/red_black_tree.cpp:102-107 | every way up from a node with an empty side passes as many black nodes as the black height, and no way passes more |
| RbEngine.RbTree.ForthAndBack | first-party/EASTL/source/red_black_tree.cpp:44-98 | decrement after increment is the same node, for every node of the tree; past the last one by way of the anchor |
| RbEngine.RbTree.BackAndForth | first-party/EASTL/source/red_black_tree.cpp:44-98 | increment after decrement is the same node, for every node but the first, the anchor included |
| RbEngine.RbTree.InsertAndErase | first-party/EASTL/source/red_black_tree.cpp:190-490 | inserting a node anywhere and erasing it leaves a valid tree of the same nodes in the same order |
| RbShape.Logarithmic | first-party/EASTL/source/red_black_tree.cpp:102-107 | the conditions kept bound every way down by twice the logarithm of the number of nodes |
| RbShape.RotateHolds | first-party/EASTL/source/red_black_tree.cpp:130-181 | rotated links represent the rotated tree in its place under the anchor |
| StableMerge.MergedSorted | include/EARanges/algorithm/merge.hpp:68-93 | merging sorted runs gives a sorted run, for any strict weak order with a projection |
| StableMerge.MergedMultiset | include/EARanges/algorithm/merge.hpp:68-93 | merging loses and invents nothing |
| StableMerge.MergedStable | include/EARanges/algorithm/merge.hpp:68-93 | equivalent elements keep their order, those of the first run in front |
| StableMerge.StableSortUnique | include/EARanges/algorithm/merge.hpp:68-93 | there is only one sorted arrangement with the equivalent elements in their order |
| StableMerge.MergedReversed | include/EARanges/algorithm/inplace_merge.hpp:88-100 | merging the reversed runs under the negated comparison gives the reversed merge |
| StableMerge.MergedHalves | include/EARanges/algorithm/inplace_merge.hpp:139-183 | cutting both runs at matching places and merging the halves gives the whole merge |
| InplaceMerge.Merge | include/EARanges/algorithm/merge.hpp:68-93 | the loop writes the merge, also when the second input is the later part of the output range |
| InplaceMerge.MergeBack | include/EARanges/algorithm/inplace_merge.hpp:88-100 | the same over reverse iterators, the first input being the part of the output just below |
| InplaceMerge.MergeBuffered | include/EARanges/algorithm/inplace_merge.hpp:70-101 | merging through the buffer by the shorter run leaves exactly the merge; the buffer holds the shorter run and is not written beyond it |
| InplaceMerge.MergeFromBack | include/EARanges/algorithm/inplace_merge.hpp:88-100 | the reversed path with the negated comparison leaves exactly the merge |
| InplaceMerge.Bound | include/EARanges/algorithm/aux_/partition_point_n.hpp:33-54 | the binary search splits a sorted run at the lower or upper bound |
| InplaceMerge.Rotate | include/EARanges/algorithm/rotate.hpp:70-102 | the forward rotation swaps two adjacent parts of any lengths |
| InplaceMerge.RotateOnce | include/EARanges/algorithm/rotate.hpp:73-83 | its first loop leaves the front part in place and a smaller rotation behind it |
| InplaceMerge.RotateRest | include/EARanges/algorithm/rotate.hpp:84-100 | its second loop finishes that rotation |
| InplaceMerge.FindCut | include/EARanges/algorithm/inplace_merge.hpp:146-179 | the longer run, or the first of equal ones, is cut in its middle and the other at the bound of the element there; of the four parts no element of the back of the second run is less than one of the front of the first, every element of the front of the second is less than every one of the back of the first, and something is left on either side |
| InplaceMerge.FrontsOrdered | include/EARanges/algorithm/inplace_merge.hpp:139-142 | the first relation the comment claims, front against front, holds exactly if the second run is the longer one and its middle element is less than the first of the first run |
| InplaceMerge.BacksOrdered | include/EARanges/algorithm/inplace_merge.hpp:143-145 | the third one, back against back, holds, with the second run the longer one, exactly if its middle element is not less than the last of the first run; otherwise exactly if every element of the second run that is less than the last of the first is less than its middle one |
| InplaceMerge.CutsUnordered | include/EARanges/algorithm/inplace_merge.hpp:139-179 | the cuts of 3 9 and 1 2 break the first relation, and those of 9 and 1 7 8 the third |
| InplaceMerge.MergeAdaptive | include/EARanges/algorithm/inplace_merge.hpp:106-221 | for every buffer size, none included, the range becomes the merge of its two runs and nothing outside changes; each recursive call gets at most half of what is left, so the depth is logarithmic; where a run fits the buffer at once, the merge goes through it, and nothing of the buffer beyond its size is written |
| InplaceMerge.SplitAndRecurse | include/EARanges/algorithm/inplace_merge.hpp:146-219 | one turn that is neither done nor buffered leaves a strictly shorter merge of the same result |
| InplaceMerge.MergedIsStableSort | include/EARanges/algorithm/inplace_merge.hpp:255-282 | the merge of two sorted runs is the stable sort of the whole |
| InplaceMerge.InplaceMerge | include/EARanges/algorithm/inplace_merge.hpp:255-282 | the range is stably sorted and the end returned, whatever buffer was granted; of the buffer only what was granted is written |
| StableSort.SortUnique | include/EARanges/algorithm/stable_sort.hpp:192-207 | a sequence is the stable sort of another exactly if it is sorted, a permutation, and keeps equivalent elements in order |
| StableSort.SortMerged | include/EARanges/algorithm/stable_sort.hpp:177-185 | merging the stable sorts of two parts is the stable sort of the whole |
| StableSort.LinearInsert | include/EARanges/algorithm/sort.hpp:115-126 | an element joins a sorted run behind its equals |
| StableSort.UnguardedLinearInsert | include/EARanges/algorithm/sort.hpp:99-113 | without a bounds test, given an element that stops it |
| StableSort.InsertionSort | include/EARanges/algorithm/sort.hpp:128-135 | a range becomes its stable sort |
| StableSort.ChunkInsertionSort | include/EARanges/algorithm/stable_sort.hpp:124-133 | every stretch becomes its stable sort |
| StableSort.MergeSortLoop | include/EARanges/algorithm/stable_sort.hpp:90-117 | sorted stretches become sorted stretches of twice the length in the other array, the incomplete ones at the end included |
| StableSort.MergeSortWithBuffer | include/EARanges/algorithm/stable_sort.hpp:137-159 | going back and forth ends with the sorted range in its own place |
| StableSort.StableSortAdaptive | include/EARanges/algorithm/stable_sort.hpp:162-186 | wherever the recursion ends, a range becomes its stable sort; of the buffer only what was granted is written |
| StableSort.AdaptiveEnds | include/EARanges/algorithm/stable_sort.hpp:162-175 | the recursion ends exactly if the range is empty or the buffer has room for one element |
| StableSort.InplaceStableSort | include/EARanges/algorithm/stable_sort.hpp:73-88 | a range becomes its stable sort without a buffer |
| StableSort.GetTemporaryBuffer | include/EARanges/utility/memory.hpp:46-73 | the loop returns what the requests granted on the way down say |
| StableSort.RequestedHalf | include/EARanges/utility/memory.hpp:52-66 | there is a buffer exactly if a request is granted, and its size is half of the first one granted |
| StableSort.OnlyOneGranted | include/EARanges/utility/memory.hpp:52-66 | when only one element is granted, the buffer is not null and has size zero, whatever was asked for |
| StableSort.EmptyBuffer | include/EARanges/utility/memory.hpp:46-66 | that buffer is returned exactly if the request for one element is the first one granted |
| StableSort.StableSort | include/EARanges/algorithm/stable_sort.hpp:192-207 | for a null buffer and for any that is not empty the range ends sorted, a permutation of itself, with equivalent elements in order, and nothing else changes; a buffer that is not used, for 256 elements or fewer or for a null one, is not touched, and of another only what was granted is written |
| StableSort.StableSortEnds | include/EARanges/algorithm/stable_sort.hpp:199-204 | what the sort asks of the buffer holds exactly if its recursion ends |
| StableSort.StableSortExact | include/EARanges/algorithm/stable_sort.hpp:192-207 | the sort of a long range ends exactly if the request for one element is refused or a larger one on the way down to it is granted |
| Heap.SiftDown | include/EARanges/algorithm/heap_algorithm.hpp:189-247 | with heaps below start, the subtree at start becomes a heap, a permutation, and nothing outside it changes |
| Heap.SinkStep | include/EARanges/algorithm/heap_algorithm.hpp:222-245 | moving the larger child up keeps everything but the hole in order |
| Heap.SiftUp | include/EARanges/algorithm/heap_algorithm.hpp:156-184 | the last element joins the heap before it |
| Heap.RiseStep | include/EARanges/algorithm/heap_algorithm.hpp:169-182 | moving the parent down keeps everything but the hole in order |
| Heap.PopHeap | include/EARanges/algorithm/heap_algorithm.hpp:286-301 | a top element ends last, nothing is above it, and the others are a heap |
| Heap.RootIsTop | include/EARanges/algorithm/heap_algorithm.hpp:286-301 | no element of a heap is above its root |
| Heap.MakeHeap | include/EARanges/algorithm/heap_algorithm.hpp:335-346 | any range becomes a heap that is a permutation of it |
| Heap.SortHeap | include/EARanges/algorithm/heap_algorithm.hpp:367-374 | a heap becomes a sorted permutation of itself |
| Heap.HeapSort | include/EARanges/algorithm/heap_algorithm.hpp:335-374 | make_heap and sort_heap sort any input under any strict weak order |
| Heap.IsHeapUntil | include/EARanges/algorithm/heap_algorithm.hpp:49-75 | the longest prefix that is a heap |
| Heap.IsHeapN | include/EARanges/algorithm/heap_algorithm.hpp:79-90 | true exactly on heaps |
| Lcg.Advance | extra/internal/random/pcg_random.hpp:645-669 | the logarithmic loop equals delta single steps modulo the word size, for every state, delta, multiplier and increment |
| Lcg.WalkDouble | extra/internal/random/pcg_random.hpp:664-666 | squaring the step makes it count double |
| Lcg.PowerIdentity | extra/internal/random/pcg_random.hpp:457-465 | with an odd multiplier 2^k steps leave the low k bits alone |
| Lcg.BackstepExact | extra/internal/random/pcg_random.hpp:457-465 | a backstep undoes every jump in every state exactly if the multiplier is odd, for every increment |
| Lcg.Distance | extra/internal/random/pcg_random.hpp:674-693 | with full period, or multiplicative with the low bits fixed, for every mask: the loop takes no more rounds than the mask is bits long, its assertion holds, and the result leads from start to target as far as the mask goes |
| Lcg.DefaultsMeasurable | extra/internal/random/pcg_random.hpp:149-179 | the default multiplier of every width, and the cheap one of 128 bits, meet that condition with the default increment, with any other odd one and with none |
| Lcg.AndLow | extra/internal/random/pcg_random.hpp:682 | a mask sees no more of a state than the bits below its length |
| Lcg.AddsPower | extra/internal/random/pcg_random.hpp:674-693 | 2^j steps flip the bit under test and none below, which is why the loop works |
| Lcg.Period | extra/internal/random/pcg_random.hpp:394-397 | a state comes back after exactly the multiples of 2^width, or of 2^(width-2) for multiplicative generators |
| Lcg.DistanceUnique | extra/internal/random/pcg_random.hpp:674-693 | two distances below the period to one state are the same |
| Lcg.Engine.BaseGenerate | extra/internal/random/pcg_random.hpp:418-421 | the state moves one step and is returned |
| Lcg.Engine.BaseGenerate0 | extra/internal/random/pcg_random.hpp:423-428 | the state moves one step and the one before is returned |
| Lcg.Engine.AdvanceBy | extra/internal/random/pcg_random.hpp:457-470 | the state moves exactly delta steps |
| Lcg.Engine.Backstep | extra/internal/random/pcg_random.hpp:462-465 | delta steps from the new state lead to the old one, for odd multipliers |
| Lcg.Engine.DistanceTo | extra/internal/random/pcg_random.hpp:451-454 | the only number of steps below the period that leads to the target |
| OutputNumbers.OutputNumber | extra/internal/random/pcg_random.hpp:945-964 | the output as a number, for every state width and every result as wide or narrower, with the shifts and factors written out: the state xored with itself shifted by a number its top bits give, times the factor modulo the word, its top bits xored with themselves shifted by two thirds of the width |
| OutputNumbers.OutputAtOne | extra/internal/random/pcg_random.hpp:945-964 | the 8-bit state 1 gives 218 |
| OutputNumbers.ProductFits | extra/internal/random/pcg_random.hpp:961 | the 16-bit product stays within a signed integer of 32 bits exactly for words up to 34542 |
| OutputPermutation.UnxorshiftXorshift | extra/internal/random/pcg_extras.hpp:263-281 | the recursive inverse undoes a xorshift for every width and every positive shift |
| OutputPermutation.XorshiftUnxorshift | extra/internal/random/pcg_extras.hpp:263-281 | and the other way round |
| OutputPermutation.XorshiftInjective | extra/internal/random/pcg_extras.hpp:257-261 | a xorshift loses nothing |
| OutputPermutation.InverseMultipliers | extra/internal/random/pcg_random.hpp:927-942 | the two constants of each width are inverse modulo the word size |
| OutputPermutation.TimesInverse | extra/internal/random/pcg_random.hpp:979 | multiplying by an inverse constant undoes the multiplication |
| OutputPermutation.RandomShiftSurvives | extra/internal/random/pcg_random.hpp:958-960 | the bits that choose the shift are the same after it |
| OutputPermutation.UnoutputOutput | extra/internal/random/pcg_random.hpp:945-986 | the state is recovered from the output, for every width the source defines |
| OutputPermutation.OutputUnoutput | extra/internal/random/pcg_random.hpp:945-986 | every word is the output of a state |
| OutputPermutation.OutputInjective | extra/internal/random/pcg_random.hpp:945-986 | distinct states have distinct outputs |
| OutputPermutation.SlicesAreShiftAndMask | extra/internal/random/pcg_extras.hpp:269-280 | slices of bits are what shifts and masks leave of the number |
| Draws.Uniform | extra/internal/random/pcg_extras.hpp:540-552 | with a bound within the range every result below it is given by the same number of accepted draws, and fewer draws than the bound are refused |
| Draws.UniformExact | extra/internal/random/pcg_extras.hpp:540-552 | no result is favoured exactly if the bound is within the range or every draw is refused |
| Draws.ThresholdRemainder | extra/internal/random/pcg_extras.hpp:545-546 | with a bound within the range the threshold, computed in wrapping words or, for narrow words, in signed integers, is the remainder of the range |
| Draws.ThresholdBeyond | extra/internal/random/pcg_extras.hpp:545-546 | with a bound beyond the range wide words wrap around below zero, and the threshold of narrow ones lies above every draw |
| Draws.BoundedRand | extra/internal/random/pcg_extras.hpp:547-551 | for every bound a word can hold but zero, the first draw that is not below the threshold, modulo the bound |
| Draws.Shuffle | extra/internal/random/pcg_extras.hpp:554-567 | for every array whose length is a word of the generator, over any sequence of draws: if they suffice, the accepted ones modulo the counts are the choices and the array is what they make of it; in any case a permutation; the generator stops just behind the last draw it needs, and at the end of the draws if they do not suffice |
| Draws.DividesByZero | extra/internal/random/pcg_extras.hpp:541-561 | the loop comes to a count that is zero as a word of the generator, by which the threshold is divided, exactly if the number of elements is no such word |
| Draws.DividesByZeroAt | extra/internal/random/pcg_extras.hpp:541-561 | 256 elements and an 8-bit generator are such a case |
| Draws.ShuffleFair | extra/internal/random/pcg_extras.hpp:554-567 | with no more elements than the generator has values, and fewer than its words, every arrangement of distinct elements comes from equally many sequences of accepted draws, the product of the quotients of the range by the counts |
| Draws.ShuffleReaches | extra/internal/random/pcg_extras.hpp:554-567 | every arrangement can be drawn exactly if there are no more elements than the generator has values |
| Draws.DrawingsExact | extra/internal/random/pcg_extras.hpp:540-567 | which accepted draws give which choices |
| Draws.ShuffledLast | extra/internal/random/pcg_extras.hpp:559-565 | the first choice is the element that ends last |
| Draws.ShuffledInjective | extra/internal/random/pcg_extras.hpp:554-567 | different choices give different arrangements of distinct elements |
| Draws.ShuffledOnto | extra/internal/random/pcg_extras.hpp:554-567 | every arrangement comes from some choices |
| Uint128.AddWithCarry | extra/internal/random/pcg_uint128.hpp:282-289 | result and carry are the exact sum, for every base above one |
| Uint128.SubWithCarry | extra/internal/random/pcg_uint128.hpp:291-298 | result and borrow are the exact difference |
| Uint128.Plus | extra/internal/random/pcg_uint128.hpp:759-776 | the sum modulo the range |
| Uint128.Minus | extra/internal/random/pcg_uint128.hpp:778-795 | the difference modulo the range |
| Uint128.LessValue | extra/internal/random/pcg_uint128.hpp:875-880 | the comparison by halves compares the numbers |
| Uint128.NoCarryLost | extra/internal/random/pcg_uint128.hpp:653-682 | the carries dropped at the top of the low product are zero |
| Uint128.LowProduct | extra/internal/random/pcg_uint128.hpp:653-682 | the four limbs of the product of the low halves, exactly |
| Uint128.Times | extra/internal/random/pcg_uint128.hpp:645-687 | the product modulo the range, for every limb width |
| Uint128.ShiftLeft | extra/internal/random/pcg_uint128.hpp:902-935 | multiplication by a power of two modulo the range, for every shift |
| Uint128.ShiftRight | extra/internal/random/pcg_uint128.hpp:937-970 | division by a power of two, for every shift on which the loops stay inside the limbs |
| Uint128.ShiftRightInside | extra/internal/random/pcg_uint128.hpp:937-970 | the loops stay inside the limbs exactly for shifts of at most four limbs and a fraction; for a shift of 160 bits of 32-bit limbs the counter starts at 255, and the first limb indexed is 254 |
| Uint128.FloorLog2 | extra/internal/random/pcg_uint128.hpp:538-552 | the position of the highest bit of a number that is not zero |
| Uint128.ShrinkFactors | extra/internal/random/pcg_uint128.hpp:621-624 | the inner loop ends, and takes the factor below the divisor only when the dividend is below it |
| Uint128.DivmodLoop | extra/internal/random/pcg_uint128.hpp:613-627 | the loop ends with quotient and remainder |
| Uint128.Divmod | extra/internal/random/pcg_uint128.hpp:585-628 | n = q * d + r and r < d, for every n and every d but zero |
| DiscreteWeights.Weights.constructor | extra/internal/random/discrete-distribution.hpp:78-129 | every inner node is the sum of its children, the leaves are the weights, the others empty; the leaves are the smallest power of two that is enough |
| DiscreteWeights.Weights.Update | extra/internal/random/discrete-distribution.hpp:197-211 | exactly one weight changes and every sum is right again, with two events or more |
| DiscreteWeights.UpdateNeedsTwo | extra/internal/random/discrete-distribution.hpp:202-210 | the first parent the update visits is inside the tree exactly if there is more than one event |
| DiscreteWeights.Weights.Find | extra/internal/random/discrete-distribution.hpp:235-265 | the event whose cumulative interval holds the probe, the one a linear scan finds; the last or the first event for probes outside; the largest word if there is no event |
| DiscreteWeights.Weights.Total | extra/internal/random/discrete-distribution.hpp:172-181 | the root is the sum of all weights |
| DiscreteWeights.Weights.At | extra/internal/random/discrete-distribution.hpp:166-170 | the weight of an event |
| DiscreteWeights.NodeSum | extra/internal/random/discrete-distribution.hpp:80-82 | a node of a sum tree holds the sum of the leaves below it |
| DiscreteWeights.CoversScan | extra/internal/random/discrete-distribution.hpp:213-234 | at most one event covers a probe, and a linear scan finds it |
| StringInsert.BasicString.Insert | extra/string.h:2336-2439 | old characters before the position, the source, old characters after it; terminated, for every layout and for a source inside the string; with room, and a source that is not of a heap string itself, the buffer, the layout and the capacity stay; otherwise a new heap buffer has just the new size where there was room, else the larger of the new size and twice the old capacity |
| StringInsert.BasicString.InsertLongTail | extra/string.h:2372-2381 | in place with a long tail, though the terminator may fall on the size field |
| StringInsert.BasicString.InsertShortTail | extra/string.h:2382-2411 | in place with a short tail, the size read back between two settings |
| StringInsert.BasicString.Reallocate | extra/string.h:2413-2435 | through a new buffer |
| StringInsert.BasicString.SetSize | extra/string.h:422-432 | in the small layout the size goes to the last cell, and nothing else changes |
| StringInsert.LongTailInserts | extra/string.h:2373-2380 | the four steps leave the cells of the string with the source inserted |
| StringInsert.ShortTailInserts | extra/string.h:2384-2410 | so do the five steps of the other branch |
| Utf8.RoundTrip | first-party/EASTL/source/string.cpp:24-253 | a text comes back from UTF-8 unchanged exactly if its units are at most 0x10FFFF |
| Utf8Forms.EncodeForms | first-party/EASTL/source/string.cpp:24-45 | the one to four bytes of a unit by ranges and sums that determine each of them |
| Utf8Forms.Examples | first-party/EASTL/source/string.cpp:24-45 | the examples of section 7 of RFC 3629 |
| Utf8Forms.FiveBytesExact | first-party/EASTL/source/string.cpp:46-53 | the five-byte form is right exactly if bit 24 of the unit is not set |
| Utf8Forms.SixBytes | first-party/EASTL/source/string.cpp:54-62 | the six-byte form byte by byte |
| Utf8Forms.ReadExact | first-party/EASTL/source/string.cpp:84-167 | of bytes that start below 0xF0 exactly the forms of Unicode units are taken; anything else is one bad byte, read as 0xFFFF |
| Utf8Forms.ReadFourExact | first-party/EASTL/source/string.cpp:168-201 | the same for four-byte forms, of whose last byte only six bits count |
| Utf8Forms.ReadLong | first-party/EASTL/source/string.cpp:202-253 | what is done with the lead bytes from 0xF8 on |
| Utf8Forms.BadByte | first-party/EASTL/source/string.cpp:84-253 | a byte that belongs to no form reads as one 0xFFFF wherever it stands in a text, and nothing around it is lost |
| Utf8Forms.BadByteAt | first-party/EASTL/source/string.cpp:84-253 | the bytes 63 E9 61 62 read as 63 FFFF 61 62 |
| Utf8Forms.LongFormSwallows | first-party/EASTL/source/string.cpp:202-229 | the lead bytes 0xF8 to 0xFD take three or four bytes of the text behind them along |
| Utf8.DecodeEncode | first-party/EASTL/source/string.cpp:84-253 | a unit is read back whatever follows it |
| Utf8.DecodeExact | first-party/EASTL/source/string.cpp:84-201 | what is accepted, up to four bytes, is the encoding of the unit exactly if the lead byte announces fewer than four bytes or the fourth one continues |
| Utf8.FourthByteUnchecked | first-party/EASTL/source/string.cpp:187-190 | a sequence whose fourth byte continues nothing is accepted |
| Utf8.EncodeAllInjective | first-party/EASTL/source/string.cpp:24-71 | texts within Unicode with the same bytes are the same |
| Utf8.Ucs4ToUtf8 | first-party/EASTL/source/string.cpp:24-71 | writes the encoding of any unit within six bytes and touches nothing before it; fails exactly from 0x80000000 on |
| Utf8.Utf8ToUcs4 | first-party/EASTL/source/string.cpp:84-253 | reads one unit, well formed or not, and how far the source is consumed |
| Utf8.DecodePartToBytes | first-party/EASTL/source/string.cpp:364-375 | never overruns the buffer, takes at least one unit, and what it wrote is the encoding of what it took; stops only at the end of the source, when six bytes of room are no longer left, or after a unit without an encoding, of which the result tells |
| Utf8.DecodePartToUnits | first-party/EASTL/source/string.cpp:309-317 | the same for reading, also on malformed bytes; stops only at the end of the source or the buffer or after a bad unit, of which the result tells |
| Utf8.Text.AppendUnits | extra/string.h:1786-1808 | the chunks of 512 leave no trace: the encoding of the whole text is appended |
| Utf8.Text.AppendBytes | extra/string.h:1786-1808 | the same for reading any bytes |
| Utf8.ThereAndBack | extra/string.h:1786-1808 | converting there and back returns the text exactly if it is within Unicode |
| IntrusiveList.Validate | first-party/EASTL/source/intrusive_list.cpp:26-67 | halts on every graph of nodes, true exactly if the walk along next returns to the anchor over symmetric links |
| IntrusiveList.Reverse | first-party/EASTL/source/intrusive_list.cpp:12-22 | a valid list becomes the valid list of the opposite order |
| IntrusiveList.ReversedTwice | first-party/EASTL/source/intrusive_list.cpp:12-22 | reversing twice gives the old order |
| IntrusiveList.LinkedIsRing | first-party/EASTL/source/intrusive_list.cpp:26-67 | every list validates |
| IntrusiveList.RingIsLinked | first-party/EASTL/source/intrusive_list.cpp:26-67 | everything that validates is a list of distinct nodes linked both ways |
| IntrusiveList.WalkDistinct | first-party/EASTL/source/intrusive_list.cpp:50-62 | the nodes met on symmetric links before the walk returns to the anchor are distinct, so neither loop test ever fires |

## Left out

- Moves: a moved-from element is modelled as unchanged; what the C++ type leaves in it is not.
- Iterators and ranges are indices into arrays; sentinels, iterator categories, concepts and pipes have no counterpart.
- Rotation: only the forward algorithm; the one-step and the gcd variants, chosen by iterator category, are not modelled.
- InplaceMerge.InplaceMerge: when the allocator is asked for a buffer is not modelled; the result holds for every size it might grant.
- StableSort.StableSort: with a non-null buffer of size zero the source does not end on a long range, so nothing is promised; `StableSort.StableSortExact` says when that is.
- Lcg: seeding, streams chosen by address, stream operators, and the difference of engines on different streams.
- Draws.Shuffle: an array as long as a word of the generator can count, or longer, makes the source divide by zero, so nothing is promised of it; `Draws.DividesByZero` says exactly when.
- Draws: words narrower than 32 bits are promoted to signed integers of 32 bits, as the usual compilers do.
- Draws.BoundedRand: the generator is the sequence of its draws; when it runs out the method says so, where the source would go on drawing.
- Extended generators: the jump-ahead over their tables is not modelled; that it equals single stepping is not claimed.
- OutputPermutation.Output: words of 16 bits are multiplied as signed integers of 32 bits, which the product overflows where `OutputNumbers.ProductFits` says; the model takes it modulo the word there, too, and so does that of the generators.
- OutputPermutation: the output functions other than rxs_m_xs, which have no inverse in the source.
- Uint128: big-endian limb order, the 64-bit and compiler specialisations, the product with a double limb, the count of trailing zeros, and the bit scan on one limb, which is taken as the position of the highest bit.
- Uint128.ShiftRight: shifts of five limbs or more index outside the limbs in the source and are excluded; `Uint128.ShiftRightInside` says exactly which.
- DiscreteWeights: rounding of floating-point sums, the default constructor (which has no root to read), and the comparison of weights.
- StringInsert: fill and single-character insertion, erasure, length errors and exceptions, and the overlay of the heap fields by the small buffer, of which only the cell with the size is modelled.
- StringInsert.BasicString.Insert: a foreign range that touches the string's own memory counts as the string's own in the source; the model has only ranges inside and ranges apart.
- Utf8: reading of five- and six-byte forms stops at what the decoder does with them; conversions to and from 16-bit units are not modelled.
- RbEngine.RbTree.BlackCount: nothing is promised where the source does not end; `RbClimb.MeetsExact` says exactly where.
- RbEngine: finding the minimum and maximum child is a helper here; comparing keys and allocating nodes belong to the containers above.
- IntrusiveList: insertion and removal of single nodes.
- Algorithms that forward to the standard library, folds, actions, partitioning, introsort and the remaining algorithms: easier than what is here.
