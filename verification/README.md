# Verified models of the loop pass and its benchmarks

The repository is an LLVM pass that tags the branches closing loops, and a suite of C benchmarks it is measured on.
This project models the pass and the self-contained algorithms of the benchmarks, and proves what they are for.

- `Bitonic`, `BitonicTies`, `Bisort`: the adaptive bitonic sort, first on values, then by pointer swapping on a heap.
- `Swap`: the exchange of two trees with three explicit stacks and a fixed buffer.
- `SpanningTrees`, `Mst`: Prim's algorithm on a destructive linked list with cached distances.
- `ShortestPaths`, `Dijkstra`: the FIFO shortest-path search with its linked queue and in-band sentinel.
- `PatriciaTrie`, `PatriciaLinks`, `Patricia`: the trie whose nodes are branching points and leaves at once.
- `Octree`, `OctreeLoading`, `CentreOfMass`, `BarnesHut`: loading bodies, growing the box, the centre-of-mass pass and
  the pruned walk.
- `NaturalLoops`, `LoopPass`: dominance, natural loops and the pass itself.
- `CrcRegister`, `Crc32`: the table-driven CRC-32.
- `Adpcm`: the ADPCM coder and decoder.
- `Usqrt`: the bit-pair square root.
- `Powers`, `Reals`: arithmetic that several of them need.

Value-level theory and heap code are kept apart: a class or method is proved against functions on values, and the
theorems are about those functions. Ghost parameters carry the shape of a heap structure.

`dafny verify dfyconfig.toml` checks the whole project.

## What the code does not do

- The sort is not always right with ties from 16 values on (`BitonicTies.SortBound`), and the driver's values, taken
  modulo 100, always have ties in a tree of height 7 or more (`Bisort.DriverTies`). Up to 8 values it is right with
  ties.
- A Patricia key 0x80000000 cannot be told from the head's (`Patricia.Ptree.HighIsLost`). The driver leaves the mask
  count of its nodes at 0, so pat_remove refuses all of them (`Patricia.LoadAndRemove`).
- Without a tree, expandbox never looks again whether the body is inside and ends in its own assertion
  (`BarnesHut.ExpandBox`).
- usqrt documents the root of an unsigned long; on 64-bit words it gives that exactly for numbers below 2^32, as only
  the lower 32 bits count (`Usqrt.Usqrt`).
- ADPCM in parts is sure to give the bytes of one call only if the first part is even (`Adpcm.PartsByLength`).
- The CRC result has 32 ones above the CRC on 64-bit words (`Crc32.Crc32Buf`).

## Model

| member | source | states |
|---|---|---|
| Bitonic.DescentSplitsBitonic | wolfbench/wolfbench/Benchmarks/bisort/bitonic.c:290-326 | one path down the tree leaves both halves of any rotated rise-then-fall line of distinct values bitonic again, every value of the first half before every value of the second |
| Bitonic.DescentIsHalfCleaner | wolfbench/wolfbench/Benchmarks/bisort/bitonic.c:290-326 | on such a line the single path exchanges exactly the pairs that comparing all antipodal pairs would exchange |
| Bitonic.NeverAlternatesIsBitonic | wolfbench/wolfbench/Benchmarks/bisort/bitonic.c:257-344 | with distinct values, having no four positions low-high-low-high (or the reverse) is being a rotation of a rise and a fall; the other direction is `Bitonic.BitonicNeverAlternates` |
| Bitonic.MergeSorts | wolfbench/wolfbench/Benchmarks/bisort/bitonic.c:257-344 | merging sorts every bitonic line of distinct values in the direction asked for, keeping the values |
| Bitonic.SortSorts | wolfbench/wolfbench/Benchmarks/bisort/bitonic.c:346-391 | the whole sort puts every line of distinct values in the direction asked for, keeping the values |
| Bitonic.SortPermutes | wolfbench/wolfbench/Benchmarks/bisort/bitonic.c:346-391 | ties or not, sorting keeps the multiset of values and the perfect shape |
| Bitonic.MergePermutes | wolfbench/wolfbench/Benchmarks/bisort/bitonic.c:257-344 | ties or not, merging keeps the multiset of values and the perfect shape |
| BitonicTies.SortBound | wolfbench/wolfbench/Benchmarks/bisort/bitonic.c:346-391 | with ties allowed, the sort of height k is right on every input if and only if k is at most 3, in either direction |
| BitonicTies.MergeBound | wolfbench/wolfbench/Benchmarks/bisort/bitonic.c:257-344 | with ties allowed, one merge of height k is right on every line that never alternates if and only if k is at most 2, in either direction |
| BitonicTies.MisleadingSort | wolfbench/wolfbench/Benchmarks/bisort/bitonic.c:346-391 | for every height from 4 on, a family of lines of zeros and ones that the sort leaves out of order |
| BitonicTies.MergeThree | wolfbench/wolfbench/Benchmarks/bisort/bitonic.c:257-344 | two runs of four values in opposite directions, ties or not, are merged into order |
| Bisort.SwapValLeft | wolfbench/wolfbench/Benchmarks/bisort/bitonic.c:215-233 | the values and the left subtrees of two nodes change places, both trees staying trees |
| Bisort.SwapValRight | wolfbench/wolfbench/Benchmarks/bisort/bitonic.c:236-255 | the values and the right subtrees of two nodes change places, both trees staying trees |
| Bisort.DescendLoop | wolfbench/wolfbench/Benchmarks/bisort/bitonic.c:290-326 | the loop over two pointers leaves on the heap what the path of exchanges says, at the same nodes |
| Bisort.Bimerge | wolfbench/wolfbench/Benchmarks/bisort/bitonic.c:257-344 | one merge on the heap: the same nodes, no sharing, with the contents of the merged line |
| Bisort.Bisort | wolfbench/wolfbench/Benchmarks/bisort/bitonic.c:346-391 | the whole sort on the heap: the same nodes, no sharing, with the contents of the sorted line |
| Bisort.SortBothWays | wolfbench/wolfbench/Benchmarks/bisort/bitonic.c:428-435 | the driver's two calls: ascending then descending for distinct values, and for any values up to height 3; always a permutation |
| Bisort.RandTree | wolfbench/wolfbench/Benchmarks/bisort/bitonic.c:102-133 | whatever n is, the tree built is perfect, of height floor(log2 n), of fresh unshared nodes |
| Bisort.RandomValueAt | wolfbench/wolfbench/Benchmarks/bisort/bitonic.c:84-133 | the value at any path of the random tree is, modulo 100, the term of the sequence x := (31415821 x + 1) mod 10^8 that the path counts out, n + 1 terms being passed over at a right turn |
| Bisort.DriverTies | wolfbench/wolfbench/Benchmarks/bisort/bitonic.c:112-123 | from 128 values on, the driver's values have ties, whatever the seed |
| Bisort.MultIsProduct | wolfbench/wolfbench/Benchmarks/bisort/bitonic.c:75-82 | the split multiplication is the product up to a multiple of 10^8 |
| Bisort.SeedsFit | wolfbench/wolfbench/Benchmarks/bisort/bitonic.c:75-98 | from the driver's seeds on, no intermediate result of the generator reaches 2^31 |
| Swap.SwapDFS | wolfbench/wolfbench/Benchmarks/bisort/swap.c:36-56 | up to 256 nodes are visited in pre-order; buffer and nodes hold what the visits leave, and the stack holds what comes next |
| Swap.PoppedStacked | wolfbench/wolfbench/Benchmarks/bisort/swap.c:36-56 | popping a node and pushing its children keeps the stack no longer than the tree is high |
| Swap.Batch | wolfbench/wolfbench/Benchmarks/bisort/swap.c:71-76 | one round of three traversals exchanges the next 256 values of two trees and keeps the three stacks in step |
| Swap.NewSwapSubTree | wolfbench/wolfbench/Benchmarks/bisort/swap.c:58-80 | two disjoint perfect trees of the same height, at most 20, exchange all their values, however many batches that takes |
| SpanningTrees.ExchangeEdge | wolfbench/wolfbench/Benchmarks/mst/main.c:8-119 | a spanning tree that contains the chosen edges can be changed, at no more weight, to contain the lightest edge leaving the inserted set as well |
| SpanningTrees.PrimStep | wolfbench/wolfbench/Benchmarks/mst/main.c:108-117 | adding the lightest leaving edge keeps the chosen edges part of a minimum spanning tree |
| SpanningTrees.PrimEnd | wolfbench/wolfbench/Benchmarks/mst/main.c:90-119 | when every vertex is inserted the chosen edges are a spanning tree of least weight among all |
| SpanningTrees.ConnectedIffPaths | wolfbench/wolfbench/Benchmarks/mst/main.c:90-119 | connected by cuts, as the proof uses it, is connected by paths |
| SpanningTrees.SameMinimum | wolfbench/wolfbench/Benchmarks/mst/main.c:90-119 | only the weights between different vertices decide which spanning trees are minimum, as none has an edge from a vertex to itself |
| Mst.BlueRule | wolfbench/wolfbench/Benchmarks/mst/main.c:8-72 | for any tables (a missing entry changes nothing, as __Olden_panic is an assert on a string, mst.h:4): the inserted vertex is unlinked, every other cached distance is lowered if its edge is lighter, and the nearest vertex is returned |
| Mst.RelaxKeepsLightest | wolfbench/wolfbench/Benchmarks/mst/main.c:24-33 | a cached distance stays the weight of the lightest edge to the inserted set |
| Mst.Prim.DoAllBlueRule | wolfbench/wolfbench/Benchmarks/mst/main.c:82-88 | the list keeps exactly the vertices not inserted, each with its lightest edge to the inserted set; the nearest is returned |
| Mst.Prim.ComputeMst | wolfbench/wolfbench/Benchmarks/mst/main.c:90-119 | the returned cost is the least weight of all spanning trees; in a complete graph the weights are the table entries themselves |
| ShortestPaths.SimplePathBelowNone | wolfbench/wolfbench/Benchmarks/dijkstra/dijkstra_large.c:5-6 | a path that visits no node twice costs less than the sentinel 9999 |
| ShortestPaths.StepKeepsInvAt | wolfbench/wolfbench/Benchmarks/dijkstra/dijkstra_large.c:125-137 | one turn of the inner loop keeps everything that is true of distances, predecessor links and stale queue entries |
| ShortestPaths.StepMeasure | wolfbench/wolfbench/Benchmarks/dijkstra/dijkstra_large.c:122-138 | a turn that changes anything lowers the sum of all distances, so the queue loop ends |
| ShortestPaths.NoPathIsCheaper | wolfbench/wolfbench/Benchmarks/dijkstra/dijkstra_large.c:122-138 | when the queue is empty, no path from the start is cheaper than the recorded distance |
| ShortestPaths.EmptyQueueIsExact | wolfbench/wolfbench/Benchmarks/dijkstra/dijkstra_large.c:100-138 | when the queue is empty, each distance is the least path cost, and is the sentinel exactly for unreachable nodes |
| ShortestPaths.LinkDescends | wolfbench/wolfbench/Benchmarks/dijkstra/dijkstra_large.c:38-46 | following a predecessor link gets nearer to the start in a well-founded order, even around zero-cost cycles |
| ShortestPaths.ChainIsShortest | wolfbench/wolfbench/Benchmarks/dijkstra/dijkstra_large.c:38-46 | the chain of predecessors is a path from the start whose edges add up to the recorded distance |
| ShortestPaths.BoundIsSharp | wolfbench/wolfbench/Benchmarks/dijkstra/dijkstra_large.c:5-6 | with edges of cost 101 no distances can be exact in this sense: a reachable node can be as far away as the sentinel |
| Dijkstra.Search.Enqueue0 | wolfbench/wolfbench/Benchmarks/dijkstra/dijkstra_large.c:49-75 | the walk to the end of the linked queue appends one item |
| Dijkstra.Search.Dequeue0 | wolfbench/wolfbench/Benchmarks/dijkstra/dijkstra_large.c:78-92 | the first item leaves the linked queue; of an empty one the variables keep their values |
| Dijkstra.Search.RunQueue | wolfbench/wolfbench/Benchmarks/dijkstra/dijkstra_large.c:122-138 | the loop ends with an empty queue in a state that the invariant allows |
| Dijkstra.Search.PrintPath | wolfbench/wolfbench/Benchmarks/dijkstra/dijkstra_large.c:38-46 | the recursion ends and prints the chain |
| Dijkstra.Search.FindPath | wolfbench/wolfbench/Benchmarks/dijkstra/dijkstra_large.c:100-146 | all distances are exact; cost and path reported for the end node are those of a shortest path, or the sentinel and the node alone if there is none |
| PatriciaTrie.InsertBranches | wolfbench/wolfbench/Benchmarks/patricia/patricia.c:65-80 | inserting at the first differing bit keeps branching bits increasing and separating the keys below |
| PatriciaTrie.InsertOwnLeaves | wolfbench/wolfbench/Benchmarks/patricia/patricia.c:65-80 | inserting keeps exactly one up-link to each node, inside its own subtree |
| PatriciaTrie.FindPresent | wolfbench/wolfbench/Benchmarks/patricia/patricia.c:108-113 | a search for the key of an up-link ends at that up-link |
| PatriciaTrie.RemoveKeeps | wolfbench/wolfbench/Benchmarks/patricia/patricia.c:206-274 | removal, the parent's entry moving into the target's node, keeps a well-formed trie with just that entry gone, also when the target is its own parent or the parent links to itself |
| Patricia.Ptree.PatSearch | wolfbench/wolfbench/Benchmarks/patricia/patricia.c:314-343 | the node that holds the key if the key is stored; otherwise the head, or nothing if the head has lost its default mask |
| Patricia.Ptree.PatInsert | wolfbench/wolfbench/Benchmarks/patricia/patricia.c:91-186 | a new key adds exactly its entry and node; a stored key gains or replaces one mask; all other entries stay; the trie stays well-formed |
| Patricia.Ptree.PatRemove | wolfbench/wolfbench/Benchmarks/patricia/patricia.c:192-308 | removal succeeds exactly for a stored, removable entry with matching mask, and takes out exactly that entry or mask; otherwise nothing changes |
| Patricia.MergeMask | wolfbench/wolfbench/Benchmarks/patricia/patricia.c:143-157 | the copy loop puts the new mask in at its place among masks below 0xffffffff |
| Patricia.MergeNeverEnds | wolfbench/wolfbench/Benchmarks/patricia/patricia.c:143-157 | with a stored 0xffffffff the copy loop never gets past it, however many turns it takes |
| Patricia.AddMaskMeans | wolfbench/wolfbench/Benchmarks/patricia/patricia.c:125-163 | an added mask is there with its data, in place of an equal one if there was one; all other masks stay, and ascending masks stay ascending |
| Patricia.RemovableMeans | wolfbench/wolfbench/Benchmarks/patricia/patricia.c:224-282 | a mask is removable if and only if the entry has it and is not the default entry with that mask alone |
| Patricia.RemainsMeans | wolfbench/wolfbench/Benchmarks/patricia/patricia.c:270-308 | of an entry with several ascending masks exactly the others remain, in order; with its last mask it goes |
| Patricia.Ptree.UpLinks | wolfbench/wolfbench/Benchmarks/patricia/patricia.c:65-186 | every node but the head is reached by exactly one up-link, inside its own subtree, and the head by one on each side |
| Patricia.Ptree.Differs | wolfbench/wolfbench/Benchmarks/patricia/patricia.c:172-175 | a new key other than 0x80000000 differs from the key found in a bit from 1 to 31 |
| Patricia.Ptree.HighIsLost | wolfbench/wolfbench/Benchmarks/patricia/patricia.c:172-175 | in every trie the search for 0x80000000 ends at the head, from which no bit from 1 to 31 tells it, and it is never stored |
| Patricia.Ptree.Load | wolfbench/wolfbench/Benchmarks/patricia/patricia_test.c:127-197 | after any keys, what is stored is what was there plus one entry for each new key |
| Patricia.LoadedEntries | wolfbench/wolfbench/Benchmarks/patricia/patricia_test.c:127-197 | exactly the loaded keys are added, each with mask 0xffffffff, the data and a mask count of 0; what was stored stays, and no loaded entry can be removed |
| Patricia.LoadAndRemove | wolfbench/wolfbench/Benchmarks/patricia/patricia_test.c:120-197 | after any run of the driver's insertions pat_remove refuses every node |
| Octree.OneOctant | wolfbench/wolfbench/Benchmarks/bh/newbh.c:1210-1216 | every place of a cube lies in exactly one of its eight octants; 4 to 7 are those right of the middle, 2, 3, 6 and 7 those above, the odd ones those behind |
| Octree.BitsChooseOctant | wolfbench/wolfbench/Benchmarks/bh/newbh.c:1221-1230 | at every level the bit of the integer coordinates chooses the octant that holds the place |
| Octree.AllBits | wolfbench/wolfbench/Benchmarks/bh/newbh.c:1093-1134 | two places in the same cube of the last level have the same integer coordinates |
| Octree.SameCoordsSameOctant | wolfbench/wolfbench/Benchmarks/bh/newbh.c:1032-1034 | a body with given coordinates can only be below the slot that the bits choose |
| Octree.OldOctant | wolfbench/wolfbench/Benchmarks/bh/newbh.c:967-989 | after doubling, the bits of the old middle choose the octant that the old box has become |
| Octree.GrowsToward | wolfbench/wolfbench/Benchmarks/bh/newbh.c:967-975 | the box doubles toward the place: the old box is the half of the new one away from it, in each dimension |
| Octree.InReachGrows | wolfbench/wolfbench/Benchmarks/bh/newbh.c:967-975 | one doubling towards a place takes one off the number of doublings needed to reach it |
| OctreeLoading.GrowthOf | wolfbench/wolfbench/Benchmarks/bh/newbh.c:949-994 | the new box comes from the old one by steps that each double toward the place, from a box below 1000 that does not hold it; it holds the place or has reached 1000 |
| BarnesHut.LoadTree | wolfbench/wolfbench/Benchmarks/bh/newbh.c:1006-1037 | the body becomes one more leaf, all bodies staying in the cubes that their paths name, and no new cell holds fewer than two bodies; the bits run out if and only if a body with the same integer coordinates is there |
| BarnesHut.ExpandBox | wolfbench/wolfbench/Benchmarks/bh/newbh.c:939-994 | the box grows step by step toward the body, one cell for each doubling, the old tree becoming an octant; it ends well if and only if the body is inside at once, or there is a tree and the body is within reach of the doublings below size 1000 |
| BarnesHut.HackCofM | wolfbench/wolfbench/Benchmarks/bh/newbh.c:1237-1282 | every cell gets the mass of all bodies below it, and their centre of mass if no cell below weighs nothing |
| CentreOfMass.MassIsSum | wolfbench/wolfbench/Benchmarks/bh/newbh.c:1249-1258 | the mass of a tree is the sum of the masses of its bodies, in any order |
| CentreOfMass.MomentIsSum | wolfbench/wolfbench/Benchmarks/bh/newbh.c:1249-1266 | its moment is the sum of place times mass of its bodies, in each dimension |
| BarnesHut.WeighedInside | wolfbench/wolfbench/Benchmarks/bh/newbh.c:1249-1266 | with positive masses the centre that the pass writes lies in the cube of the tree |
| BarnesHut.WalkSub | wolfbench/wolfbench/Benchmarks/bh/newbh.c:789-809 | the accepted nodes hold every body exactly once, but the one left out as often less as the walk comes down to it, and so do the masses; above each of them and of the bodies left out every cell at depth d is nearer than tol^2 distance^2 < dsq / 4^d, and no accepted cell is |
| BarnesHut.NearIsAngle | wolfbench/wolfbench/Benchmarks/bh/newbh.c:819-833 | that a cell at the end of a path is near means that the tolerance times its distance is below the size of its own cube |
| BarnesHut.HackGrav | wolfbench/wolfbench/Benchmarks/bh/newbh.c:718-735 | in a tree made by the pass, the accepted nodes weigh what the root does, less the body itself exactly if it is reached as a leaf; exactly the near cells are opened on the way to them, by their own positions and depths |
| BarnesHut.LoadOne | wolfbench/wolfbench/Benchmarks/bh/newbh.c:909-913 | one body is loaded if and only if it is in the box for it, grown if there is a tree, and alone there with its integer coordinates |
| BarnesHut.MakeTree | wolfbench/wolfbench/Benchmarks/bh/newbh.c:891-928 | the tree holds exactly the bodies with mass, placed and weighed, in the box grown for them one by one; no more cells hold fewer than two bodies than the box has doubled; it is made if and only if the bodies can be loaded one by one |
| OctreeLoading.LoadableInBox | wolfbench/wolfbench/Benchmarks/bh/newbh.c:907-916 | bodies that are all in the box at the start can be loaded if and only if no two have the same integer coordinates |
| Octree.MassiveWeighable | wolfbench/wolfbench/Benchmarks/bh/newbh.c:1249-1266 | with positive masses no cell weighs nothing, so every centre of mass is right |
| NaturalLoops.LoopsNest | custom_loop_analysis.cpp:516-522 | natural loops with different headers that share a block are nested |
| NaturalLoops.LatchesAreInside | custom_loop_analysis.cpp:496-500 | of a header's predecessors exactly the sources of its back edges are in its loop |
| LoopPass.ForestExists | custom_loop_analysis.cpp:516-522 | every function body has a forest of natural loops, nested inside and disjoint side by side |
| LoopPass.ForestTags | custom_loop_analysis.cpp:486-501 | the blocks tagged over the forest are exactly the reachable blocks with an edge to a block that dominates them |
| LoopPass.ForestCount | custom_loop_analysis.cpp:486-490 | the forest has as many loops as there are targets of back edges |
| LoopPass.TagEntry | custom_loop_analysis.cpp:466-484 | the key "backedge: " is on exactly the branches of those blocks, with a tag that names file and line or is "cla" if these are unknown, and is otherwise left alone, whatever else the pass marks |
| LoopPass.MarkEntry | custom_loop_analysis.cpp:192-204 | the key "IndVarUpdateInst:" is set to "canonical_ind_var" on exactly the updates whose place is known, and is otherwise left alone |
| LoopPass.UpdatesAre | custom_loop_analysis.cpp:486-494 | the updates marked are those found for any loop of the forest, at any depth |
| LoopPass.DigitsRead | custom_loop_analysis.cpp:474-479 | the line number in a tag reads as that number in decimal, without a leading 0 |
| LoopPass.OtherKeys | custom_loop_analysis.cpp:192-204 | no key but "backedge: " and "IndVarUpdateInst:" changes |
| LoopPass.OnlyTerminators | custom_loop_analysis.cpp:466-484 | where a tag changes anything, it is at the branch that ends a block |
| LoopPass.Pass.AddMetadataToBackEdge | custom_loop_analysis.cpp:466-484 | every branch of the block is tagged, by file and line if these are known, and nothing else changes |
| LoopPass.Pass.FindIndVarUpdateCandidates | custom_loop_analysis.cpp:458-462 | the updates found are marked if their place in the source is known |
| LoopPass.Pass.AnalyzeLoop | custom_loop_analysis.cpp:486-501 | over a loop and those inside it: one count each, tags and marks as stated for the whole |
| LoopPass.Pass.CustomLoopAnalysis | custom_loop_analysis.cpp:503-524 | over a module: NumLoops rises by the number of targets of back edges, and each function's metadata is that of tagging the sources of its back edges and marking its updates |
| Crc32.TableEntries | wolfbench/wolfbench/Benchmarks/CRC32/crc_32.c:74-118 | each of the 256 entries is what eight bit-serial steps make of the byte |
| Crc32.LookupIsSteps | wolfbench/wolfbench/Benchmarks/CRC32/crc.h:37 | one lookup and shift is eight bit-serial steps |
| Crc32.Updc32 | wolfbench/wolfbench/Benchmarks/CRC32/crc_32.c:120-123 | one update of the 64-bit word takes in the eight bits of a byte, the upper half staying 0 |
| Crc32.Crc32Buf | wolfbench/wolfbench/Benchmarks/CRC32/crc_32.c:159-172 | in its low 32 bits the result is the bit-serial reflected CRC with polynomial 0xedb88320; the upper 32 are ones |
| CrcRegister.BurstDetected | wolfbench/wolfbench/Benchmarks/CRC32/crc_32.c:159-172 | two streams that differ only within 32 consecutive bits leave different registers |
| CrcRegister.FourBytesDetected | wolfbench/wolfbench/Benchmarks/CRC32/crc_32.c:159-172 | two buffers of equal length that differ only within four consecutive bytes never have the same CRC |
| Crc32.TellApart | wolfbench/wolfbench/Benchmarks/CRC32/crc_32.c:159-172 | for such buffers the two results of the program differ |
| CrcRegister.PresetInverts | wolfbench/wolfbench/Benchmarks/CRC32/crc_32.c:161-166 | from four bytes on, the preset to ones is a start from zeros with the first four bytes inverted |
| CrcRegister.Residue | wolfbench/wolfbench/Benchmarks/CRC32/crc_32.c:159-172 | a buffer followed by its CRC leaves the same register, whatever the buffer |
| Adpcm.Accuracy | wolfbench/wolfbench/Benchmarks/adpcm/adpcm.c:101-156 | within twice the step the new predicted value is within an eighth of the step plus 2 of the sample, clamping included; from farther away it comes nearer by almost twice the step |
| Adpcm.CodeMeans | wolfbench/wolfbench/Benchmarks/adpcm/adpcm.c:97-135 | the sign of a code says on which side of the predicted value the sample is, the magnitude which of eight thresholds, about quarters of the step, is the last one not above the difference |
| Adpcm.MoveMeans | wolfbench/wolfbench/Benchmarks/adpcm/adpcm.c:105-130 | as the comment says, a code of magnitude m moves the predicted value by (m + 1/2) step / 4, up to 17/8 cut off |
| Adpcm.NextMeans | wolfbench/wolfbench/Benchmarks/adpcm/adpcm.c:137-156 | what any code does to predicted value and index: threshold plus an eighth of the step, within 16 bits; one place down or 2, 4, 6, 8 up, within the table |
| Adpcm.StepAdapts | wolfbench/wolfbench/Benchmarks/adpcm/adpcm.c:102-156 | the next index in terms of sample and step alone: down for a difference below the step, else up by 2, by 4 more from half a step beyond, by 2 more from a quarter left |
| Adpcm.StepsGrow | wolfbench/wolfbench/Benchmarks/adpcm/adpcm.c:55-68 | the steps rise from 7 to 32767, each a tenth above the one before up to 8/10, but for the last |
| Adpcm.CodeAt | wolfbench/wolfbench/Benchmarks/adpcm/adpcm.c:82-165 | each code is that of its sample in the state that the codes before it lead to |
| Adpcm.OutputAt | wolfbench/wolfbench/Benchmarks/adpcm/adpcm.c:200-247 | each output value is that of the state its code leads to, one code after the other |
| Adpcm.CodeOne | wolfbench/wolfbench/Benchmarks/adpcm/adpcm.c:102-156 | one code of the coder, whose own state then is what the code makes of the old one |
| Adpcm.Coder | wolfbench/wolfbench/Benchmarks/adpcm/adpcm.c:72-173 | the bytes are all codes packed two by two, and the coder's predicted values are those that the codes lead to |
| Adpcm.Decoder | wolfbench/wolfbench/Benchmarks/adpcm/adpcm.c:175-252 | the outputs and the final state are those that the unpacked codes lead to |
| Adpcm.UnpackPack | wolfbench/wolfbench/Benchmarks/adpcm/adpcm.c:159-164 | unpacking finds every code again, for odd lengths too |
| Adpcm.PackUnpack | wolfbench/wolfbench/Benchmarks/adpcm/adpcm.c:204-211 | any bytes are those of the codes in them |
| Adpcm.PackedByte | wolfbench/wolfbench/Benchmarks/adpcm/adpcm.c:159-169 | byte j is, modulo 256, 16 times code 2j plus code 2j + 1, or 0 if there is none |
| Adpcm.CodeAndDecode | wolfbench/wolfbench/Benchmarks/adpcm/adpcm.c:72-252 | from the same state the decoder gives exactly the coder's predicted values and ends in the same state |
| Adpcm.CodedInParts | wolfbench/wolfbench/Benchmarks/adpcm/adpcm.c:167-172 | coding in two calls through the saved state gives the bytes of one call if and only if the first part has even length, or what follows is an even number of zero codes |
| Adpcm.PartsByLength | wolfbench/wolfbench/Benchmarks/adpcm/adpcm.c:167-172 | two calls give the bytes of one, whatever samples of a given number follow, if and only if the first part has even length or nothing follows |
| Usqrt.Usqrt | wolfbench/wolfbench/Benchmarks/basicmath/isqrt.c:45-65 | the result is the root of the lower 32 bits of x times 2^32, rounded down, on 64-bit words; it is that of x itself if and only if x has no more than 32 bits |
| Usqrt.WordRound | wolfbench/wolfbench/Benchmarks/basicmath/isqrt.c:53-63 | a round on 64-bit words loses no bit of r, a or e, and the bits that x loses do no harm |
| Usqrt.IntegerPart | wolfbench/wolfbench/Benchmarks/basicmath/isqrt.c:13-22 | the upper part of the result is the integer root of x, and squares have exact roots |

## Left out

- Bitonic.SortSorts: assumes distinct values; what holds with ties is BitonicTies.SortBound, by height and not by
  input.
- Bisort.Bimerge: models the ONEONLY branch, where subtrees change places by pointer; the branch for distributed
  trees, with PID tests and futures, is not modelled. SwapTree and SwapSubTree are not modelled.
- Mst.Prim.ComputeMst: HashLookup is a map from vertex to positive weight and integers are unbounded; hash.c,
  makegraph.c and the address arithmetic of the keys are not modelled.
- Dijkstra.Search.FindPath: the matrix is a value, with costs of present edges in 0..100, the greatest bound that keeps
  distances apart from the sentinel (ShortestPaths.BoundIsSharp); with negative costs the queue need not become empty.
  Reading the matrix from a file and printing are left out.
- Patricia.Ptree.PatInsert: keys other than 0x80000000, mask 0xffffffff for every node but the head, as in the driver;
  other masks would let a key differ from what a search finds beyond the mask.
- Patricia.MergeMask: masks below 0xffffffff; with a stored 0xffffffff the loop does not end (Patricia.MergeNeverEnds).
- Patricia.Ptree.PatRemove: freeing memory and the read of the uninitialised t in the first test are not modelled.
- Longest-prefix matching in pat_search is not stated: the code looks only at the first mask of a node. pat_count is
  left out.
- BarnesHut.ExpandBox: numbers are exact reals; floating-point rounding is not modelled. Processor numbers, free lists
  of cells and messages are left out.
- BarnesHut.HackCofM: where a cell's masses add up to 0 the program divides by it; what its centre then holds is not
  modelled.
- BarnesHut.WalkSub: carries which nodes interact; their order, potentials, accelerations and the time step are left
  out.
- BarnesHut.MakeTree: some body has mass (the pass would read a null root otherwise). A failed assertion, which ends the
  program, is `ok` being false.
- LoopPass.Pass.FindIndVarUpdateCandidates: which instructions are updates is given with each loop; the search for
  them through compares, loads and stores is not modelled (on a copy cycle such as i = i it does not end).
- LoopPass.Pass.CustomLoopAnalysis: what LLVM's LoopInfo hands over is specified as a forest of natural loops, not
  computed; the other passes, statistics and file handling are left out.
- Crc32.Crc32Buf: the variant that reads a file, with its character count, is left out.
- Adpcm.Coder: the drivers that read and write files are left out; adpcm/old repeats the code.
- Usqrt.Usqrt: the copy of the result into a structure of two halves is left out.
- FFT, FIR, susan, cubic, arm, em3d: floating point is their point.
- sha, bitcount, bit files, hanoi, kmp, smatrix, dijkstra_small: they would mostly add easier members.
- Main functions, argument and file handling, printing and timing.
