# Models of the Diagonal library

Dafny models of the algorithms in Diagonal's C library, with proofs of what they promise. Each module follows one
source file or one part of it. Code that updates arrays, nodes or cursors in place is a class or a method; its
contract ties the new state to a function on values, and the lemmas are about that function and about whole runs.

| modules | source | subject |
|---|---|---|
| EditScript, Lcs | src/lcs.c | shortest edit scripts by the O(NP) sweep over two arrays |
| Linkage, LinkageRun, LinkageTies, LinkageTree, SingleLinkage | src/singlelinkage.c | single-linkage clustering as a state machine, whole runs, the order of equal couples, the tree of merges with its records, and the loops that rewrite its table in place |
| Steering, ChainMetric, TieMetric, EqualRun | src/singlelinkage.c | distances under which a run goes wrong, for the exact condition on the comparison |
| RbShape, RbFix, RbOrder, RbTree | src/rbtree.c | red-black trees: shapes as values, the fix-up cases, their laws, and the linked nodes |
| Words, RollingHash | src/hash.c | 32-bit Rabin-Karp hashes, direct and rolling |
| SelfCopy, Compression, ExpandLaws | src/vcdiff.c | compression by copies of earlier data, and its expansion |
| VcdInteger, VcdCache, VcdTable, VcdVm, VcdScript, VcdEncode, VcdFile, VcdReader, VcdDecode, VcdForm, VcdErrors, VcdAddress, VcdPlain, VcdOverlap, VcdSample, VcdMachine | src/vcdiff.c, src/port.c | VCDIFF files (RFC 3284): integers, address caches, code tables, the machine on values, scripts and their coding, printing and reading, nested tables, what the bytes hold field by field, when decoding fails, files of plain scripts, overlapping copies, sample files, and the machine in place |
| Levenshtein | src/levenshtein.c | edit distance with two rows |
| Grouping, GroupingLinks | src/diag-line.c | threshold grouping with a forest of parent links, and its display |
| QSelect | src/qselect.c | selection by compaction |
| Cycle | src/diag-cycle.c | cycle detection over the outputs of a command |
| Options, Division | | a value or nothing; quotients and remainders |

Where the code and its documentation disagree the models follow the code:

- Deletion from a red-black tree skips the fix-up when the black node taken out has no child (src/rbtree.c:448-457).
  Equal black heights are then lost; `RbOrder.DeletionEven` gives the exact condition and `RbOrder.UnevenDeletion`
  a tree that fails.
- Matches of the compressor may overlap, and then expansion does not give the data back;
  `SelfCopy.ContractExpand` gives the exact condition and `SelfCopy.Overlapping` an input that fails.
- The helper tree of the clustering holds cluster numbers but is ordered by the comparison of distances
  (src/singlelinkage.c:96). A comparison that takes two bystanders for equal makes it drop the wrong couple;
  `Linkage.HelperNeedsSeparation` gives the exact condition for one round and `LinkageRun.SuitsExact` for whole runs
  over all distances; results about whole runs ask for no more. `LinkageRun.FourLeavesFail` is an input that fails.
- Quickselect counts its rank from the greatest element, since `cmp(pivot, elem) < 0` counts the greater ones.
- VCDIFF: the caches are set once for all windows (section 5.1 of RFC 3284 sets them for each window); a window without
  a segment copies from its own part of the target; `here` counts over the whole target; a COPY of target
  bytes reads what the buffer held before it (src/vcdiff.c:747), and `VcdOverlap.CopyOverlap` says when that is
  what copying byte by byte gives; a RUN above 255 never ends, as its counter is a byte
  (src/vcdiff.c:720). The models keep all of this, with an outcome of its own for the last; the script theorems
  are about RUN up to 255 and COPY of complete bytes.

Deletion from the table of the clustering may move an entry to another node. The pointers that the loop still holds
stay good: the predecessor of a dropped entry is never the least one, because the renamed entry of the same bystander
lies between them. The table is therefore a sequence of entries here.

`dafny verify dfyconfig.toml` checks the whole project.

## Model

| member | source | states |
|---|---|---|
| EditScript.ReadsIsLeads | src/lcs.c:60-86 | Reading a script from the front, 1 as take from vy, -1 as drop from vx and 0 as match, consumes both sequences exactly when its moves lead from the origin to the far corner of the grid. |
| EditScript.FlipLeads | src/lcs.c:124-134 | A script crosses the grid with the arguments exchanged and the sign u negated exactly when it crosses the grid as given. |
| EditScript.ScriptBounded | src/lcs.c:60-86 | Furthest-reaching lemma: if a row of furthest points bounds every script with at most p-1 drops and each diagonal of round p takes the better neighbour and slides, no script with p drops gets past the new row. |
| EditScript.RoundDominates | src/lcs.c:148-159 | Hence one round turns a row that dominates all scripts of cost p-1 into one that dominates all of cost p. |
| EditScript.DropTakeLeads | src/lcs.c:148-159 | Dropping all and taking all always crosses, with exactly x drops, which bounds the rounds. |
| EditScript.ScriptToCommon | src/lcs.c:161-173 | Each script yields a strictly increasing list of matched positions as long as its zeros are many. |
| EditScript.CommonToScript | src/lcs.c:161-173 | Each common subsequence yields a script with exactly so many zeros. |
| Lcs.SlideLeads | src/lcs.c:76-86 | Following matches along a diagonal extends the recorded path by zeros and costs nothing; the point stays in the grid. |
| Lcs.SweepStep | src/lcs.c:148-156 | One call of snake in the right order moves one diagonal from its old to its new row and path and leaves the others; given that the entries it reads are ready. |
| Lcs.SweepReady | src/lcs.c:148-156 | In the order of the two inner loops, the neighbours that a diagonal reads are always ready. |
| Lcs.EdgeReachesCorner | src/lcs.c:148-157 | If any swept diagonal touches the edge of the grid, the diagonal d has already reached the corner, so no later round starts outside the grid. |
| Lcs.LastRound | src/lcs.c:148-159 | After at most m rounds the corner is reached. |
| Lcs.NextRound | src/lcs.c:148-159 | Until then a finished round is a valid start of the next, all rows and paths inside the grid. |
| Lcs.CornerCost | src/lcs.c:157-163 | At the corner, the path recorded on diagonal d is a script with exactly p drops, and no script has fewer. |
| Lcs.Onp.PathPush | src/lcs.c:45-58 | Puts a move on the path of one diagonal and changes nothing else. |
| Lcs.Onp.Snake | src/lcs.c:60-86 | One diagonal of both arrays is set as the sweep prescribes; every index lies within the m+n+3 cells. |
| Lcs.Onp.Branch | src/lcs.c:64-74 | The better neighbour hands over its row and its path, with one move more. |
| Lcs.Onp.Follow | src/lcs.c:75-86 | The diagonal is followed to the first mismatch or the edge. |
| Lcs.Onp.Sweep | src/lcs.c:148-156 | One step of the sweep from the two sides towards d. |
| Lcs.Onp.Round | src/lcs.c:148-159 | A round ends with the furthest points for p drops, and either fp[d] is n or the next round may start and p is below m. |
| Lcs.Onp.Run | src/lcs.c:148-159 | The loop ends with p at most m; the path of d crosses the grid with p drops, and no script has fewer. |
| Lcs.EditsOf | src/lcs.c:173-174 | Every crossing has d + 2p edits for its p drops, and its matches and drops together are as many as the shorter sequence. |
| Lcs.ReadsOnGrid | src/lcs.c:115-135 | Reading a script of the two arguments is crossing the grid that the program builds, whichever argument is longer. |
| Lcs.SymmetricReads | src/lcs.c:124-136 | For a symmetric relation the exchange of arguments makes no difference to what a script reads. |
| Lcs.LeastIsLongest | src/lcs.c:161-174 | The zeros of a least script number the length of a longest common subsequence. |
| Lcs.Compute | src/lcs.c:14-174 | The script, without the first move, consumes both arguments exactly; the number returned counts its takes and drops, and no script has fewer; its zeros are a longest common subsequence. Without a relation given, all of this is for equality of numbers. |
| Linkage.AbsorbJoinsOnce | src/singlelinkage.c:97-130 | Of the two cells of a bystander one is renamed and one dropped, in whatever order they come, and nothing of it stays in the helper tree. |
| Linkage.AbsorbLesser | src/singlelinkage.c:97-130 | The cell that is kept has the lesser of the two keys. |
| Linkage.AbsorbSorted | src/singlelinkage.c:97-130 | Rewriting couples in place keeps the table in order. |
| LinkageTies.StartStable | src/singlelinkage.c:66-83 | In the first table couples of equal keys are in the order of the two loops. |
| LinkageTies.AbsorbPlaces | src/singlelinkage.c:97-130 | Rewriting keeps the cells in their order: those of bystanders only as they are, the first one of each bystander under the new number, and drops exactly the second ones. |
| LinkageTies.StepPlaces | src/singlelinkage.c:86-130 | So does each step of a run, so that of equal couples the one that came first stays first. |
| Linkage.StepComplete | src/singlelinkage.c:86-130 | After a round there is exactly one cell for each pair of clusters still live, and no bystander is left in the helper tree. |
| Linkage.HelperNeedsSeparation | src/singlelinkage.c:96-130 | For any live clusters: rounds keep all tables complete if and only if the comparison, which also orders the helper tree of cluster numbers, tells the bystanders apart. |
| Linkage.StepLeast | src/singlelinkage.c:86-130 | Every key is still a least leaf-to-leaf distance of its two clusters. |
| Linkage.StepInv | src/singlelinkage.c:86-149 | A round keeps all of this together: partition of the leaves, complete ordered table of least distances; the helper tree ends empty; no key left is below the one merged. |
| Linkage.StepRising | src/singlelinkage.c:86-149 | Merge heights never decrease. |
| Linkage.StepJoined | src/singlelinkage.c:86-149 | Leaves of a cluster stay linked by a chain of pairs at most as far apart as the last merge. |
| Linkage.ClustersAreComponents | src/singlelinkage.c:86-149 | When all couples left are farther apart than h and none merged was, two leaves share a cluster exactly if a chain of pairs at distance at most h joins them. |
| Linkage.StartSound | src/singlelinkage.c:66-83 | The first table satisfies every invariant. |
| Linkage.CouplesLeft | src/singlelinkage.c:86-149 | A couple is left exactly as long as two clusters are. |
| LinkageRun.RunInv | src/singlelinkage.c:86-149 | With a suitable comparison every state of a run has a complete table of least distances, whatever the metric. |
| LinkageRun.NextWell | src/singlelinkage.c:86-149 | And every round but the last has a couple to merge and leaves the helper tree empty. |
| LinkageRun.RunSound | src/singlelinkage.c:86-149 | Merge heights rise throughout the run, and leaves of a cluster stay linked. |
| LinkageRun.SuitsExact | src/singlelinkage.c:86-149 | All metrics come out right, in every round of every run, if and only if the comparison is suitable for the number of leaves: it tells apart the numbers below 2 size - 4, or there are fewer than four leaves, or five and it finds all numbers equal. |
| LinkageRun.FourLeavesFail | src/singlelinkage.c:86-149 | An input that fails: four leaves at the same distance under a comparison that takes 2 and 3 for equal; one couple is twice in the table, another is missing. |
| LinkageRun.CutIsComponents | src/singlelinkage.c:86-149 | For every height h of a complete run: the merges up to h come first, and after exactly those the clusters are the components of the leaves linked at h. |
| Steering.Trapped | src/singlelinkage.c:97-130 | A round in which two confused bystanders are nearer to one of the merged clusters than all else loses the least distance of one of them. |
| ChainMetric.PlanFails | src/singlelinkage.c:86-149 | For any two numbers that a run can meet as bystanders there are distances that make it build them and then go wrong, if the comparison confuses them. |
| TieMetric.TieFails | src/singlelinkage.c:66-130 | Two distances are enough to make the first round go wrong for two confused leaves. |
| EqualRun.EvenFails | src/singlelinkage.c:66-149 | If all numbers are equal, an even number of leaves fails in the first round. |
| EqualRun.OddFails | src/singlelinkage.c:66-149 | An odd number from seven on fails in the second. |
| EqualRun.FiveRoundTwo | src/singlelinkage.c:66-149 | Five leaves do not. |
| SingleLinkage.SingleLinkage.Fill | src/singlelinkage.c:66-83 | Builds the ordered table of all couples of leaves. |
| SingleLinkage.SingleLinkage.Merge | src/singlelinkage.c:94-131 | The inner loop, which rewrites and deletes in place, produces exactly the absorbed table behind the least couple, and the helper tree is empty at its end. |
| SingleLinkage.SingleLinkage.Round | src/singlelinkage.c:86-149 | A round is one step of the state machine and adds its two records. |
| SingleLinkage.SingleLinkage.Analyze | src/singlelinkage.c:49-154 | -1 and nothing changed for fewer than two leaves; else the state of the run after as many rounds as the first stop allows, with two records for each merge in order; which round that is, and what the records hold, is said in the five rows below. |
| LinkageTree.RoundsFirst | src/singlelinkage.c:146-149 | A run makes at least one merge and stops at the first that meets one of the three stops: as many merges as initial, as many clusters left as final, or one cluster left. |
| LinkageTree.StopsThere | src/singlelinkage.c:146-149 | So it ends with so many merges, clusters and records: with initial alone, after exactly initial merges; with both stops, at the one that comes first. |
| LinkageTree.RunTree | src/singlelinkage.c:86-149 | Throughout a run each cluster is what its merges have put together, each number below the next one is live or was merged exactly once, and each couple and merge carries the identifiers of a leaf on either side that are its key apart. |
| LinkageTree.RecordsAt | src/singlelinkage.c:132-145 | The two records of the k-th merge stand in front of those of the earlier ones: the second number with its identifier, then the first with its, both merged into size + k. |
| LinkageTree.RecordIds | src/singlelinkage.c:66-145 | Every record of a run carries the identifier of a leaf of the number that was merged, so that of a leaf its own, and that number went into a larger one that has all its leaves. |
| SingleLinkage.StopsAtFinal | src/singlelinkage.c:146-149 | With only a final number asked for, the run stops with exactly so many clusters; without, with one; always two records for each cluster less. |
| RbShape.RotationInOrder | src/rbtree.c:77-105 | A rotation keeps the order of the entries. |
| RbFix.Fix1InOrder | src/rbtree.c:113-195 | All five insertion cases keep the entries in order. |
| RbFix.Fix1Colored | src/rbtree.c:113-195 | Started at a red node under a colored tree, they end with a black root and no red node below a red one. |
| RbFix.Fix1Even | src/rbtree.c:113-195 | They keep equal black heights on all paths. |
| RbFix.Del1InOrder | src/rbtree.c:240-347 | All six deletion cases keep the entries in order. |
| RbFix.Del1Colored | src/rbtree.c:240-347 | They end with a black root and no red node below a red one. |
| RbOrder.FindExact | src/rbtree.c:463-480 | In a sorted tree, duplicates included, the descent stops at an entry exactly if one has an equal key. |
| RbOrder.DescendPlace | src/rbtree.c:398-421 | The descent of an insertion ends where all entries before are not greater and all after are greater. |
| RbOrder.InsertionKeeps | src/rbtree.c:391-431 | The entry comes after all equal keys; order, colors and equal black heights are kept. |
| RbOrder.InsertOnlyHeight | src/rbtree.c:391-431 | A tree built by N insertions holds N entries in order, has equal black heights, and its height is at most 2 log2(N + 1). |
| RbOrder.DeletionKeeps | src/rbtree.c:433-461 | Exactly the chosen entry leaves the sequence of (key, attr) pairs, and the colors stay right, for one and for two children. |
| RbOrder.DeletionEven | src/rbtree.c:445-457 | Equal black heights survive a deletion if and only if the node taken out is red, has a child, or is the whole tree; otherwise the skipped fix-up breaks them. |
| RbOrder.UnevenDeletion | src/rbtree.c:445-457 | An even tree of four insertions that is uneven after the deletion of its least entry. |
| RbOrder.CompareOrders | src/rbtree.c:27-31 | The comparison used by default is a total order. |
| RbTree.Neighbours | src/rbtree.c:197-231 | The node at the end of the way up or down in the shape is the neighbour in the in-order sequence, or none at the ends; that the pointer walks end there is stated with the walks below. |
| RbTree.RbTree.RotateLeft | src/rbtree.c:77-90 | Rotates in place; all links, up and down, are those of the rotated tree. |
| RbTree.RbTree.RotateRight | src/rbtree.c:92-105 | Its mirror image. |
| RbTree.RbTree.Replace | src/rbtree.c:63-75 | Hangs one subtree where another was. |
| RbTree.RbTree.Insert1 | src/rbtree.c:113-123 | Insertion case 1 on the linked nodes gives the tree that the case prescribes. |
| RbTree.RbTree.Insert2 | src/rbtree.c:125-134 | Insertion case 2 on the linked nodes gives the tree that the case prescribes. |
| RbTree.RbTree.Insert3 | src/rbtree.c:136-155 | Insertion case 3 on the linked nodes gives the tree that the case prescribes. |
| RbTree.RbTree.Insert4 | src/rbtree.c:157-175 | Insertion case 4 on the linked nodes gives the tree that the case prescribes. |
| RbTree.RbTree.Insert5 | src/rbtree.c:177-195 | Insertion case 5 on the linked nodes gives the tree that the case prescribes. |
| RbTree.RbTree.Delete1 | src/rbtree.c:240-245 | Deletion case 1 on the linked nodes gives the tree that the case prescribes. |
| RbTree.RbTree.Delete2 | src/rbtree.c:247-264 | Deletion case 2 on the linked nodes gives the tree that the case prescribes. |
| RbTree.RbTree.Delete3 | src/rbtree.c:266-282 | Deletion case 3 on the linked nodes gives the tree that the case prescribes. |
| RbTree.RbTree.Delete4 | src/rbtree.c:284-300 | Deletion case 4 on the linked nodes gives the tree that the case prescribes. |
| RbTree.RbTree.Delete5 | src/rbtree.c:302-325 | Deletion case 5 on the linked nodes gives the tree that the case prescribes. |
| RbTree.RbTree.Delete6 | src/rbtree.c:327-347 | Deletion case 6 on the linked nodes gives the tree that the case prescribes. |
| RbTree.RbTree.Insert | src/rbtree.c:391-431 | The tree stays valid (links, parents, count, order, colors), counts one more, and its entry comes after all equal ones. |
| RbTree.RbTree.Overwrite | src/rbtree.c:439-445 | Takes over key and attr of the predecessor. |
| RbTree.RbTree.Unlink | src/rbtree.c:446-458 | Takes a node with at most one child out of the linked tree, with the fix-up where the program makes one. |
| RbTree.RbTree.Substitute | src/rbtree.c:438-446 | A node with two children takes over the predecessor, which is then the one to take out; the memory around it is as the shape says. |
| RbTree.RbTree.DeleteAt | src/rbtree.c:433-461 | The whole deletion at a node gives the tree that it prescribes, one node less. |
| RbTree.RbTree.Delete | src/rbtree.c:433-461 | Any node may be deleted: the tree stays valid, one node is freed, and exactly the entry of the given node leaves the sequence. |
| RbTree.RbTree.Search | src/rbtree.c:463-480 | Finds a node with an equal key exactly if there is one. |
| RbTree.RbTree.Minimum | src/rbtree.c:481-487 | The first node in order, or none. |
| RbTree.RbTree.Maximum | src/rbtree.c:488-494 | The last node in order, or none. |
| RbTree.RbTree.InorderPredecessor | src/rbtree.c:197-213 | The walk up or down ends at the predecessor. |
| RbTree.RbTree.InorderSuccessor | src/rbtree.c:215-231 | The walk up or down ends at the successor. |
| RbTree.RbTree.Predecessor | src/rbtree.c:495-499 | The node one place earlier, or none; so it undoes the successor. |
| RbTree.RbTree.Successor | src/rbtree.c:501-505 | The node one place later, or none. |
| RbTree.RbTree.ForEach | src/rbtree.c:507-517 | Minimum and repeated successor visit every entry once, in order. |
| VcdInteger.DigitsRead | src/vcdiff.c:641-658 | Reading undoes the base-128 form for all integers below 2^32, whatever bytes follow. |
| VcdInteger.ReadInteger | src/vcdiff.c:641-658 | The buffer reader gives the integer at its start, wrapped to 32 bits, and the place after it, or none if the bytes end first. |
| VcdInteger.Port.IntegerRead | src/vcdiff.c:20-40 | The port reader agrees with the buffer reader on every byte string. |
| VcdInteger.Port.ReadByte | src/port.c:176-185 | The next byte, or none at the end. |
| VcdInteger.Port.ReadBytes | src/port.c:187-202 | As many bytes as asked for, an empty reading also at the end; if too few are left they are consumed in vain. |
| VcdForm.IntegerExact | src/vcdiff.c:20-40 | What is read at a place is n up to p exactly if the bytes between are all marked but the last one and n is their value in base 128, most significant first, modulo 2^32; zeros in front and integers too large for 32 bits included. |
| VcdForm.DigitsForm | src/vcdiff.c:641-658 | The printed form of n has the value n in base 128 and no zero in front. |
| VcdForm.OnlyDigits | src/vcdiff.c:641-658 | It is the only integer of that value without a zero in front. |
| VcdForm.StandardExample | src/vcdiff.c:641-658 | 123456789 is BA EF 9A 15, as in section 2 of RFC 3284. |
| VcdCache.CachesHold | src/vcdiff.c:110-140 | After any addresses the near cache holds the latest ones, each in its slot of the ring, and zeros before it is full; each slot of the same cache holds the latest address with its residue. |
| VcdCache.CodedMeant | src/vcdiff.c:161-192 | Decoding undoes coding in every mode, with 32-bit wrap-around. |
| VcdCache.WireRead | src/vcdiff.c:690-715 | The bytes of any value that stands for an address in some mode are read back as that address, whatever follows. |
| VcdCache.ChoiceCoded | src/vcdiff.c:161-192 | The encoder picks a legal coding in a mode that fits a byte: in the same cache exactly if that holds the address, and otherwise with the least value of all modes, as it is, from here and from every near address. |
| VcdCache.SequenceRoundTrip | src/vcdiff.c:161-192 | For any addresses and any cache sizes whose modes fit a byte, the decoder recovers what the encoder coded, and both end with equal caches. |
| VcdCache.Cache.constructor | src/vcdiff.c:110-127 | Both caches start with zeros. |
| VcdCache.Cache.Update | src/vcdiff.c:129-140 | The arrays are updated as the caches on values are. |
| VcdCache.Cache.AddrEncode | src/vcdiff.c:161-192 | The loop over the near cache finds the best coding, and the caches are updated. |
| VcdForm.AddressExact | src/vcdiff.c:690-715 | An address a is decoded at a place up to p exactly if there is an integer v and a is v in mode 0, here - v in mode 1, near[mode - 2] + v in the near modes, modulo 2^32; or one byte b and a is slot 256 * (mode - 2 - |near|) + b of the same cache. |
| VcdForm.ChoiceExact | src/vcdiff.c:161-192 | The encoder picks a value and a mode if and only if they name the slot of the same cache that holds the address, or, when none does, the mode is the first of those that write the least. |
| VcdTable.SinglesThere | src/vcdiff.c:194-262 | Every lone ADD, RUN and COPY in any default mode has an entry; its size follows only where the table has none for it. |
| VcdTable.LoneEntries | src/vcdiff.c:194-248 | Entry 0 is RUN; entry 1 + size is ADD of size up to 17, 0 for a size that follows; entries 19 + 16 * mode onwards are COPY in that mode, of a size that follows and then of 4 to 18. |
| VcdTable.AddCopyEntries | src/vcdiff.c:250-288 | Entry 163 + 12 * mode + 3 * (a - 1) + (c - 4) is ADD a and COPY c in modes up to 5, and entry 235 + 4 * (mode - 6) + (a - 1) is ADD a and COPY 4 in modes 6 to 8. |
| VcdTable.CopyAddEntries | src/vcdiff.c:289-300 | Entry 247 + mode is COPY 4 in that mode and ADD 1. |
| VcdTable.StringLayout | src/vcdiff.c:308-366 | Bytes i, 256 + i, 512 + i, 768 + i, 1024 + i and 1280 + i of a table string are the instructions, sizes and modes of entry i, the first before the second each time. |
| VcdTable.DefaultDistinct | src/vcdiff.c:194-300 | No two of the 256 default entries are the same. |
| VcdTable.StringRoundTrip | src/vcdiff.c:308-366 | A table survives being written as a string and read back, and every string of 1536 bytes is that of one table. |
| VcdTable.EntriesToString | src/vcdiff.c:339-366 | The loops over the six fields write exactly that string. |
| VcdTable.EntriesFromString | src/vcdiff.c:308-335 | The loops over the six fields read exactly that table. |
| VcdScript.InstReads | src/vcdiff.c:717-755 | One instruction, its bytes lying at the cursors, does what it means and passes exactly its bytes. |
| VcdScript.OpReads | src/vcdiff.c:818-837 | An entry acts as its two instructions in order, though both sizes are read before the first is executed. |
| VcdScript.OpsRead | src/vcdiff.c:818-837 | All entries of a window act in order, and its three sections are used up together. |
| VcdScript.WindowReads | src/vcdiff.c:785-838 | A window, copying from source, target or itself, adds the meaning of its script to the target. |
| VcdScript.DecodeReads | src/vcdiff.c:757-840 | With any table: decoding gives exactly the meaning of the scripts that the windows code, one after the other. |
| VcdErrors.ReadFails | src/vcdiff.c:641-658 | An integer is missing exactly if no unmarked byte is left. |
| VcdErrors.AddressFails | src/vcdiff.c:671-715 | An address is missing exactly if its integer or its byte is, or the same cache has no such slot. |
| VcdErrors.ExecutionFails | src/vcdiff.c:717-755 | An instruction fails exactly if its code is above 3, its bytes do not fit the target, the data section is too short, or its address is missing or not in the segment; it never ends exactly if it is else a RUN above 255. |
| VcdErrors.SizeFails | src/vcdiff.c:818-837 | A size is missing exactly if the entry has none for an instruction other than NOOP and no integer follows. |
| VcdErrors.EntryEnds | src/vcdiff.c:818-837 | An entry ends well exactly if both sizes are there and then the first instruction and after it the second one end well. |
| VcdErrors.SegmentFails | src/vcdiff.c:785-815 | A window has no segment exactly if it does not lie in the source, the target or its own part of the target, the bit of the source looked at first. |
| VcdErrors.WindowEnds | src/vcdiff.c:785-838 | A window ends well exactly if it has a segment and its entries, from fresh cursors, end well. |
| VcdEncode.ChoiceMode | src/vcdiff.c:161-192 | With the default cache sizes the encoder stays within the nine modes of the default table. |
| VcdEncode.LoneAllLegal | src/vcdiff.c:194-300 | Every script of ADD, RUN up to 255 and COPY from the source segment or complete target bytes can be coded with the default table, and the coded script has its meaning. |
| VcdEncode.PlainWindowCodes | src/vcdiff.c:757-840 | Any such script of a window is thereby coded in a window that decodes to it. |
| VcdFile.FileReads | src/vcdiff.c:487-575 | Reading undoes printing for every file that fits, compatible or not. |
| VcdFile.FileOf | src/vcdiff.c:487-575 | Whatever is read fits, so printing and reading again gives it back; its code table data are shorter than the file by at least five bytes. |
| VcdForm.OneBitExact | src/vcdiff.c:525-530 | The test of the indicator in compatible mode passes 0 and the eight powers of two, and nothing else. |
| VcdForm.WindowExact | src/vcdiff.c:522-551 | A window is read at a place up to p exactly if its fields lie there one after the other: indicator, length and position of a segment when the indicator has one, then the delta encoding with its three lengths before its three sections. |
| VcdForm.FileExact | src/vcdiff.c:487-575 | A file is read exactly if its bytes are the three magic ones, version, indicator, the identifier and the code table that the indicator announces, and windows to the end; in compatible mode also exactly if the version is 0 and no window indicator has two bits set. |
| VcdReader.CodeTableDataRead | src/vcdiff.c:42-63 | Reads the length and the bytes of a code table, or nothing. |
| VcdReader.DeltaRead | src/vcdiff.c:65-108 | Reads a delta encoding as the bytes at the port hold it, or fails where they end. |
| VcdReader.WindowRead | src/vcdiff.c:523-549 | Reads a window after its indicator; more than one bit set is an error in compatible mode. |
| VcdReader.WindowsRead | src/vcdiff.c:522-555 | Reads windows up to the end of the port; any failure within a window fails the whole. |
| VcdReader.Read | src/vcdiff.c:487-575 | Gives exactly the file that the bytes of the port hold, or none. |
| VcdDecode.TableRoundTrip | src/vcdiff.c:377-430 | Any table survives being coded as a file with one ADD: what the code table data hold is the table they were made from. |
| VcdDecode.TableExact | src/vcdiff.c:377-430 | Data hold a table exactly if they are the sizes of its caches and a compatible file that decodes, from the string of the default entries, to the string of its own. |
| VcdDecode.PrintedDecodes | src/vcdiff.c:757-840 | Reading a printed file and decoding it gives exactly the meaning of its scripts, with the default table or any coded one. |
| VcdDecode.DeclaresAny | src/vcdiff.c:377-430 | Any file may declare any table by the data made from it. |
| VcdPlain.PlainFileDecodes | src/vcdiff.c:757-840 | For any list of possible plain scripts, window after window: reading the printed file and decoding it gives exactly what they mean in order. |
| VcdSample.HelloRead | test/vcdiff/diag_vcdiff_read.c:18-50 | The 29 bytes of hello.vcdiff are read as the file that the test describes. |
| VcdSample.HelloDecodes | test/vcdiff/diag_vcdiff_decode.c:92-93 | That file decodes to the 14 bytes of "hello, world." and a line end, from any source. |
| VcdSample.WholeRead | test/vcdiff/diag_vcdiff_decode.c:94 | The 23 bytes of rfc3284.txt.vcdiff.1 are read as one COPY of 64035 bytes. |
| VcdSample.WholeDecodes | test/vcdiff/diag_vcdiff_decode.c:94 | From any source of 64035 bytes that file gives the source back. |
| VcdSample.PairDecodes | src/vcdiff.c:289-300 | Entry 247 alone, with one data byte, gives any source of four bytes followed by that byte. |
| VcdOverlap.WindowsClear | src/vcdiff.c:780-839 | At every point of a run the target holds zeros from here on. |
| VcdOverlap.CopyOverlap | src/vcdiff.c:742-749 | A COPY of target bytes gives what copying byte by byte gives if and only if the bytes that it would repeat are zero; none are when it ends before here. |
| VcdOverlap.DecodedClear | src/vcdiff.c:757-840 | What a decoded file does not write of its target is zero. |
| VcdAddress.DecodedCaches | src/vcdiff.c:757-840 | A decoded file ends with caches that hold the addresses of all its COPY instructions in order, none forgotten between windows, and with its whole target written. |
| VcdDecode.Decode | src/vcdiff.c:757-852 | The recursion through code tables ends, as each table coded within is strictly shorter; the target is as long as the windows say. |
| VcdMachine.Vm.InstReadSize | src/vcdiff.c:660-669 | A size is read where the entry has none. |
| VcdMachine.Vm.AddrDecode | src/vcdiff.c:690-715 | Gives the address that the coding on values gives, advances as far, and updates the caches. |
| VcdMachine.Vm.Execute | src/vcdiff.c:717-755 | Changes target, cursors and caches exactly as the instruction on values, in every branch and error. |
| VcdMachine.Vm.EntryInst | src/vcdiff.c:818-837 | Executes an entry of the table. |
| VcdMachine.Vm.WindowInsts | src/vcdiff.c:817-837 | Executes entries up to the end of the instructions section. |
| VcdMachine.Vm.Window | src/vcdiff.c:785-838 | Sets the segment and the cursors of a window and executes it. |
| VcdMachine.Vm.AllWindows | src/vcdiff.c:780-839 | Executes all windows into one target. |
| VcdMachine.Vm.Decode | src/vcdiff.c:757-852 | Ends with the target that decoding on values gives, and fails or loops exactly when it does, then without a target. |
| VcdMachine.Vm.TableDecode | src/vcdiff.c:377-430 | Gives the table that the data hold, by running a machine of its own. |
| SelfCopy.MatchAt | src/vcdiff.c:974-990 | The match found, extended backwards and forwards, is true: an earlier place holds the same bytes. |
| SelfCopy.CopiesMaximal | src/vcdiff.c:979-990 | No match of the compression can be extended: after it the data end or differ, and before it the earlier place starts at 0 or the bytes differ. |
| SelfCopy.CopiesFound | src/vcdiff.c:956-1031 | The matches are exactly those of the windows that the searches stop at: each search begins one window before the end of the match before, passes windows that equal no earlier block, and stops at the first that does, whose match lies at the distance of the first such block; after the last match no window repeats. |
| SelfCopy.NoneMissed | src/vcdiff.c:956-1004 | Every window that equals an earlier block lies within some match. |
| SelfCopy.OrderedAll | src/vcdiff.c:991-998 | Ordering keeps every match, each as often as it was found. |
| SelfCopy.CoverMatches | src/vcdiff.c:1033-1064 | The copies of the script are the ordered matches, all of them and in order. |
| SelfCopy.CoverInPlace | src/vcdiff.c:1033-1064 | The literals are exactly the gaps: before the first match, between one and the next, and after the last, each in its place and none empty. |
| SelfCopy.CopyTrue | src/vcdiff.c:908-913 | Copying a true match byte by byte gives the data, also where source and result overlap. |
| SelfCopy.CoverExpands | src/vcdiff.c:877-924 | Literals and true matches that do not overlap expand to the data. |
| SelfCopy.CoverTotal | src/vcdiff.c:884-891 | The instructions add up to the length of the data if and only if the matches do not overlap; otherwise to more. |
| SelfCopy.ContractExpand | src/vcdiff.c:1006-1065 | Expansion undoes compression if and only if the matches, ordered by key, do not overlap. |
| SelfCopy.Overlapping | src/vcdiff.c:956-1004 | With window 2 the data "abbcabc" are not given back. |
| Compression.StoredHash | src/vcdiff.c:965-977 | A stored hash is that of its block, so an equal earlier block is never missed. |
| Compression.SearchBlocks | src/vcdiff.c:964-977 | The loop finds the first earlier block that equals the window, if there is one. |
| Compression.TakeMatch | src/vcdiff.c:979-1000 | Inserts the extended match at its place in the tree and rolls the hash to one window before its end, storing those of the blocks passed. |
| Compression.Lookback | src/vcdiff.c:956-1004 | Takes the first earlier block that equals the window, if there is one; the rolled value and the stored hashes are those of their windows. |
| Compression.FindCopies | src/vcdiff.c:1023-1031 | The tree ends with all matches, in order of their keys. |
| Compression.Contract | src/vcdiff.c:1006-1065 | The whole compression gives the script of literals and matches that is defined on values. |
| Compression.Expand | src/vcdiff.c:877-924 | The loops over one zeroed buffer give the bytes of the script, zeros where nothing was written. |
| ExpandLaws.RunBytes | src/vcdiff.c:907-911 | A RUN writes its byte as often as it says after what is there. |
| ExpandLaws.CopyFromSource | src/vcdiff.c:912-917 | A COPY within a source of its own writes the bytes there. |
| ExpandLaws.CopyFromResult | src/vcdiff.c:912-917 | A COPY from the result writes, as its t-th byte, the one at addr + t, which it may itself have written, or zero if addr is not below what was written. |
| ExpandLaws.ExpandedNames | src/vcdiff.c:877-924 | For any script: every byte of the result is the one that its instruction names, those of an instruction right after those of the instructions before it. |
| ExpandLaws.WrittenLength | src/vcdiff.c:901-922 | Each instruction writes what its kind says, a NOOP nothing. |
| ExpandLaws.AllKept | src/vcdiff.c:884-892 | The result is as long as all sizes together, and zero after what was written. |
| Compression.ScriptReadable | src/vcdiff.c:1006-1065 | The copies of a compressed script never read outside the result. |
| RollingHash.HashStep | src/hash.c:14-29 | One step of the hash modulo 2^32 appends a byte to its polynomial. |
| RollingHash.RollStep | src/hash.c:92-107 | One roll takes the first byte out of the polynomial and the next one in, modulo 2^32. |
| RollingHash.HashRabinKarp | src/hash.c:14-29 | The loop computes the polynomial of the bytes modulo 2^32. |
| RollingHash.RollingHash.Init | src/hash.c:75-90 | The value is the direct hash of the first window. |
| RollingHash.RollingHash.Roll | src/hash.c:92-107 | The value is the direct hash of the next window. |
| RollingHash.RollingHash.Collect | src/hash.c:150-167 | The array holds the direct hash of every window. |
| Levenshtein.NoCheaper | src/levenshtein.c:16-65 | No script of inserts, deletes and replacements costs less than the distance. |
| Levenshtein.Achieved | src/levenshtein.c:16-65 | Some script costs just the distance. |
| Levenshtein.Symmetric | src/levenshtein.c:33-40 | The distance is symmetric, which the exchange of arguments relies on. |
| Levenshtein.ZeroIsEqual | src/levenshtein.c:16-65 | It is zero exactly for equal strings. |
| Levenshtein.Triangle | src/levenshtein.c:16-65 | It satisfies the triangle inequality. |
| Levenshtein.LengthBound | src/levenshtein.c:79-81 | It lies between the difference and the sum of the lengths. |
| Levenshtein.TrimFirst | src/levenshtein.c:27-28 | A common first character does not count. |
| Levenshtein.TrimLast | src/levenshtein.c:41-42 | A common last character does not count. |
| Levenshtein.NextRow | src/levenshtein.c:47-58 | Computes a row of distances of prefixes from the one above. |
| Levenshtein.LevenshteinChars | src/levenshtein.c:16-65 | The trimmed, exchanged, two-row program computes the distance of its arguments. |
| Levenshtein.ELevenshteinChars | src/levenshtein.c:67-84 | With e > 0 the distance if it is below e, else -1; with e = 0 always -1; with e < 0 zero for one and the same object, else -1. |
| Grouping.LinkGrouped | src/diag-line.c:115-121 | Linking the roots of a near pair keeps the forest acyclic, groups exactly the pairs seen so far, and marks exactly the entries that share a group. |
| Grouping.AllSeen | src/diag-line.c:109-123 | Once all pairs are seen, roots are equal exactly for entries joined by a chain of near pairs, and marked are exactly those in groups of two or more. |
| Grouping.FindRoot | src/diag-line.c:110-114 | Parent links end at the root. |
| Grouping.LinkRow | src/diag-line.c:109-122 | The inner loop, which follows the changing root of its row, keeps all this. |
| Grouping.SingleLink | src/diag-line.c:97-124 | No arrays for no entries; else an acyclic forest whose roots are equal exactly for joined entries, the marks of groups of two or more, and the links that the pairs make one after the other. |
| GroupingLinks.LinksUpward | src/diag-line.c:115-121 | Every link comes from a near pair: the lower entry of the pair is within what was linked, and the higher one is within its parent and not within it. |
| GroupingLinks.FirstChain | src/diag-line.c:107-122 | The first entry hangs below the first entry near it, that one below the next one near the first entry, and so on. |
| Grouping.DisplayGroupMembers | src/diag-line.c:209-223 | The recursion ends and shows every entry below a root exactly once, and nothing else; a lower child and all below it come before a higher one, and an entry before all below it. |
| Grouping.PrecedesOnce | src/diag-line.c:209-242 | That order never goes both ways, so it determines the sequence. |
| Grouping.PrintedOrder | src/diag-line.c:209-242 | Of two printed entries the first does not hang below the second, and of two roots, or two children of one parent, the lower one and all below it are printed first. |
| Grouping.DisplayGroups | src/diag-line.c:225-242 | Every member of a shown group appears exactly once, no other entry does; entries are in the order of the rows above, groups by their roots; an empty line separates two entries exactly if their groups differ, stands alone between two entries, and there is one less than groups. |
| QSelect.RankOfMultiset | src/qselect.c:44-75 | Ranks depend only on which elements there are, not on their order. |
| QSelect.RankKept | src/qselect.c:44-75 | For an element kept, what a partition leaves out is all below it, or all above it. |
| QSelect.PlacingEnough | src/qselect.c:46-53 | The scan for j never runs out. |
| QSelect.StandsOn | src/qselect.c:55-58 | The compacted window still stands for the whole: its elements have the ranks they had, moved by what was left out. |
| QSelect.PivotRank | src/qselect.c:44-75 | In the middle case the pivot has the rank asked for. |
| QSelect.Compare | src/qselect.c:34-43 | The signs are stored, and their counts are the sizes of the two parts. |
| QSelect.Compact | src/qselect.c:44-59 | Overwriting leaves, right after the pivot, exactly the elements to be kept, as a multiset. |
| QSelect.Partition | src/qselect.c:30-75 | One partition gives a window that still stands for the whole at the rank looked for, and is smaller, or the element itself. |
| QSelect.Select | src/qselect.c:12-80 | None exactly if k is not below the length, and then nothing changed; else an element of the original array with at most k elements greater and more than k not less. |
| Cycle.CycleFound | src/diag-cycle.c:184-225 | Once an output equals the k-th of n different ones, two outputs of the endless orbit are equal exactly if the earlier one is not before the k-th and they are a multiple of n - k apart: k and n - k are the least start and the least period. |
| Cycle.FiniteEnds | src/diag-cycle.c:141-225 | The search ends whenever the outputs are finitely many, within as many runs. |
| Cycle.NotYetEnded | src/diag-cycle.c:141-225 | The different outputs stored are no more than any bound within which the search ends. |
| Cycle.IndexedMore | src/diag-cycle.c:184-225 | Filing an output keeps every bucket the ordered list of the indices with its hash, collisions included. |
| Cycle.NewOutput | src/diag-cycle.c:191-221 | An output that differs from all of its bucket differs from all outputs stored. |
| Cycle.Search.FindOrInsert | src/diag-cycle.c:47-61 | Gives the bucket of a hash, or makes a new one. |
| Cycle.Search.Compare | src/diag-cycle.c:191-221 | Finds an index in the bucket with the same output exactly if there is one. |
| Cycle.Search.Run | src/diag-cycle.c:141-225 | Stops at the first output that was there before, with its period and start, or when the command fails; until then all outputs stored are different. |

## Left out

- Commands, options, printing, files, processes and memory management; output is a sequence, and a port is a sequence of bytes in memory.
- Cycle: mapping, hashing or comparing a file may fail, and output files are removed at the end; the command is a function on contents that may fail, and the tree of buckets is a map.
- Lcs: the set of allocated pairs, which only serves to free them; lengths beyond the range of int.
- SingleLinkage.SingleLinkage.Merge: the two red-black trees are used by their contract, the table as an ordered sequence and the helper as a set under the comparison; node identity and freeing are in RbTree only.
- Compression.Contract: the tree is used by its contract as an ordered sequence, with places instead of node pointers.
- VcdMachine.Vm.Decode: sums of sizes and positions are unbounded, so their 32-bit wrap-around is not modelled; `here` and addresses do wrap.
- VcdMachine.Vm.TableDecode: an error in code table data is a plain failure; the code jumps to an environment that is not set yet at that point (src/vcdiff.c:386-420).
- LinkageRun.SuitsExact: a comparison that is suitable for fewer metrics than all; the condition is for every metric, so a single metric may come out right without it.
- VcdMachine.Vm.RunInst: the endless loop of a RUN above 255 is an outcome, and its writes are not modelled.
- VcdCache.SequenceRoundTrip: cache sizes whose modes exceed a byte; the encoder is disabled in the source and would not fit them.
- VcdPlain.PlainFileDecodes: choosing paired entries; any legal use of them is covered by VcdScript.DecodeReads.
- Secondary compressors, which the code reads the identifier of and never applies.
- 64-bit and Adler hashes of src/hash.c, which are the same loops with other constants.
- Levenshtein.LevenshteinChars: strings are sequences of characters without the terminating zero; the 32-bit loop counters are not modelled.
- Grouping.SingleLink: the marks are always kept, where the code makes them only on request; the metric is a function of the two indices.
- QSelect.Compact: the two loops of the source, alike but for the sign, are one method; elements are integers under any total preorder, and their size in bytes is left out.
- SelfCopy.ContractExpand: the size check for wrap-around of the total (src/vcdiff.c:888-890), which data in memory cannot meet, and unknown instructions.
- src/trie.c, whose root state is also its mark for an unset slot, and src/hashtable.c, which is a stub.
- src/diag-file.c, src/diag-enc.c, src/diag-uniq.c and the floating-point commands.
- Vectors, sets, pairs, lists, deques and small metrics: sequences and sets stand for them.
