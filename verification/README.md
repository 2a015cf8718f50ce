# Binary image database — a verified model

The system stores grey-scale PGM images as binarized, run-length encoded
versions: one version per threshold. It comes in two generations.

- **T1** keeps a flat index file (`image_index.dat`) of fixed-size records.
  Each record holds a name, a threshold, an offset and size in the data file,
  the dimensions, and a `removed` flag. The compressed payloads are appended
  to `image_data.dat`. Removal only sets the flag, and compaction rewrites
  both files without the removed records. Reconstruction averages every live
  version of a name back into a grey-scale image.
- **T2** indexes the same data file with a disk-resident B-tree of order 3.
  Its pages are fixed-size records in `btree.dat`, addressed by byte offset
  and behind a header `{root_offset, free_offset, node_count}`. Keys are
  ordered by `(name, threshold)`: `strcmp` on the name, then threshold
  subtraction. Compaction walks the tree and copies every payload a key
  points at into a fresh data file, rewriting each key's `data_offset`.

The codec stores the first pixel as a byte, then run lengths of 1..255. A run
that reaches 255 is cut and a new run of the same value starts. The decoder
toggles the current value with C's `!` after every run.

The model has these modules, one per file:

| module | file | flavour |
|---|---|---|
| `Wrappers` | `wrappers.dfy` | the `Option` type |
| `Bytes` | `bytes.dfy` | bytes, and reading a blob out of a data file given as a byte sequence (`fseek` + `fread`) |
| `BTreeNode` | `btree_node.dfy` | keys and pages as values; the loops of `btree.c` that shift keys and children inside an in-memory page, as loop methods |
| `BTree` | `btree.dfy` | class `BTreeFile` (see below) |
| `Rle` | `rle.dfy` | class `PgmImage` over a row-major pixel `array`; the encoder and decoder as loop methods proved against specification functions |
| `FlatStore` | `flat_store.dfy` | class `FlatDatabase`: the T1 index file (`seq` of records) and data file (`seq` of bytes) |
| `Reconstruction` | `reconstruction.dfy` | T1 averaging over a growable `array` of versions |
| `ImageStore` | `image_store.dfy` | class `ImageDatabase`: T2's data file plus a `BTreeFile`, with add, retrieve and compaction |

`BTreeFile` has these fields:

- `pages`: the page file, a map from offsets to pages;
- `rootOffset`, `freeOffset`, `nodeCount`: the header;
- `root`: the cached root copy;
- `height`: a ghost level per page.

Pages are never freed and offsets are never reused, so a page's level never
changes. This makes every recursive walk terminate on any tree the code
builds, including trees where a split leaves one page reachable from two
parents, or a page with 0 keys.

## Model

| member | source | states |
|---|---|---|
| `BTreeNode.EmptyPage` | T2/btree.c:51-71 | a fresh page is well formed, has 0 keys, the requested leaf flag and its own offset, and every child slot is -1 |
| `BTreeNode.TruncateName` | T2/btree.c:223-226 | the stored name is the first min(\|name\|, 49) characters of the given name, as `strncpy` with `MAX_NAME_LEN - 1` does |
| `BTreeNode.StrCmp` | T2/btree.c:113-116 | the result is -1, 0 or 1, and it is 0 exactly when the names are equal |
| `BTreeNode.StrCmpOrder` | T2/btree.c:113-116 | `strcmp` is negative exactly when the first name is lexicographically smaller (a proper prefix is smaller), and positive exactly when it is larger |
| `BTreeNode.StrCmpFlip` | T2/btree.c:113-116 | swapping the arguments negates the comparison |
| `BTreeNode.CompareKeys` | T2/btree.c:113-116 | two keys compare equal exactly when they have the same name and the same threshold |
| `BTreeNode.CompareKeysOrder` | T2/btree.c:113-116 | a key is smaller exactly when its name is lexicographically smaller, or the names are equal and its threshold is lower (larger: symmetric) |
| `BTreeNode.CompareKeysFlip` | T2/btree.c:113-116 | the key order is antisymmetric |
| `BTreeNode.FindKeyIndex` | T2/btree.c:285-291 | the index is the first live slot whose key is not below the searched key: every key before it is smaller |
| `BTreeNode.InsertAtAscending` | T2/btree.c:148-156 | inserting a key between its predecessor and its successor keeps a sorted key sequence sorted |
| `BTreeNode.LeafInsert` | T2/btree.c:148-156 | the shifting loop inserts the key at the position after all keys not above it; the live keys are the old ones with the key spliced in, so the count grows by one and a sorted page stays sorted |
| `BTreeNode.SplitNodes` | T2/btree.c:182-217 | splitting a full child: the child keeps MIN_KEYS keys, the sibling receives keys[1..] and, for an internal child, children[1..]; the parent gains the child's middle key at `index` and the sibling's offset after the child, with the other keys and children shifted up by one |
| `BTreeNode.CopyFrom` | T2/btree.c:188-196 | the copy loop puts src[from..from+count] into the first count slots and leaves the rest |
| `BTreeNode.OpenSlot` | T2/btree.c:200-210 | the shifting loop moves slots at..count-1 up by one and leaves slots up to `at` unchanged |
| `BTreeNode.ShiftedUp` | T2/btree.c:200-210 | a shifted-up sequence with x written at the opened slot is the original with x inserted there |
| `BTreeNode.LeafRemove` | T2/btree.c:299-303 | the live keys are the old ones without the key at idx, and nothing else of the page changes |
| `BTreeNode.BorrowFromPrevNodes` | T2/btree.c:427-445 | the separator moves down to the front of the child, the left sibling's last key replaces it, and the left sibling's last child moves to the child's front; the in-order sequence left + separator + child is unchanged |
| `BTreeNode.BorrowFromNextNodes` | T2/btree.c:464-483 | the separator moves to the end of the child, the right sibling's first key replaces it, and the sibling's first child moves over; the in-order sequence child + separator + right is unchanged |
| `BTreeNode.MergeNodes` | T2/btree.c:502-523 | the child becomes child + separator + right sibling (keys and children); the parent loses the separator and the sibling's child slot |
| `BTree.ChildPage` | T2/btree.c:145-177 | a live child of a page at level h is a page in the file at level h - 1 whose self offset is the child slot |
| `BTree.WalkFromContains` | T2/btree.c:575-592 | every key of every subtree from slot i on, and every separator key from slot i on, appears in the in-order walk from i |
| `BTree.WalkFromEnds` | T2/btree.c:575-592 | the in-order walk from any slot ends with the walk of the last child |
| `BTree.RightmostLeaf` | T2/btree.c:343-359 | following the last child from any page reaches a leaf |
| `BTree.LeftmostLeaf` | T2/btree.c:364-380 | following child 0 from any page reaches a leaf |
| `BTree.RightmostLeafIsLast` | T2/btree.c:343-359 | the last key of the rightmost leaf, when it has one, is the last key of the subtree's in-order walk |
| `BTree.LeftmostLeafIsFirst` | T2/btree.c:364-380 | the first key of the leftmost leaf, when it has one, is the first key of the subtree's in-order walk |
| `BTree.FirstNotBelow` | T2/btree.c:544-547 | the scan position stays within the page's live keys |
| `BTree.ScanPage` | T2/btree.c:544-547 | the loop of btree_search stops at the first live key that is not below the search key |
| `BTree.LookupStops` | T2/btree.c:536-564 | the search succeeds at a page exactly when the key at the scan position compares equal, and fails at a leaf otherwise |
| `BTree.LookupDescends` | T2/btree.c:536-564 | otherwise, at an internal page the search result is the search in the child at the scan position |
| `BTree.LookupSound` | T2/btree.c:536-564 | a found key compares equal to the search key (same name and threshold) and is one of the keys of the tree's in-order walk |
| `BTree.SearchKey` | T2/btree.c:538-541 | the search key carries the truncated name and the threshold |
| `BTree.SplitFits` | T2/btree.c:182-217 | after a split the parent, the child and the new sibling all sit at their levels with live children one level down |
| `BTree.BorrowPrevFits` | T2/btree.c:422-454 | borrowing from the left keeps the child at its level |
| `BTree.BorrowNextFits` | T2/btree.c:459-492 | borrowing from the right keeps both child and sibling at their level |
| `BTree.MergeFits` | T2/btree.c:497-531 | a merge keeps the merged child and the parent at their levels |
| `BTree.BTreeFile.Init` | T2/btree.c:29-46 | a new file holds one empty leaf page at offset 0, which is the root; the next free offset is just past it and the page count is 1 |
| `BTree.BTreeFile.CreateNode` | T2/btree.c:51-71 | a page is allocated at the old free offset, which was not in use; the free offset advances by one page size, the page count grows by one, and the new page is empty with the requested leaf flag |
| `BTree.BTreeFile.SplitChild` | T2/btree.c:182-217 | exactly the parent, the child and a freshly allocated sibling are rewritten and the file stays well formed; the child keeps MIN_KEYS keys, the sibling holds the child's keys from slot 1 and, for an internal child, its children from slot 1; the parent gains the child's middle key at `index`, and its live children are the old ones with the sibling's offset inserted after the child; the cached root is not updated |
| `BTree.BTreeFile.InsertIntoLeaf` | T2/btree.c:148-156 | exactly the leaf's page is rewritten; its live keys are the old ones with the key spliced in at some position, and a sorted leaf stays sorted |
| `BTree.BTreeFile.DescendFor` | T2/btree.c:157-172 | the chosen slot is the one the key belongs under in the returned page copy (not below the key before it, not above the key at it, below every later key), and that child is not full; a full child was split first; pages at the node's level or above, other than the node's own page, are unchanged, and the node's page holds the returned copy whenever it held `node` |
| `BTree.BTreeFile.InsertNonFull` | T2/btree.c:145-177 | the key is in the in-order walk of the returned page copy, and that copy is the page's content whenever `node` was; pages at the node's level or above, other than its own, are unchanged; at a leaf exactly that page is rewritten with the key spliced into its live keys, keeping a sorted leaf sorted |
| `BTree.RaisedSlot` | T2/btree.c:166-172 | after a split raises a key into slot i, the key belongs under slot i when it does not compare above the raised key and under slot i + 1 when it does |
| `BTree.KeyInChildWalk` | T2/btree.c:575-592 | a key in the in-order walk of any live child of a page is in the in-order walk of the page |
| `BTree.BTreeFile.Insert` | T2/btree.c:121-140 | the key is in the in-order walk from the new cached root; when the root is full, a new root one level higher is allocated at the old free offset with the old root as child 0 and becomes the root page's content; otherwise the root offset is kept, and the cached root is the root page's content whenever it was before |
| `BTree.BTreeFile.Search` | T2/btree.c:536-564 | the result is the specified lookup from the cached root; a found key has the requested (truncated) name and threshold and is in the tree |
| `BTree.BTreeFile.Descend` | T2/btree.c:542-563 | the page-by-page descent computes the specified lookup |
| `BTree.BTreeFile.InOrder` | T2/btree.c:575-592 | the recursive traversal yields exactly the in-order walk of the subtree |
| `BTree.BTreeFile.RemoveFromLeaf` | T2/btree.c:296-306 | only the leaf page is rewritten, and its live keys are the old ones without the key at idx |
| `BTree.BTreeFile.GetPredecessor` | T2/btree.c:343-359 | the result is the last key of the rightmost leaf under child idx, which is the last key of that subtree's in-order walk; a leaf with no keys is a fault |
| `BTree.BTreeFile.GetSuccessor` | T2/btree.c:364-380 | the result is slot 0 of the leftmost leaf under child idx + 1, which is the first key of that subtree's in-order walk when the leaf has keys |
| `BTree.BTreeFile.BorrowFromPrev` | T2/btree.c:422-454 | exactly parent, child and left sibling are rewritten; the child gains a key and the sibling loses one while the in-order sequence of the three is preserved |
| `BTree.BTreeFile.BorrowFromNext` | T2/btree.c:459-492 | exactly parent, child and right sibling are rewritten; the child gains a key and the sibling loses one while the in-order sequence of the three is preserved |
| `BTree.BTreeFile.Merge` | T2/btree.c:497-531 | exactly parent and child are rewritten; the child's keys become child + separator + right sibling and the parent loses the separator |
| `BTree.BTreeFile.WriteSplit` | T2/btree.c:188-216 | once the sibling page is allocated, exactly the parent, the child and the sibling are rewritten: the child keeps MIN_KEYS keys, the sibling holds the child's keys and (internal) children from slot 1, and the parent gains the child's middle key at `index` and the sibling after the child; the header is untouched |
| `BTree.BTreeFile.SplitFor` | T2/btree.c:166-172 | the full child at the key's slot is split, the page gains one key and keeps its first child, and the returned slot is the one the key belongs under, whose child is no longer full; pages at the page's level or above, other than its own, are unchanged |
| `BTree.BTreeFile.GrowRoot` | T2/btree.c:122-132 | a full root is replaced by a new internal root, allocated at the old free offset one level higher, holding one key with the old root as child 0; the cached root is that page |
| `BTree.BTreeFile.FillChild` | T2/btree.c:385-417 | the refill succeeds except when idx is 0 and the parent has no keys (a merge at index -1 in the source), and then nothing changes; only the parent and its children are rewritten; on a parent sharing no page the in-order walk is unchanged and stays unshared, the child now at the returned slot (idx, or idx - 1 after merging into the left sibling) has no empty leaf if there was none before, and in an ascending walk that slot still separates every key slot idx separated |
| `BTree.BTreeFile.MergeSiblings` | T2/btree.c:410-414 | with neither sibling able to lend, the child is merged with its right sibling, or into its left one when it is the last child; the same walk, sharing, empty-leaf and separation guarantees as FillChild |
| `BTree.BTreeFile.DeleteRecursive` | T2/btree.c:243-280 | no page is added or removed and pages outside the subtree are untouched; a leaf never faults and a key missing from a leaf changes nothing; NotFound on an unshared subtree leaves its walk unchanged, and on an unshared ascending subtree means the key's tag was not in the walk; Removed on an unshared ascending subtree without empty leaves means the walk lost exactly one occurrence of the key's tag |
| `BTree.BTreeFile.DeleteInLeaf` | T2/btree.c:245-260 | at a leaf: never a fault; NotFound changes nothing and on an ascending leaf means the key is absent; Removed rewrites only the leaf and loses exactly the key's tag |
| `BTree.BTreeFile.DescendAndDelete` | T2/btree.c:262-279 | at an internal page not holding the key: the deletion continues in the child the key belongs under, with the same NotFound and Removed guarantees as DeleteRecursive |
| `BTree.BTreeFile.FillAndLocate` | T2/btree.c:262-275 | the child is refilled when short and the slot is found again; the walk and the absence of sharing are kept, and on an ordered subtree the key's tag is in the page's walk exactly when it is in the chosen child's, which is ascending and (without empty leaves before) has none |
| `BTree.BTreeFile.RemoveFromNonLeaf` | T2/btree.c:311-338 | the key is always reported as present (removed or faulted); pages outside the subtree are untouched and no sharing appears; Removed on an unshared ascending subtree without empty leaves means the walk lost exactly one occurrence of the tag of the key at idx |
| `BTree.BTreeFile.RemoveWithPredecessor` | T2/btree.c:317-321 | the key at idx is replaced by its predecessor, which is deleted from child idx; the same guarantees as RemoveFromNonLeaf |
| `BTree.BTreeFile.RemoveWithSuccessor` | T2/btree.c:323-329 | the key at idx is replaced by its successor, which is deleted from child idx + 1; the same guarantees as RemoveFromNonLeaf |
| `BTree.BTreeFile.RemoveByMerge` | T2/btree.c:330-332 | both children are short: they are merged around the key, which is deleted from the merged child; the same guarantees as RemoveFromNonLeaf |
| `BTree.BTreeFile.MergeAround` | T2/btree.c:330 | after the merge the merged child is still at slot idx; on an ordered subtree the walk is unchanged and the merged child is ascending and holds the key's tag, and it has no empty leaf if there was none before |
| `BTree.BTreeFile.ReplaceAndDescend` | T2/btree.c:318-321 | the key at idx is overwritten with `k` and `k` deleted from child i; on an ordered subtree a `k` present in that child is never NotFound, and Removed loses exactly the old key's tag |
| `BTree.BTreeFile.WriteSlot` | T2/btree.c:319-320 | exactly key slot idx of the page is overwritten and the page written back |
| `BTree.BTreeFile.DeleteInChild` | T2/btree.c:321 | the recursive call on child i does not write the page itself; NotFound on an unshared page keeps its walk and means the key was absent from an ascending child; Removed loses exactly the key's tag from the page's walk |
| `BTree.BTreeFile.Delete` | T2/btree.c:222-238 | the file stays well formed; when a removal empties an internal root, child 0 becomes the root, otherwise the root is kept; NotFound on an unshared tree keeps the walk and, on an ordered tree, means the key was absent; Removed on an ordered tree without empty leaves, with a current cached root, removes exactly one occurrence of the key's tag |
| `BTreeNode.CloseSlot` | T2/btree.c:299-301 | the shifting-down loop moves slots at+1..count-1 down by one and leaves the slots before `at` and from count - 1 on unchanged |
| `BTree.KeysAscending` | T2/btree.c:285-291 | a page whose in-order walk is ascending holds its live keys in ascending order |
| `BTree.ChildAscending` | T2/btree.c:575-592 | every child of a page with an ascending walk has an ascending walk |
| `BTree.SlotSeparates` | T2/btree.c:285-291 | on ascending keys, the slot btree_find_key_index returns for a key the page does not hold separates that key |
| `BTree.SeparatesSlot` | T2/btree.c:285-291 | btree_find_key_index returns exactly the separating slot |
| `BTree.SeparatesAbsent` | T2/btree.c:247 | a key separated by a slot is not among the page's live keys |
| `BTree.SeparatedChild` | T2/btree.c:262-276 | in an ascending walk, a key separated by slot i is in the page's walk exactly when it is in child i's walk |
| `BTree.DropTags` | T2/btree.c:296-306 | dropping the slot holding the key loses exactly that key's tag from the live keys |
| `BTree.StepDown` | T2/btree.c:276 | rewriting child i inside its own subtree leaves the parent page as it was and unshared, and changes the parent's walk exactly as the child's walk changes |
| `BTree.KeyWrite` | T2/btree.c:319-320 | overwriting key slot idx keeps the subtree and trades the old key's tag for the new one in the walk |
| `BTree.SuccessorInChild` | T2/btree.c:364-380 | without empty leaves, the key btree_get_successor returns is in the walk of child idx + 1 |
| `BTree.LeftmostFilled` | T2/btree.c:369-379 | without empty leaves, the leaf reached through children[0] holds keys |
| `BTree.LoneChild` | T2/btree.c:229-233 | the walk of an internal page with no keys is the walk of its only child |
| `BTree.PairKeeps` | T2/btree.c:422-492 | rewriting the two children around a separator so that left + separator + right reads the same keeps the parent's walk, and the parent stays unshared and reaches no new page |
| `BTree.MergeKeeps` | T2/btree.c:497-531 | merging child j with the separator and child j + 1 keeps the parent's walk, and the parent stays unshared and reaches no new page |
| `BTree.BorrowPrevKeeps` | T2/btree.c:422-454 | borrowing from the left keeps the walk of an unshared parent, keeps the filled child free of empty leaves, and its slot still separates the keys it separated |
| `BTree.BorrowNextKeeps` | T2/btree.c:459-492 | the same for borrowing from the right |
| `BTree.MergeArenaKeeps` | T2/btree.c:497-531 | the same for a merge; the merged child's slot separates every key either old slot separated |
| `BTree.FilledNoEmpty` | T2/btree.c:385-417 | a page holding keys whose subtree is unchanged from one without empty leaves has no empty leaf |
| `BTree.KeyTagInWalk` | T2/btree.c:575-592 | every live key of a page is in its walk |
| `BTree.TagsAllUpdate` | T2/btree.c:575-592 | replacing one child's walk changes the tags of the page's walks by exactly that walk's difference |
| `BTree.ChildSplit` | T2/btree.c:575-592 | a page's walk is the part before child i, child i's walk and the part after; key i - 1 ends the first part and key i starts the last |
| `Bytes.ReadBlob` | T2/image.c:363-364 | reading size bytes at an offset yields exactly those bytes of the file when they are inside it |
| `Bytes.BlobExtend` | T2/image.c:232-233 | appending to the data file does not change a blob already stored in it |
| `Bytes.BlobShift` | T2/image.c:232-233 | a blob appended at the end of the file is read back from the old end offset |
| `Rle.ThresholdedIsBinary` | T1/image_processing.c:112-119 | a thresholded image has the same size and is binary, with 1 exactly where the pixel was above the threshold |
| `Rle.ThresholdBinaryAtZero` | T2/image.c:110-117 | binarizing a binary image at threshold 0 leaves it unchanged |
| `Rle.NegatedTwice` | T1/image_processing.c:124-130 | taking the negative twice restores the image |
| `Rle.NegatedInRange` | T1/image_processing.c:124-130 | a negative keeps pixels inside [0, max_gray] |
| `Rle.PgmImage.constructor` | T1/image_processing.c:11-82 | a fresh image with the given dimensions, maximum grey and row-major pixels |
| `Rle.PgmImage.FromPixels` | T2/image.c:374-386 | an image wrapped around an existing decoded pixel matrix |
| `Rle.PgmImage.Binarize` | T2/image.c:110-117 | the pixels become the thresholded image in place and max_gray becomes 1 |
| `Rle.PgmImage.Negate` | T1/image_processing.c:124-130 | the pixels become max_gray minus the old pixels |
| `Rle.CountSumConcat` | T1/image_processing.c:152-179 | the run total of two count sequences is the sum of their totals |
| `Rle.RunsFromCounts` | T1/image_processing.c:152-179 | every emitted count is in 1..255, the counts add up to the pending run plus the remaining pixels, and there is at most one count per pixel |
| `Rle.CompressShape` | T2/image.c:137-163 | the output starts with the first pixel as a byte, its counts are in 1..255 and add up to width * height, and its size is at most 2 * width * height (the buffer the source allocates) |
| `Rle.CompressRle` | T2/image.c:137-163 | the nested row loops produce exactly the specified encoding of the row-major pixels |
| `Rle.EncodeRow` | T2/image.c:149-157 | one row of the encoder extends the pending run or emits its count, keeping emitted + remaining-encoding equal to the whole encoding |
| `Rle.RunsFromStep` | T1/image_processing.c:164-172 | one pixel step of the encoder: equal and below 255 extends the run, anything else emits the count and starts a run |
| `Rle.DecodeLength` | T1/image_processing.c:184-219 | the decoder writes at most n pixels |
| `Rle.DecompressRle` | T2/image.c:168-200 | a fresh width x height matrix whose leading cells are exactly the specified decoding; cells after the data runs out are left unwritten |
| `Rle.DecodeRow` | T2/image.c:186-196 | one row of the decoder keeps written + remaining-decoding equal to the whole decoding |
| `Rle.DecodeStep` | T2/image.c:187-195 | one pixel step of the decoder: read a count when none is pending, write the current value, toggle after the last pixel of a run |
| `Rle.DecodePending` | T2/image.c:168-200 | on positive counts, decoding is the expansion of the counts into alternating runs, cut at n pixels |
| `Rle.PositiveTail` | T2/image.c:187-195 | expanding positive counts is the first run followed by the expansion of the rest with the value toggled |
| `Rle.DecodeNegative` | T2/image.c:191-195 | once the pending count is negative, the current value fills every remaining pixel |
| `Rle.ZeroCountFills` | T1/image_processing.c:184-219 | a zero first count makes the decoder fill the whole image with the first value |
| `Rle.NoLongRunSuffix` | T1/image_processing.c:152-179 | a suffix of an image without a 256-pixel run has none either |
| `Rle.FullRunBreaks` | T1/image_processing.c:166-172 | in an image without 256-pixel runs, a run cut at 255 is followed by the other value |
| `Rle.ExpandRuns` | T1/image_processing.c:152-219 | expanding the counts the encoder emits for the rest of a binary image restores that rest |
| `Rle.RoundTrip` | T2/image.c:137-200 | decoding the encoding of a binary image without a 256-pixel run of equal values restores the image |
| `Rle.RunsFromRepeat` | T1/image_processing.c:164-172 | equal pixels extend a pending run until it reaches 255 |
| `Rle.LongRunCompress` | T2/image.c:150-155 | 256 zero pixels encode as [0, 255, 1]: the second run starts with the same value |
| `Rle.LongRunDecode` | T2/image.c:191-195 | [0, 255, 1] decodes to 255 zeros followed by a one, because the decoder toggles after every run |
| `Rle.LongRunBreaksRoundTrip` | T2/image.c:137-200 | an all-zero image with 256 pixels does not survive the round trip |
| `FlatStore.FindLive` | T1/database.c:108-118 | the first live record with the name and threshold; none when there is no such record |
| `FlatStore.FindLiveIsFirst` | T1/database.c:191-195 | whenever some record matches, the search finds one at or before it |
| `FlatStore.KeptCount` | T1/database.c:143-177 | the records kept by compaction are live and as many as the live count |
| `FlatStore.CountLiveAppend` | T1/database.c:21-73 | appending a live record adds one to the live count |
| `FlatStore.CountLiveMark` | T1/database.c:100-122 | marking one live record removed lowers the live count by one |
| `FlatStore.MarkRemovedEffect` | T1/database.c:100-122 | removal flags exactly the first live match, leaves every other record and the file length as they were, and lowers the live count by one; without a match nothing changes |
| `FlatStore.CompactedShape` | T1/database.c:128-178 | compaction keeps the live records in order, each re-pointed at the sum of the sizes before it, and the new data file is exactly as long as those sizes |
| `FlatStore.CompactedPayloads` | T1/database.c:143-177 | every kept record reads back from the new data file the same payload it had in the old one |
| `FlatStore.KeptOk` | T1/database.c:143-177 | kept records still point inside the data file |
| `FlatStore.CompactedValid` | T1/database.c:128-178 | after compaction every record points at a payload inside the new data file |
| `FlatStore.ReadAheadReturnsNext` | T1/database.c:191-198 | with records A then B, a request for A decodes B, which does not match the request |
| `FlatStore.RetrievedRecordIsMatch` | T1/database.c:191-198 | the decoded record is the one after the first live match, unless that match is the last record |
| `FlatStore.FlatDatabase.constructor` | T1/database.c:10-15 | a new database has an empty index and an empty data file |
| `FlatStore.FlatDatabase.AddImage` | T1/database.c:21-73 | the binarized, compressed image is appended to the data file, and one live record for it (truncated name, threshold, old file end, payload size, dimensions, max_gray 1) is appended to the index |
| `FlatStore.FlatDatabase.ListImages` | T1/database.c:78-95 | the count printed is the number of live records |
| `FlatStore.FlatDatabase.RemoveImage` | T1/database.c:100-122 | reports success exactly when a live match exists; the index becomes the one with that match flagged and the data file is untouched |
| `FlatStore.FlatDatabase.Compact` | T1/database.c:128-178 | the index and data file become the compacted pair, and the reported count is the number of live records |
| `FlatStore.FlatDatabase.RetrieveImage` | T1/database.c:183-236 | no image exactly when no live record matches; otherwise the image decoded from the read-ahead record, with that record's dimensions and max_gray |
| `FlatStore.FlatDatabase.RetrieveMatch` | T1/database.c:183-236 | no image exactly when no live record matches; otherwise the image decoded from the first live match itself |
| `Reconstruction.Sum255Step` | T1/reconstruction.c:129-147 | adding one version adds 255 times its pixel to the sum |
| `Reconstruction.Sum255Binary` | T1/reconstruction.c:129-147 | over binary versions the sum is 255 times the number of versions with a 1 there |
| `Reconstruction.BinaryAverage` | T1/reconstruction.c:129-147 | over binary versions each output pixel is 255 * ones / versions, which is already in [0, 255] |
| `Reconstruction.MatchingStep` | T1/reconstruction.c:28-71 | scanning one more record appends it to the versions exactly when it is live and has the name |
| `Reconstruction.MatchingSound` | T1/reconstruction.c:28-29 | every collected record is a record of the index, is live and has the requested name, whatever its threshold |
| `Reconstruction.MatchingComplete` | T1/reconstruction.c:28-29 | every live record with the name is collected |
| `Reconstruction.AllDecodedAppend` | T1/reconstruction.c:59-68 | the collected versions stay paired with their records when one more is appended |
| `Reconstruction.CollectVersions` | T1/reconstruction.c:16-71 | the versions collected are the decodings of the live records of the name, in index order |
| `Reconstruction.Grow` | T1/reconstruction.c:30-40 | the grown array has the new capacity and keeps the versions collected so far |
| `Reconstruction.Decode` | T1/reconstruction.c:52-69 | a version carries its record's threshold and dimensions and the decoded payload |
| `Reconstruction.Average` | T1/reconstruction.c:82-147 | no image when the versions differ in dimensions; otherwise an image of the first version's size, max_gray 255, whose pixels are the clamped truncated means of 255 * pixel |
| `Reconstruction.AddVersion` | T1/reconstruction.c:129-137 | adding one version's cells keeps the running sum equal to the sum over the versions so far |
| `Reconstruction.Normalize` | T1/reconstruction.c:140-147 | every sum becomes the clamped mean |
| `Reconstruction.Reconstruct` | T1/reconstruction.c:11-158 | no image when the name has no live record or the versions differ in dimensions; otherwise the averaged image of all live versions of the name |
| `ImageStore.SizeSumConcat` | T2/image.c:412-428 | sizes add over concatenation |
| `ImageStore.RenumberConcat` | T2/image.c:412-428 | renumbering a concatenation renumbers the second part after the first part's payloads |
| `ImageStore.PayloadsConcat` | T2/image.c:412-428 | payloads concatenate |
| `ImageStore.RenumberAt` | T2/image.c:423-426 | the m-th renumbered key is the m-th key re-pointed at the sizes of the keys before it |
| `ImageStore.PayloadAt` | T2/image.c:420-424 | the m-th key's payload sits in the copied payloads at the sizes before it |
| `ImageStore.CopiedPayload` | T2/image.c:408-436 | after compaction every key reads back from the new file exactly the bytes it pointed at in the old file |
| `ImageStore.ShapeValid` | T2/image.c:426-434 | changing only data offsets keeps the page file well formed |
| `ImageStore.CompactPage` | T2/image.c:408-436 | compacting a subtree changes only data offsets and only appends to the output file |
| `ImageStore.CompactSlots` | T2/image.c:412-431 | compacting the slots of a page from i on changes only offsets and keeps the slots before i |
| `ImageStore.CompactSlotsStep` | T2/image.c:412-428 | one slot: the child subtree is compacted first, then the key's payload is copied and the key re-pointed at the output end |
| `ImageStore.ReachShape` | T2/image.c:408-436 | reachability and sharing depend only on the tree's shape, not on offsets |
| `ImageStore.SlotsShape` | T2/image.c:412-431 | the same for the slots of a page |
| `ImageStore.WalkFrame` | T2/image.c:408-436 | the in-order walk of a subtree depends only on the pages it reaches |
| `ImageStore.SlotsWalkFrame` | T2/image.c:412-431 | the same for the slots of a page |
| `ImageStore.CompactFrame` | T2/image.c:408-436 | compacting a subtree leaves every page outside it unchanged |
| `ImageStore.CompactSlotsFrame` | T2/image.c:412-431 | compacting slots leaves every page they do not reach unchanged |
| `ImageStore.CompactWalk` | T2/image.c:408-436 | when no page is reachable twice, compaction turns the in-order walk into the same keys re-pointed consecutively from the old output end, and the output grows by exactly their payloads in walk order |
| `ImageStore.CompactSlotsWalk` | T2/image.c:412-431 | the same for the slots of a page from i on |
| `ImageStore.LeafSlotWalk` | T2/image.c:412-428 | the same for the slots of a leaf |
| `ImageStore.InnerSlotWalk` | T2/image.c:412-431 | the same for the slots of an internal page |
| `ImageStore.ChildCompactWalk` | T2/image.c:414 | the child subtree's walk is renumbered from the current output end |
| `ImageStore.InnerRest` | T2/image.c:412-431 | after the child and its separator, the remaining slots complete the renumbered walk |
| `ImageStore.RestUnchanged` | T2/image.c:412-431 | compacting child i leaves the later slots' subtrees as they were when the tree is unshared |
| `ImageStore.ChildUnchanged` | T2/image.c:412-431 | compacting the later slots leaves child i's walk unchanged when they do not share pages |
| `ImageStore.WalkFromStep` | T2/btree.c:575-592 | the walk from slot i is child i's walk, then key i, then the walk from slot i + 1 |
| `ImageStore.StoredExtend` | T2/image.c:224-233 | appending to the data file keeps every stored payload readable |
| `ImageStore.VersionsSnoc` | T2/image.c:265-334 | one more threshold appends one more compressed version |
| `ImageStore.VersionKeysExtend` | T2/image.c:265-334 | the keys inserted so far keep pointing at their versions when another version is appended |
| `ImageStore.ImageDatabase.Init` | T2/btree.c:29-46 | an empty data file and a fresh B-tree |
| `ImageStore.ImageDatabase.AddImage` | T2/image.c:205-251 | the binarized, compressed image is appended to the data file and a key for it (truncated name, threshold, old end offset, size, dimensions) is inserted; the key is in the in-order walk from the cached root, reads back exactly the payload, and that payload decodes back to the binarized image when no run is longer than 255 |
| `ImageStore.ImageDatabase.AddVersion` | T2/image.c:285-328 | one loop iteration: the version for this threshold is appended, its key points at it and is in the in-order walk from the cached root |
| `ImageStore.ImageDatabase.AddMultipleThresholds` | T2/image.c:256-338 | one version per threshold, in order, is appended to the data file, and each returned key names the image, its threshold and dimensions and reads back that threshold's compressed version |
| `ImageStore.ImageDatabase.RetrieveImage` | T2/image.c:343-396 | no image when the key is absent (or has no payload or negative dimensions); otherwise the image decoded from the key's payload, with the key's dimensions and max_gray 1 |
| `ImageStore.ImageDatabase.CompactRecursive` | T2/image.c:408-436 | the recursion computes the specified subtree compaction in place in the page file |
| `ImageStore.ImageDatabase.CompactSlot` | T2/image.c:412-428 | one iteration of the key loop advances the specified slot compaction |
| `ImageStore.ImageDatabase.WritePage` | T2/btree.c:93-98 | exactly the page at the offset is replaced |
| `ImageStore.ImageDatabase.Compact` | T2/image.c:441-463 | the page file and data file become the compaction of the tree from the header's root; for a tree without shared pages the in-order walk is the old one re-pointed consecutively from 0 and the data file is the payloads in walk order |

## Left out

- File I/O is modelled as values: the page file is a map, and the data and index files are byte and record sequences. Reading and writing PGM files (`readPGM`, `writePGM`, `image_read_pgm`, `image_write_pgm`) is left out; images arrive as `PgmImage` objects. `freePGM`, `image_free` and every `malloc`/`fopen` failure path are left out.
- Printing is left out: `btree_print_inorder`, `btree_print_pages`, `database_list_images`, and the menus and `main` of both generations. The in-order traversal is modelled (`BTree.BTreeFile.InOrder`) as the sequence it would print.
- `ImageStore.ImageDatabase.AddMultipleThresholds`: the per-row copy loop and its allocation-failure `continue` are not modelled; every version binarizes an unaltered copy of the original pixels.
- `BTreeNode.CompareKeys`: the threshold comparison is exact subtraction; the 32-bit overflow of `a.threshold - b.threshold` for extreme thresholds is not modelled.
- `BTreeNode.TruncateName`: names are character sequences; `strncpy` into the fixed 50-byte array is modelled as truncation to 49 characters, and a name with an embedded NUL is not modelled.
- `Bytes.ReadBlob`: a read past the end of the data file returns the bytes that exist; the rest of the blob reads as 0, where the C buffer keeps whatever `malloc` left in it.
- `BTreeNode.EmptyPage`: the key slots that `btree_create_node` leaves uninitialised hold indeterminate bytes in C; the model fills them with the fixed `BLANK_KEY`. `GetSuccessor` and a search on a page that was never filled read such slots and see `BLANK_KEY` in the model.
- The header occupies bytes 0..23 of the page file, while `btree_init` writes the first root page at offset 0. The model keeps header and pages apart and does not capture the overlap.
- `ImageStore.ImageDatabase.Compact`: the cached root copy is not refreshed after compaction, as in the source. The prefix-sum property is proved only when no page is reachable twice. After an internal split shares a child, the second visit to the shared page reads `old_data` at offsets the first visit already rewrote to new-file offsets (T2/image.c:420-426), so it copies the wrong bytes.
- `ImageStore.ImageDatabase.RetrieveImage`: a `data_size` of 0 or negative dimensions make the C code read `data[0]` of an empty buffer or allocate a negative size; the model returns no image there.
- `BTree.BTreeFile.DeleteRecursive`, `BTree.BTreeFile.RemoveFromNonLeaf`, `BTree.BTreeFile.FillChild`, `BTree.BTreeFile.GetPredecessor`: paths with undefined behaviour in C report `Fault` and leave the file as it was at that point. These paths are a merge at index -1 when a parent has no keys, and reading `keys[-1]` of an empty leaf. A `Fault` result carries no claim about the key set.
- `BTree.BTreeFile.DeleteRecursive`, `BTree.BTreeFile.RemoveFromNonLeaf`, `BTree.BTreeFile.Delete`: that the walk loses exactly the key is proved only for a subtree that shares no page and has an ascending walk (`Orderly`) and no empty leaf (`NoEmptyLeaf`). A shared page, which an internal split creates, can be rewritten through one parent while it is read through another. An unordered walk lets the descent miss the key. An empty leaf makes `GetSuccessor` return the stale key left in its slot 0: `btree_remove_from_leaf` (T2/btree.c:299-303) only lowers `num_keys`, so that slot still holds a key deleted earlier. That key is written into the parent (T2/btree.c:325-327), so a deleted key comes back and the separator it replaced is lost. `Delete` also needs the cached root to be the root page's content, which a deletion does not refresh. Without these hypotheses the contracts state only that the file stays well formed, how the root changes, and that `NotFound` on an unshared tree leaves the walk as it was.
- The helper methods `WriteSplit`, `SplitFor`, `GrowRoot`, `MergeSiblings`, `DeleteInLeaf`, `DescendAndDelete`, `FillAndLocate`, `RemoveWithPredecessor`, `RemoveWithSuccessor`, `RemoveByMerge`, `MergeAround`, `ReplaceAndDescend`, `WriteSlot` and `DeleteInChild` of `BTree.BTreeFile` are not functions of the source. They split `btree_split_child`, `btree_insert`, `btree_fill_child`, `btree_delete_recursive` and `btree_remove_from_non_leaf` into one branch or step each, in the source's order.
- `BTree.BTreeFile.InsertNonFull`: at an internal page the contract states that the key is in the resulting walk, not that the walk is the old one with the key added.
- `BTree.BTreeFile.Insert`: the contract does not state that keys stored before stay in the walk, because the source does not keep them. `btree_insert` hands the cached `btree_root` to `btree_insert_non_full` (T2/btree.c:133, 136), and deletion never refreshes that copy. At a leaf root, the stale copy plus the new key is written back over the root page (T2/btree.c:151-153). Keys that a deletion moved into the root are then lost, and deleted keys come back. Separately, splitting an internal page puts its children[1] under both halves (T2/btree.c:188-198, 209), so pages become shared. `ImageStore.ImageDatabase.AddMultipleThresholds` likewise does not state that the earlier versions' keys stay reachable.
- `Rle.RoundTrip`: holds only for images without a run of 256 equal pixels. `Rle.LongRunBreaksRoundTrip` shows the source's encoding loses such images.
- Pixels are C `int`s and the first one is stored as `unsigned char`; only binary images are meant to be encoded, and other values are reduced modulo 256 in the first byte only.
- `Reconstruction.Reconstruct`: the version array is grown by doubling from 10; `realloc` failure and the output file are left out.
- The keys' `data_size` is a natural number; a negative C `int` size is not modelled.

## Findings

| source | as written | input that shows it | evidently intended | confidence | as-written member | corrected member |
|---|---|---|---|---|---|---|
| T1/database.c:191-195 | the `while` condition calls `fread` before testing `!found`, so after the matching record is read, one more record is read over `entry` | index [A, B] with both live; request A's name and threshold | decode the first live matching record | not executed | `FlatStore.ReadAheadReturnsNext` | `FlatStore.FlatDatabase.RetrieveMatch` |

Where this code differs from a textbook B-tree (the model follows the code):

- Split: a textbook split moves the median key up and leaves it in neither half. Here the split copies keys and children from index `ORDER / 2` = 1 into the sibling, keeps `MIN_KEYS` = 1 key in the child and also raises key 1 into the parent. A leaf split therefore yields the in-order sequence k0, k1, k1.
- Deletion from an internal page: a textbook B-tree takes the predecessor only when the left child has at least `MIN_KEYS + 1` keys. Here the test is at least `MIN_KEYS` keys.
