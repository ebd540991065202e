# hckt-tree in Dafny

A model of the sparse tree of hckt-tree, with proofs about it. A node has
64 slots and a 64-bit occupancy mask. For slot p, the node's value and
child pointer live in compacted vectors at index rank(p), the number of
occupied slots below p. The model covers these parts:

- `hckt::lmemvector` (include/lmemvector.hpp): the 8-bit growable array behind
  a node's vectors. It is modelled as a class over an `array`, and insert and
  erase shift elements with a modelled `memmove`.
- The older `lmemvector` (lmemvector.hpp): it starts at capacity 1 and doubles.
  Its out-of-bounds copies are modelled as written, next to the intended
  versions (see Findings).
- `hckt::tree` (include/tree.hpp): the node class. The object invariant ties
  both vectors' lengths to the popcount of the mask. Each node owns its
  children exclusively. Insert, remove, collapse and the value access are
  proved against module `Ranked`, which says where each occupied slot's entry
  sits.
- `get_children_position`, both builds:
  - the HCKT_SPARSE Kernighan loop is proved to return the rank;
  - in the default SWAR build, the three field steps are proved. After them,
    each byte of the word holds the popcount of that byte of the shifted mask,
    and the bytes add up to the rank.
- The position encoders of include/util.hpp: 2D quad paths and 3D octant
  paths map to a slot and to coordinates. There are layout, coordinate and
  bijection lemmas. The copies in include/tree.hpp:89-165 have the same
  bodies over `std::size_t`. For digits in range they compute the same
  values, so one model serves both.
- `hckt_tree` (hckt_tree.hpp) and `Quadtree` (quadtree.hpp): the earlier nodes.
  They use a dense value array and a linear-scan rank.

The doc comment of `get_position_2d` lists the slot bits from the least
significant end (y1:x1:y2:x2:y3:x3), and (1, 2, 3) encodes to 54
(`Position.Example2d`).

Integer widths: masks are `bv64`. Slots are `bv6`, so "below 64" is the type
itself. The encoders work on `bv32`, the source's `unsigned`. Vector sizes
and capacities are `nat`, bounded by the invariant to the `uint8_t` range.

## Model

| member | source | states |
|---|---|---|
| Position.Position2d | include/util.hpp:17-29 | for quad digits below 4 the slot is below 64 |
| Position.X2d | include/util.hpp:31-40 | the x coordinate is below 8 |
| Position.Y2d | include/util.hpp:42-51 | the y coordinate is below 8 |
| Position.Layout2d | include/util.hpp:8-29 | slot bit 2k is the y bit of digit k+1 and bit 2k+1 its x bit (layout y1:x1:y2:x2:y3:x3) |
| Position.Coordinates2d | include/util.hpp:23-50 | get_x_2d gathers the odd bits of the slot, get_y_2d the even bits (weights 1, 2, 4) |
| Position.Example2d | include/util.hpp:17-51 | (1, 2, 3) gives slot 54, x 5, y 6 |
| Position.Surjective2d | include/util.hpp:23-28 | every slot below 64 is the encoding of the digits read back from it |
| Position.Injective2d | include/util.hpp:23-28 | the digits read back from a slot are the ones that made it, so the encoding is injective |
| Position.Position3d | include/util.hpp:62-73 | for octant digits below 8 the slot is below 64 |
| Position.X3d | include/util.hpp:75-82 | the x coordinate is below 4 |
| Position.Y3d | include/util.hpp:84-91 | the y coordinate is below 4 |
| Position.Z3d | include/util.hpp:93-100 | the z coordinate is below 4 |
| Position.Layout3d | include/util.hpp:53-73 | the slot's bits follow the layout z1:y1:x1:z2:y2:x2 from the least significant end |
| Position.Coordinates3d | include/util.hpp:75-100 | x is slot bits {2, 5}, y is bits {1, 4}, z is bits {0, 3} |
| Position.Surjective3d | include/util.hpp:67-72 | every slot below 64 is the encoding of the octant digits read back from it |
| Position.Injective3d | include/util.hpp:67-72 | the octant digits read back from a slot are the ones that made it |
| BitRank.Popcount | include/tree.hpp:171-174 | the number of set bits, the rank of slot 64; stated by NoneIsZero, PopcountOfZero and PopcountWithClearBit |
| BitRank.SetBit | include/tree.hpp:201 | bitset.set(p); its effect on ranks is RankAfterSet |
| BitRank.ResetBit | include/tree.hpp:216 | bitset.reset(p); its effect on ranks is RankAfterReset, and ResetOfSet undoes SetBit |
| BitRank.ClearLowest | include/tree.hpp:37 | `x &= x - 1`; ClearLowestSetBit states that it drops exactly one set bit |
| BitRank.ShiftLeft | include/tree.hpp:32 | `bitset.to_ullong() << (64 - position)`; ShiftedRank states that the set bits left are those below position |
| BitRank.RankAtMost | include/tree.hpp:197 | the rank of slot p is at most p, hence below 64 as the callers assert |
| BitRank.RankMonotone | include/tree.hpp:20-53 | the rank does not decrease with the slot |
| BitRank.RankPastSetBit | include/tree.hpp:20-53 | an occupied slot has a smaller rank than every later slot |
| BitRank.RankBelowPopcount | include/tree.hpp:225-228 | an occupied slot's rank is a valid index into the compacted vectors |
| BitRank.RankInjective | include/tree.hpp:236-241 | two occupied slots with the same rank are the same slot |
| BitRank.RankIsCardinality | include/tree.hpp:20-53 | the rank is the number of elements of the set of occupied slots below p |
| BitRank.NoneIsZero | include/tree.hpp:171-174 | bitset.none() holds exactly when the popcount is 0 |
| BitRank.PopcountOfZero | include/tree.hpp:56-58 | the empty mask has popcount 0 |
| BitRank.RankAfterSet | include/tree.hpp:201 | setting a free bit p adds one to the rank of every slot above p and leaves the others alone |
| BitRank.RankAfterReset | include/tree.hpp:216 | resetting a set bit p takes one from the rank of every slot above p and leaves the others alone |
| BitRank.PopcountWithClearBit | include/tree.hpp:194-202 | setting a free bit adds one to the popcount, which was below 64 |
| BitRank.ResetOfSet | include/tree.hpp:201-216 | reset(p) after set(p) on a free bit gives the mask back |
| BitRank.ClearLowestSetBit | include/tree.hpp:36-38 | x &= x - 1 on a non-zero word removes exactly one set bit |
| BitRank.ShiftedRank | include/tree.hpp:32 | the mask shifted left by 64 - p has as many set bits as the mask has below p |
| BitRank.Complement | include/tree.hpp:32 | for p != 0, the 6-bit shift amount 0 - p is 64 - p |
| Ranked.InsertAt | include/lmemvector.hpp:123-139 | the sequence is one longer, holds x at i, and keeps the elements before i and after it shifted by one |
| Ranked.RemoveAt | include/lmemvector.hpp:104-110 | the sequence is one shorter, keeps the elements before i and moves the later ones down by one |
| Ranked.EntryAfterInsert | include/tree.hpp:194-202 | after inserting at the rank of a free slot p and setting bit p, p's entry is the new one and every other occupied slot keeps its entry |
| Ranked.EntryAfterRemove | include/tree.hpp:208-217 | after erasing at the rank of an occupied slot p and resetting bit p, every remaining slot keeps its entry |
| Ranked.EntryAfterUpdate | include/tree.hpp:236-255 | assigning at the rank of an occupied slot p changes p's entry to the new value and no other slot's entry |
| Ranked.RemoveUndoesInsert | include/tree.hpp:194-217 | remove(p) right after insert(p, x) restores the mask and the sequence |
| Memory.Memmove | include/lmemvector.hpp:109 | the buffer becomes Moved(old buffer, dst, src, n): the n elements from src land at dst as if copied through a temporary, and nothing else changes |
| Memory.CopyUpwards | include/lmemvector.hpp:109 | the forward copy loop of memmove for dst <= src: the n elements from src land at dst, nothing else changes |
| Memory.CopyDownwards | include/lmemvector.hpp:137 | the backward copy loop of memmove for src < dst: the n elements from src land at dst, nothing else changes |
| Memory.Moved | include/lmemvector.hpp:109 | elements below dst and from dst + n on keep their values, those in between come from src on |
| Memory.OpenGap | include/lmemvector.hpp:136-138 | the first n elements become the first n - 1 with value at position |
| Memory.GapFilled | include/lmemvector.hpp:136-138 | after the move up by one and the store, the buffer prefix is the old prefix with value inserted |
| LMemVector.Grown | include/lmemvector.hpp:130 | `(size_t)(capacity * 1.6)`, exact as capacity * 8 / 5 rounded down; its bounds are GrownExceeds and GrownOfSmall |
| LMemVector.NextCapacity | include/lmemvector.hpp:127-134 | the capacity after insert: init_capacity from 0, Grown when the incremented size reaches it, else unchanged; LMemVector.LMemVector.Insert ensures it |
| LMemVector.CapacityAfter | include/lmemvector.hpp:11-12 | every capacity the growth sequence produces (the first allocation, then each ×1.6 step) is at least init_capacity |
| LMemVector.GrownExceeds | include/lmemvector.hpp:130 | from 2 on, (size_t)(capacity * 1.6) is larger than the capacity |
| LMemVector.GrownOfSmall | include/lmemvector.hpp:112-114 | growing a vector of at most 64 elements stays below the reserve assert's 255 |
| LMemVector.CapacitySequence | include/lmemvector.hpp:11-12 | the capacities are 2, 3, 4, 6, 9, 14, 22, 35, 56, 89 |
| LMemVector.CapacityIncreases | include/lmemvector.hpp:127-134 | capacities strictly increase with every growth step |
| LMemVector.LMemVector.constructor | include/lmemvector.hpp:34-35 | a new vector has no elements and capacity 0 |
| LMemVector.LMemVector.Get | include/lmemvector.hpp:66-67 | operator[] reads element n of the contents |
| LMemVector.LMemVector.Set | include/lmemvector.hpp:68-69 | assignment through operator[] changes element n only, keeping the buffer and the invariant |
| LMemVector.LMemVector.Size | include/lmemvector.hpp:91-92 | size() is the length of the contents (end() - begin()) and below 255 |
| LMemVector.LMemVector.Capacity | include/lmemvector.hpp:94-95 | capacity() is the buffer length, 0 only for an empty vector and otherwise above the size |
| LMemVector.LMemVector.Clear | include/lmemvector.hpp:97-102 | size and capacity become 0 |
| LMemVector.LMemVector.Erase | include/lmemvector.hpp:104-110 | the contents lose the element at position; the memmove of size + 1 - position elements stays in the buffer because size < capacity |
| LMemVector.LMemVector.Init | include/lmemvector.hpp:19-24 | a fresh buffer of init_capacity (2) elements |
| LMemVector.LMemVector.Reserve | include/lmemvector.hpp:112-121 | n < 255; a fresh buffer of n elements that keeps the first size elements and the contents |
| LMemVector.LMemVector.Insert | include/lmemvector.hpp:123-139 | the contents gain value at position, the capacity grows from 0 to 2 or by 1.6 when the size reaches it, and size < capacity holds after it |
| LegacyLMemVector.NextCapacity | lmemvector.hpp:116-123 | the capacity after insert: 1 from 0, doubled when the incremented size reaches it, else unchanged; the insert members ensure it |
| LegacyLMemVector.StoredCapacity | lmemvector.hpp:110-119 | as written: the capacity insert leaves in the 8-bit `_capacity`, the low 8 bits of the doubled capacity; CapacityWraps shows its wrap |
| LegacyLMemVector.CapacityWraps | lmemvector.hpp:110-127 | as written: the 128th insert stores capacity 0, and the 129th then gets a 1-element buffer for 129 elements |
| LegacyLMemVector.NextCapacityHolds | lmemvector.hpp:114-123 | intended: the capacity after an insert always holds the incremented size |
| LegacyLMemVector.FirstInsertFillsBuffer | lmemvector.hpp:13-19 | the first insert leaves capacity 1 with one element, where the next growth copy and erase both read past the buffer |
| LegacyLMemVector.LegacyLMemVector.constructor | lmemvector.hpp:29-30 | a new vector has no elements and capacity 0 |
| LegacyLMemVector.LegacyLMemVector.Init | lmemvector.hpp:13-19 | a fresh buffer of one element |
| LegacyLMemVector.LegacyLMemVector.Clear | lmemvector.hpp:92-97 | size and capacity become 0 |
| LegacyLMemVector.LegacyLMemVector.Reserve | lmemvector.hpp:105-112 | a fresh buffer of n elements that keeps the first `count` elements; the source always copies the `_size` elements, and `count` is that size at the call: `size` in GrowAsWritten, `size - 1` in the intended Grow |
| LegacyLMemVector.LegacyLMemVector.InsertAsWritten | lmemvector.hpp:114-128 | as written: the contents gain value at position and the capacity goes 0 to 1 or doubles, provided the growth copy of `size` elements stays in the old buffer |
| LegacyLMemVector.LegacyLMemVector.GrowAsWritten | lmemvector.hpp:116-123 | as written: the growth step copies size elements after the increment, which needs the old buffer to hold them |
| LegacyLMemVector.LegacyLMemVector.Insert | lmemvector.hpp:114-128 | intended: the contents gain value at position, the capacity goes 0 to 1 or doubles, and size <= capacity holds after it |
| LegacyLMemVector.LegacyLMemVector.Grow | lmemvector.hpp:116-123 | intended: the growth step copies the size - 1 elements held |
| LegacyLMemVector.LegacyLMemVector.EraseAsWritten | lmemvector.hpp:99-103 | as written: the contents lose the element at position, provided the old size is below the capacity so the memmove stays inside |
| LegacyLMemVector.LegacyLMemVector.Erase | lmemvector.hpp:99-103 | intended: the contents lose the element at position, whatever the size and capacity |
| LegacyLMemVector.FilledAfterFirstInsert | lmemvector.hpp:114-128 | one insert into a new vector gives contents [7] with size == capacity == 1, outside both as-written bounds rules |
| Tree.Tree.constructor | include/tree.hpp:56-58 | a new node has an empty mask, no values, no children and is empty() |
| Tree.Tree.ChildrenPosition | include/tree.hpp:20-40 | the HCKT_SPARSE build returns the number of occupied slots below position, 0 for position 0 |
| Tree.Tree.Empty | include/tree.hpp:171-174 | empty() holds exactly when there are no children and exactly when there are no values |
| Tree.Tree.Collapse | include/tree.hpp:179-188 | after collapse the node is valid and empty: mask 0, no values, no children, both vectors of capacity 0 |
| Tree.Tree.Reset | include/tree.hpp:185-187 | children.clear(), values.clear() and bitset.reset() give empty vectors of capacity 0 and an empty mask |
| Tree.Tree.CollapseChildren | include/tree.hpp:181-183 | every child ends with an empty mask, while the node's own fields and both vectors, footprints and contents, stay as they were |
| Tree.Tree.Insert | include/tree.hpp:194-202 | on a free slot: bit p is set, both vectors gain an entry at rank(p) (the value and a new valid empty child) and the invariant holds |
| Tree.Tree.Attach | include/tree.hpp:199-201 | a new child and the value are inserted at cpos and the mask takes its new value |
| Tree.Tree.AttachChild | include/tree.hpp:199-201 | the given child and the value are inserted at cpos in both vectors |
| Tree.Tree.InsertEntries | include/tree.hpp:199-200 | children.insert(cpos, child) and values.insert(cpos, value) |
| Tree.Tree.Adopt | include/tree.hpp:199-201 | the child joins Kids at cpos and the footprint, keeping ownership disjoint |
| Tree.Tree.Remove | include/tree.hpp:208-217 | on an occupied slot: bit p is reset, both vectors lose the entry at rank(p), the removed child is valid and empty, its footprint leaves the node, only that child's footprint is written among the children, and the invariant holds |
| Tree.Tree.Prune | include/tree.hpp:213-215 | the child at cpos is dropped from both vectors and left valid and empty; no other child's footprint is written |
| Tree.Tree.Detach | include/tree.hpp:214-215 | returns the child at cpos after erasing it from both vectors |
| Tree.Tree.EraseEntries | include/tree.hpp:214-215 | children.erase(cpos) and values.erase(cpos) |
| Tree.Tree.Disown | include/tree.hpp:214-216 | the child leaves Kids and the footprint |
| Tree.Tree.Leaf | include/tree.hpp:223-229 | the child at the slot's rank, which for an occupied slot is that slot's entry |
| Tree.Tree.GetValue | include/tree.hpp:249-255 | the value at the slot's rank, which for an occupied slot is that slot's entry |
| Tree.Tree.SetValue | include/tree.hpp:236-242 | only the value at the slot's rank changes; mask, children and footprint stay |
| HcktTree.GetPosition | hckt_tree.hpp:41-49 | the slot is below 64 |
| HcktTree.PositionDigits | hckt_tree.hpp:41-49 | the slot is the base-4 number l1 l2 l3 with l1 most significant, and each digit reads back |
| HcktTree.PositionOfDigits | hckt_tree.hpp:41-49 | every slot below 64 is the position of its own digits |
| HcktTree.HcktTree.constructor | hckt_tree.hpp:33-34 | a new node has an empty mask, no children and is empty() |
| HcktTree.HcktTree.ChildrenPosition | hckt_tree.hpp:18-29 | the loop counts the occupied slots below position |
| HcktTree.HcktTree.Empty | hckt_tree.hpp:51-54 | empty() holds exactly when there are no children |
| HcktTree.HcktTree.Collapse | hckt_tree.hpp:56-64 | mask cleared, children gone, empty(), the value array untouched |
| HcktTree.HcktTree.CollapseChildren | hckt_tree.hpp:58-60 | every child ends valid and empty(), with an empty mask, while the node and its values stay unchanged |
| HcktTree.HcktTree.Forget | hckt_tree.hpp:62-63 | children.clear() and bitset.reset() |
| HcktTree.HcktTree.Insert | hckt_tree.hpp:66-71 | on a free slot: bit p set, values[p] = v, a new valid empty child at rank(p) and the invariant holds |
| HcktTree.HcktTree.Attach | hckt_tree.hpp:68-70 | the emplace at cpos, the new mask and the store of the value |
| HcktTree.HcktTree.Adopt | hckt_tree.hpp:68-69 | the child joins the children at cpos and the footprint |
| HcktTree.HcktTree.Leaf | hckt_tree.hpp:73-76 | the child at the slot's rank, which for an occupied slot is that slot's entry |
| HcktTree.HcktTree.SetValue | hckt_tree.hpp:78-81 | values[p] = v and nothing else |
| HcktTree.HcktTree.GetValue | hckt_tree.hpp:83-86 | returns values[p], so a get after a set returns the value written |
| HcktTree.ApartAfterInsert | hckt_tree.hpp:68 | inserting a child with a separate footprint keeps the children's footprints pairwise disjoint |
| Quadtree.Pow2 | quadtree.hpp:14 | a power of two is at least 1 |
| Quadtree.SlotCount | quadtree.hpp:14-15 | a node has at least one slot |
| Quadtree.Pow2Add | quadtree.hpp:14 | 2^(a + b) is 2^a * 2^b |
| Quadtree.SlotCountStep | quadtree.hpp:14-15 | one more depth step gives four times the slots |
| Quadtree.SlotCountOfThree | quadtree.hpp:14-15 | Quadtree<3, int> has 64 slots |
| Quadtree.Count | quadtree.hpp:18-29 | the count below n is at most n |
| Quadtree.CountZero | quadtree.hpp:50-53 | the count is 0 exactly when no bit below n is set |
| Quadtree.CountMonotone | quadtree.hpp:18-29 | the count does not decrease with the slot |
| Quadtree.CountPastSetBit | quadtree.hpp:18-29 | a set bit at p puts every later slot's count above p's |
| Quadtree.CountAfterSet | quadtree.hpp:68 | setting a free bit p adds one to the count of every slot above p |
| Quadtree.ChildAfterInsert | quadtree.hpp:65-70 | after the insert, p's child is the new one and every other occupied slot keeps its child |
| Quadtree.GetPosition | quadtree.hpp:41-48 | the as-written formula, with `1 * 2` and `1 * 4` binding before `&`; what it gives is stated by PositionRange, PositionIgnoresLowBit and PositionCollision |
| Quadtree.PositionRange | quadtree.hpp:41-48 | as written, for digits below 4 the position lies in [4, 49): slots 0 to 3 are never produced |
| Quadtree.PositionIgnoresLowBit | quadtree.hpp:44-46 | as written, `l2 & 1 * 2` ignores bit 0 of l2 and `l3 & 1 * 4` bit 0 of l3 |
| Quadtree.PositionCollision | quadtree.hpp:41-48 | as written, paths (0, 0, 0) and (0, 1, 0) both give slot 4 |
| Quadtree.IntendedPosition | quadtree.hpp:41-48 | the corrected formula gives a slot below 64 |
| Quadtree.IntendedDigits | quadtree.hpp:41-48 | the corrected slot reads back as l1, l2, l3, so distinct paths have distinct slots |
| Quadtree.IntendedOnto | quadtree.hpp:41-48 | every slot below 64 is the corrected position of its digits |
| Quadtree.Quadtree.constructor | quadtree.hpp:33-34 | a new node has 1 << (DepthStep * 2) clear bits, no children and is empty() |
| Quadtree.Quadtree.ChildrenPosition | quadtree.hpp:18-29 | the loop counts the set bits below position |
| Quadtree.Quadtree.Empty | quadtree.hpp:50-53 | bitset.none(): no bit is set, exactly when there are no children |
| Quadtree.Quadtree.Collapse | quadtree.hpp:55-63 | every bit cleared, children gone, empty(), the value array untouched |
| Quadtree.Quadtree.CollapseChildren | quadtree.hpp:57-59 | every child ends valid and empty(), with no children and no bit set, while the node and its values stay unchanged |
| Quadtree.Quadtree.Forget | quadtree.hpp:61-62 | children.clear() and bitset.reset() |
| Quadtree.Quadtree.Insert | quadtree.hpp:65-70 | on a free slot: bit p set, values[p] = v, a new valid empty child of the same DepthStep at count(p) |
| Quadtree.Quadtree.Attach | quadtree.hpp:67-69 | the emplace at cpos, the bit and the store of the value |
| Quadtree.Quadtree.Adopt | quadtree.hpp:67-68 | the child joins the children at cpos and the footprint and the bit is set |
| Quadtree.Quadtree.Leaf | quadtree.hpp:72-75 | the child at the slot's count, which for a set slot is that slot's child |
| Quadtree.Quadtree.SetValue | quadtree.hpp:77-80 | values[p] = v and nothing else |
| Quadtree.Quadtree.GetValue | quadtree.hpp:82-85 | returns values[p], so a get after a set returns the value written |
| Quadtree.Scenario | main.cpp:6-10 | insert(0, 10), then leaf(0)->insert(1, 15): the two reads give 10 and 15 |
| Swar.PairCounts | include/tree.hpp:47 | `x -= (x >> 1) & m1`; its meaning is Swar.PairField |
| Swar.NibbleCounts | include/tree.hpp:48 | `x = (x & m2) + ((x >> 2) & m2)`; its meaning is Swar.NibbleField |
| Swar.ByteCounts | include/tree.hpp:49 | `x = (x + (x >> 4)) & m4`; its meaning is Swar.ByteField |
| Swar.SwarCount | include/tree.hpp:47-51 | the whole SWAR formula with the multiply by h01; proved only up to the multiply (Swar.ShiftedLanesCountRank, see Left out) |
| Swar.PairField | include/tree.hpp:47 | every 2-bit field after `x -= (x >> 1) & m1` holds the number of set bits of that field |
| Swar.NibbleField | include/tree.hpp:48 | every 4-bit field after the second step holds the number of set bits of that field |
| Swar.ByteField | include/tree.hpp:49 | every byte after the third step holds the number of set bits of that byte |
| Swar.SlotCountIsRank | include/tree.hpp:47-49 | the bits counted from a slot on are the difference of two ranks |
| Swar.ByteLane | include/tree.hpp:47-49 | the byte at offset i counts the set bits of x between i and i + 8 |
| Swar.ByteLanes | include/tree.hpp:47-49 | the eight bytes count the set bits of x in [0, 8), [8, 16), ..., [56, 64) |
| Swar.LanesSumToPopcount | include/tree.hpp:47-49 | the eight byte counts add up to the popcount of x |
| Swar.ShiftedLanesCountRank | include/tree.hpp:32-49 | for the mask shifted by 64 - position, the byte counts add up to the number of occupied slots below position |

## Left out

- Swar.SwarCount: the last step, `(x * h01) >> 56` at include/tree.hpp:51, is not proved. This is the multiply by 0x0101010101010101 that adds the eight byte counts into the top byte. The solver does not close this 64-bit multiplication within the resource limit. So the default build of get_children_position is proved up to the multiply (Swar.ShiftedLanesCountRank). `SwarCount` is the whole formula, with no contract. The HCKT_SPARSE build is proved in full (Tree.Tree.ChildrenPosition).
- Heap release is not modelled: `delete[]` in `clear`, `reserve` and the destructors. A null or released buffer is an empty array, and ownership is a ghost footprint (`Repr`). That `collapse` never deletes the child nodes is not stated either, beyond their leaving the footprint.
- Tree.Tree.Collapse: a second collapse is harmless in the model but not in the source. `lmemvector::clear` (include/lmemvector.hpp:97-102) deletes `buf` and leaves the pointer as it was. So once a node's vectors have held elements, a second `collapse()` frees them again. That includes `~tree` (include/tree.hpp:60-63) after an explicit `collapse()`, since the destructor calls `collapse()` once more. The model has no deallocation, so it cannot show this.
- The `lmemvector` copy constructor and `operator=` (include/lmemvector.hpp:44-64, lmemvector.hpp:39-59) are dead code. They assign to the member functions `capacity` and `size`, so they do not compile once instantiated.
- `front`, `back`, `begin` and `end` have no members of their own. The contents of `begin()..end()` are the ghost `Contents`, which the invariant ties to the first `size` elements of the buffer.
- `tree::calculate_memory_size`, include/bench.hpp and the example programs are out of scope. They do `sizeof` accounting, floating point, windowing, `rand()` and printing. `#pragma pack(1)` and the missing direction.hpp include only affect layout and build.
- The leaf-mask API is not modelled: `insert_leaf`, `child` and the separate leaf bitset. The examples call it, but no modelled file defines it.
- The source's asserts and unchecked uses become `requires` clauses:
  - the encoder digits are below 4 (2D) and 8 (3D);
  - slots are `bv6`, hence below 64;
  - `insert` needs a free slot;
  - `remove` needs an occupied one;
  - `get_value`, `set_value` and `leaf` need a rank inside the vectors;
  - in `Quadtree`, slots are plain integers, so bounds become requires. Quadtree.Quadtree.Insert needs `position < |bits|`: past the slot count `std::bitset::set` throws `out_of_range`, and that throw is not modelled. `leaf` and `get_children_position` need `position <= |bits|`, since `bitset[i]` reads past the end beyond it. `get_value` and `set_value` need a position inside the dense value array.
- Tree.Tree.Insert: it does not model inserting into 64 occupied slots. The free-slot precondition rules that out. So the capacity bound `|Kids| < 64` behind `GrownOfSmall` always holds.
- LMemVector.LMemVector.Insert: it requires that growth stays below 255, the assert of `reserve`. It does not model the `uint8_t` wrap of `_size` past 255.
- LegacyLMemVector.LegacyLMemVector.Insert: it requires capacity < 128 when growing. It does not model `_capacity << 1` wrapping to 0 in `uint8_t` at 128 (see Findings).
- LegacyLMemVector.LegacyLMemVector.InsertAsWritten: the same capacity < 128 requires when growing, and no wrap of `_capacity << 1`.
- LegacyLMemVector.LegacyLMemVector.GrowAsWritten: it requires capacity < 128, so the doubled capacity fits `uint8_t`; the wrap is not modelled.
- LegacyLMemVector.LegacyLMemVector.Grow: the same capacity < 128 requires, with no wrap of `_capacity << 1`.
- Tree.Tree.CollapseChildren: it states that every child ends with mask 0, but not that every child is still valid and empty() afterwards. Keeping that fact for the children collapsed earlier needs the freshness of the buffers each collapse allocates, and that proof is beyond the resource limit. HcktTree and Quadtree state it in full.
- Tree.Tree.Remove: it collapses the child after erasing it from both vectors; the source collapses it first. The two steps touch disjoint state, so the result is the same.
- Quadtree.Quadtree.constructor: it requires DepthStep < 16, where the `int` shift `1 << (DepthStep * 2)` is defined. Every child of a node has the node's own DepthStep.
- HcktTree.HcktTree.Collapse and Quadtree.Quadtree.Collapse: the dense value arrays are left as they were, as in the source. `hckt::tree` releases its values vector instead.

## Findings

| source | as written | input that shows it | evidently intended | confidence | as-written member | corrected member |
|---|---|---|---|---|---|---|
| lmemvector.hpp:116-119 | after `++_size`, growth calls `reserve`, which copies `begin()..end()`: `_size` elements from a buffer that may hold `_size - 1` | a new vector with two inserts: the first leaves size == capacity == 1, and the second copies 2 elements out of the 1-element buffer | copy the `_size - 1` elements held before the increment | not executed | LegacyLMemVector.LegacyLMemVector.InsertAsWritten | LegacyLMemVector.LegacyLMemVector.Insert |
| lmemvector.hpp:101-102 | after `--_size`, the memmove moves `_size + 1 - position` elements, reading the element at the old size | a new vector with one insert, then erase(0): the memmove reads buf[1] of a 1-element buffer | move the `_size - position` elements after the gap | not executed | LegacyLMemVector.LegacyLMemVector.EraseAsWritten | LegacyLMemVector.LegacyLMemVector.Erase |
| lmemvector.hpp:110, 119 | `reserve(_capacity << 1)` stores the new capacity into the `uint8_t` `_capacity`, so doubling 128 stores 0; the next insert then takes the `init()` branch | 128 inserts into a new vector, then a 129th: capacity 0 after the 128th, then a 1-element buffer holding 129 elements, with the memmove past its end | a capacity type wide enough for the doubled value, so that every insert leaves room for the incremented size | not executed | LegacyLMemVector.CapacityWraps | LegacyLMemVector.NextCapacityHolds |
| quadtree.hpp:43-47 | `l2 & 1 * 2` parses as `l2 & 2`, and each term `1 << b` adds 1 when its bit is 0, so different paths share a slot | get_position(0, 0, 0) == get_position(0, 1, 0) == 4 | l1 in bits 0-1, l2 in bits 2-3, l3 in bits 4-5, one shifted bit per term | not executed | Quadtree.PositionCollision | Quadtree.IntendedDigits |
