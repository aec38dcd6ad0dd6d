# Binary heap and binary search tree

This project models two small, independent data structures from a Rust exercise repository and proves properties about them.

- **`BinaryHeap`** (`heap.dfy`) models `exercises/algorithm/algorithm9.rs`. It is a binary heap that lives in a growable vector. Slot 0 holds an unused sentinel and the live elements sit in slots `1..count`. The children of slot `i` are `2i` and `2i+1`. The heap is a class with the source's fields. `count` is a `nat`, `items` is a `seq<int>` that the methods reassign (the `Vec` is written, pushed to and swapped in place), and `comparator` is fixed at construction. A comparator call `comparator(a, b)` means "a is preferred to b". `Add` reuses a stale slot or appends, then sifts up. `Next` takes the root, moves the last live element to slot 1, decrements `count` and sifts down. Both sifts are `while` loops. They are proved to restore the heap property, which says no live element is strictly preferred to its parent. They are also proved to keep the multiset of live elements, and to leave slot 0 and the stale slots above `count` untouched.
- **`SearchTree`** (`bst.dfy`) models `exercises/algorithm/algorithm4.rs`. It is an unbalanced binary search tree that drops duplicates. Every child is a uniquely owned `Option<Box<TreeNode>>`, so the tree is an inductive datatype, `TreeNode(value, left: Option<TreeNode>, right: Option<TreeNode>)`. Both recursive inserts are functions that return the updated node. `search` is a read-only `while` loop that moves a cursor down the tree.
- `Wrappers` (`wrappers.dfy`) holds the `Option` type shared by both.

A stricter heap property, `comparator(parent, child)` on every link, cannot hold when two elements are equal, and the code only swaps when the child is strictly preferred. The invariant is therefore that no child is strictly preferred to its parent.

## Model

| member | source | states |
|---|---|---|
| `BinaryHeap.ParentIdx` | exercises/algorithm/algorithm9.rs:61-63 | the slot is one of the parent's two children; for slots from 2 up, the parent is a smaller slot of at least 1 |
| `BinaryHeap.LeftChildIdx` | exercises/algorithm/algorithm9.rs:69-71 | the parent of the left child is the slot itself, and the child sits after it |
| `BinaryHeap.RightChildIdx` | exercises/algorithm/algorithm9.rs:73-75 | the parent of the right child is the slot itself, and it differs from the left child |
| `BinaryHeap.Swap` | exercises/algorithm/algorithm9.rs:53 | `Vec::swap`: the two slots exchange their values and every other slot keeps its value |
| `BinaryHeap.Heap.constructor` | exercises/algorithm/algorithm9.rs:22-28 | `new(comparator)`: count 0, only the sentinel slot, no live element, heap invariant holds |
| `BinaryHeap.Heap.NewMin` | exercises/algorithm/algorithm9.rs:106-108 | `new_min`: an empty valid heap with the `<` comparator |
| `BinaryHeap.Heap.NewMax` | exercises/algorithm/algorithm9.rs:110-112 | `new_max`: an empty valid heap with the `>` comparator |
| `BinaryHeap.NewMinHeap` | exercises/algorithm/algorithm9.rs:137-142 | `MinHeap::new`: a fresh empty valid heap with the `<` comparator |
| `BinaryHeap.NewMaxHeap` | exercises/algorithm/algorithm9.rs:149-154 | `MaxHeap::new`: a fresh empty valid heap with the `>` comparator |
| `BinaryHeap.Heap.Len` | exercises/algorithm/algorithm9.rs:30-32 | `len` is the number of live elements in the multiset |
| `BinaryHeap.Heap.IsEmpty` | exercises/algorithm/algorithm9.rs:34-36 | `is_empty` holds exactly when there is no live element |
| `BinaryHeap.Heap.ChildrenPresent` | exercises/algorithm/algorithm9.rs:65-67 | for a slot of at least 1: true exactly when some live slot has it as parent |
| `BinaryHeap.Heap.SmallestChildIdx` | exercises/algorithm/algorithm9.rs:77-86 | returns one of the slot's two children, and that child is live; the right child is chosen only when it is strictly preferred to the left one, so ties go left; no live child of the slot is strictly preferred to the result |
| `BinaryHeap.Heap.Add` | exercises/algorithm/algorithm9.rs:38-46 | keeps the invariant (a slot for every live element, heap property); count rises by one; live multiset gains the value; the vector grows only when no stale slot was free; the sentinel and the stale slots above count are unchanged |
| `BinaryHeap.Heap.HeapifyUp` | exercises/algorithm/algorithm9.rs:48-59 | starting from a heap faulty only at the link from `idx` to its parent, ends with a heap; the live multiset, the vector length, the sentinel and the stale slots are unchanged |
| `BinaryHeap.Heap.HeapifyDown` | exercises/algorithm/algorithm9.rs:88-99 | starting from a heap faulty only at the links below `idx`, ends with a heap; the live multiset, the vector length, the sentinel and the stale slots are unchanged |
| `BinaryHeap.Heap.Next` | exercises/algorithm/algorithm9.rs:121-130 | empty heap: `None`, nothing changes. Otherwise: returns the old root, which was live and is preferred-or-equal to every live element; count drops by one; the live multiset loses that value exactly once; the invariant is kept; slots outside the live range are unchanged |
| `BinaryHeap.PlaceAt` | exercises/algorithm/algorithm9.rs:40-44 | the write in `add`: the vector keeps its length when slot k exists and grows by one otherwise; slot k then holds the value and every other old slot is unchanged |
| `BinaryHeap.PlaceLast` | exercises/algorithm/algorithm9.rs:38-45 | writing slot n+1 of a heap of n elements gives a heap faulty only at the new slot's parent link, and the live multiset gains the written value |
| `BinaryHeap.MoveLastToRoot` | exercises/algorithm/algorithm9.rs:125-128 | copying the last live element to the root and dropping a slot gives a heap faulty only below the root, and the live multiset loses the old root |
| `BinaryHeap.SwapKeepsLive` | exercises/algorithm/algorithm9.rs:53 | swapping two live slots keeps the live multiset |
| `BinaryHeap.SiftUpStep` | exercises/algorithm/algorithm9.rs:50-54 | one sift-up swap moves the only fault one level up |
| `BinaryHeap.SiftUpDone` | exercises/algorithm/algorithm9.rs:50-57 | once the sift-up reaches the root, or stops because the parent is not beaten, the heap property holds |
| `BinaryHeap.SiftDownStep` | exercises/algorithm/algorithm9.rs:90-94 | one sift-down swap with the preferred child moves the fault one level down |
| `BinaryHeap.SiftDownDone` | exercises/algorithm/algorithm9.rs:90-97 | once the sift-down reaches a slot without live children, or one whose preferred child does not beat it, the heap property holds |
| `BinaryHeap.RootIsPreferred` | exercises/algorithm/algorithm9.rs:125 | in a heap, no live slot is strictly preferred to the root (induction up the parent chain) |
| `BinaryHeap.RootIsPreferredToLive` | exercises/algorithm/algorithm9.rs:125-129 | in a non-empty heap, no live element is strictly preferred to the root |
| `BinaryHeap.NextTwice` | exercises/algorithm/algorithm9.rs:121-130 | two extractions in a row come out in comparator order (non-decreasing with `<`, non-increasing with `>`); once exhausted, the heap stays exhausted |
| `BinaryHeap.AddLive` | exercises/algorithm/algorithm9.rs:38-46 | the view of `add` the test cases use: the invariant is kept and the live multiset gains the value |
| `BinaryHeap.FillLikeTests` | exercises/algorithm/algorithm9.rs:169-172 | the four `add` calls the min and max test cases begin with (also lines 184-187) take an empty valid heap to one whose live elements are 4, 2, 9, 11 |
| `BinaryHeap.NextLive` | exercises/algorithm/algorithm9.rs:121-130 | when one live element strictly beats every other live one, `next` returns exactly that element and the remaining live elements are the rest |
| `BinaryHeap.TestEmptyHeap` | exercises/algorithm/algorithm9.rs:161-164 | a fresh max-heap yields `None` |
| `BinaryHeap.TestMinHeap` | exercises/algorithm/algorithm9.rs:167-179 | min-heap fed 4, 2, 9, 11: length 4, then 2, 4, 9, then 1 after `add(1)` |
| `BinaryHeap.TestMaxHeap` | exercises/algorithm/algorithm9.rs:182-194 | max-heap fed 4, 2, 9, 11: length 4, then 11, 9, 4, then 2 after `add(1)` |
| `SearchTree.TreeNode.New` | exercises/algorithm/algorithm4.rs:31-37 | a childless node whose value set is just the value, which is trivially ordered |
| `SearchTree.TreeNode.Insert` | exercises/algorithm/algorithm4.rs:112-132 | `TreeNode::insert` builds the same tree as `insert_impl` for every node and value |
| `SearchTree.BinarySearchTree.New` | exercises/algorithm/algorithm4.rs:44-46 | the empty tree holds no value and is ordered |
| `SearchTree.BinarySearchTree.InsertImpl` | exercises/algorithm/algorithm4.rs:49-71 | value set becomes the old set plus the value; the ordering invariant is preserved; in an ordered tree, inserting a value already present returns the node unchanged; the node's own value stays |
| `SearchTree.BinarySearchTree.Insert` | exercises/algorithm/algorithm4.rs:74-85 | the same guarantees for the whole tree; inserting into an empty tree makes a single leaf root holding the value |
| `SearchTree.BinarySearchTree.Search` | exercises/algorithm/algorithm4.rs:88-104 | true only for a value in the tree; in an ordered tree, true for every value in it, so true exactly for its values; the loop terminates because the cursor moves to a strict subtree |
| `SearchTree.TestInsertAndSearch` | exercises/algorithm/algorithm4.rs:140-163 | 1 is absent from the empty tree; after inserting 5, 3, 7, 2, 4, all five are found and 1 and 6 are not |
| `SearchTree.TestInsertDuplicate` | exercises/algorithm/algorithm4.rs:166-184 | after inserting 1 twice, 1 is found and the root has no children |

## Left out

- Heap comparator: `Heap::new` accepts any `fn(&T, &T) -> bool`. The model's comparator is one of the two the source builds, `<` or `>`, as the datatype `Comparator`. Heaps over other strict weak orders are not modelled.
- Element types: both structures are generic in the source (`T: Default`, `T: Ord`). The model uses `int`, and the tests use `i32`.
- Sentinel: the `Default` value in slot 0 is modelled as `0`, the default of `i32`. Nothing reads it.
- `Copy`/`clone` of the extracted root is plain value copying in the model.
- The `Iterator` trait protocol and its combinators (`collect` and the rest). `next` is an ordinary method that returns an `Option`. A full drain of the heap is not a source operation, so the model has no lemma about draining into a sorted sequence. `NextTwice` states the pairwise order of consecutive extractions instead.
- `usize` overflow of `count` and of the index arithmetic `2*idx`, `2*idx+1`: indices are unbounded naturals.
- `Box` allocation and in-place mutation through `&mut` in the tree. The children are uniquely owned, so each insert is modelled as a function that returns the updated node. No aliasing is lost by this.
- `#[derive(Debug)]` and the `#[cfg(test)]` harness. The test bodies themselves are modelled as the `Test…` methods.
