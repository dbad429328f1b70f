# AVL tree and set-expression stack, modelled in Dafny

This project models two programs and proves what they promise.

**The AVL binary search tree** (`Module_3/AVL_BST/main.cpp`). The class
`AVLBinaryTree<T>` owns a tree of `Node<T>` records. Each record holds a key,
its stored `level` (the height of the subtree it roots) and two children. The
tree stores unique keys and answers three console commands: `+ key` (insert),
`- key` (remove) and `? key` (search). Each command prints `OK` or `FAIL`.
Every routine that restructures a subtree (`insert`, `remove`, `remove_min`,
`balance`, the rotations) returns the new root of the subtree it was given. Here each of
them is a function from `Tree` to `Tree`. The class `AvlTree.AvlBinaryTree`
keeps the root in a field and its methods store the new root. The proofs
show that insert and remove keep three properties together:

- binary-search order;
- exact levels;
- AVL balance.

They also show that the key set changes exactly as the command says, that the
printed signal is right, and that the height stays logarithmic.

**The set-expression evaluator** (`B/main.c`). A stack is generated by
`DECLARE_STACK` as a heap buffer with a live count and a capacity
(`GrowableStack.Stack`). It evaluates expressions over integer sets: `U`
(union), `\` (difference) and `^` (intersection). Operands sit on one int
stack, each written as its elements followed by its size. An operator takes
the two topmost operands off with `GetSet` and pushes its result in the same
encoding (`SetExpression.ProcessOperation`). The proofs cover two things:

- Each step keeps this encoding.
- Read as sets, the results are the union, difference and intersection of
  the operands.

Verifying this exposed a wrong size marker in the difference case (see
Findings).

Files: `avl_tree.dfy` (module `AvlTree`), `stack.dfy` (module
`GrowableStack`), `set_expression.dfy` (module `SetExpression`).

## Model

| member | source | states |
|---|---|---|
| AvlTree.Level | Module_3/AVL_BST/main.cpp:82-84 | an absent node has level 0; a present node's level is its subtree's real height whenever levels are exact |
| AvlTree.BFactor | Module_3/AVL_BST/main.cpp:87-89 | the balance factor of an exact node is the right subtree's height minus the left one's |
| AvlTree.FixHeight | Module_3/AVL_BST/main.cpp:92-96 | key and children are unchanged, and the node's level becomes exact once its children's levels are |
| AvlTree.RotateRight | Module_3/AVL_BST/main.cpp:99-108 | the former left child becomes the root with the old root as its right child; in-order key sequence and key set are preserved; all levels are exact when the three subtrees that move are exact |
| AvlTree.RotateLeft | Module_3/AVL_BST/main.cpp:111-120 | the mirror image of RotateRight |
| AvlTree.RotateRightOrdered | Module_3/AVL_BST/main.cpp:99-108 | a right rotation keeps binary-search order |
| AvlTree.RotateLeftOrdered | Module_3/AVL_BST/main.cpp:111-120 | a left rotation keeps binary-search order |
| AvlTree.RotateRightAvl | Module_3/AVL_BST/main.cpp:99-108 | on a left-heavy node whose parts are AVL and fit together, the rotation gives an AVL subtree of the stated height |
| AvlTree.RotateLeftAvl | Module_3/AVL_BST/main.cpp:111-120 | the mirror image of RotateRightAvl |
| AvlTree.Balance | Module_3/AVL_BST/main.cpp:123-145 | balance returns a node with the same in-order keys and key set |
| AvlTree.BalanceRightHeavy | Module_3/AVL_BST/main.cpp:126-133 | a node whose right side is two levels higher becomes an AVL subtree of height h or h+1, where h is the right side's height |
| AvlTree.RightLeftAvl | Module_3/AVL_BST/main.cpp:128-132 | the double rotation (right child first rotated right) yields an AVL subtree when that child leans left |
| AvlTree.BalanceLeftHeavy | Module_3/AVL_BST/main.cpp:135-142 | the mirror image of BalanceRightHeavy |
| AvlTree.LeftRightAvl | Module_3/AVL_BST/main.cpp:137-141 | the mirror image of RightLeftAvl |
| AvlTree.BalanceAvl | Module_3/AVL_BST/main.cpp:123-145 | on AVL children with heights differing by at most two, balance returns an AVL subtree; its height is the taller child's or one more, and exactly one more when the children already differed by at most one |
| AvlTree.BalanceIdentity | Module_3/AVL_BST/main.cpp:123-145 | balance leaves a node that is already AVL untouched, level included |
| AvlTree.GrowLeft | Module_3/AVL_BST/main.cpp:155-161 | rebalancing after the left child grew by at most one level gives an AVL subtree at most one level higher |
| AvlTree.GrowRight | Module_3/AVL_BST/main.cpp:157-161 | the mirror image of GrowLeft |
| AvlTree.ShrinkLeft | Module_3/AVL_BST/main.cpp:192-215 | rebalancing after the left child shrank by at most one level gives an AVL subtree at most one level lower |
| AvlTree.ShrinkRight | Module_3/AVL_BST/main.cpp:194-215 | the mirror image of ShrinkLeft |
| AvlTree.InsertNode | Module_3/AVL_BST/main.cpp:149-162 | insert returns a non-empty subtree holding the old keys plus the new one, and signals OK for an absent key |
| AvlTree.InsertAvl | Module_3/AVL_BST/main.cpp:149-162 | insert keeps the AVL invariant, signals OK exactly when the key was absent, and raises the height by at most one |
| AvlTree.InsertBelow | Module_3/AVL_BST/main.cpp:155-161 | one insert step into the left subtree keeps the invariant and the height bound |
| AvlTree.InsertAbove | Module_3/AVL_BST/main.cpp:157-161 | one insert step into the right subtree keeps the invariant and the height bound |
| AvlTree.InsertPresent | Module_3/AVL_BST/main.cpp:153-161 | inserting a present key signals FAIL and returns the same tree, shape and levels included |
| AvlTree.FindMin | Module_3/AVL_BST/main.cpp:171-173 | find_min returns a node of the subtree that has no left child |
| AvlTree.FindMinIsLeast | Module_3/AVL_BST/main.cpp:171-173 | in an ordered subtree, find_min's key is the smallest key |
| AvlTree.RemoveMin | Module_3/AVL_BST/main.cpp:176-183 | remove_min removes exactly the key find_min reports |
| AvlTree.RemoveMinAvl | Module_3/AVL_BST/main.cpp:176-183 | remove_min keeps the AVL invariant, removes only the least key, and lowers the height by at most one |
| AvlTree.RemoveNode | Module_3/AVL_BST/main.cpp:186-216 | remove drops at most the given key, keeps every other key, and signals OK only for a present key |
| AvlTree.RemoveAvl | Module_3/AVL_BST/main.cpp:186-216 | remove keeps the AVL invariant, deletes exactly the given key, signals OK exactly when it was present, and lowers the height by at most one |
| AvlTree.RemoveBelow | Module_3/AVL_BST/main.cpp:192-215 | one remove step in the left subtree keeps the invariant and the height bound |
| AvlTree.RemoveAbove | Module_3/AVL_BST/main.cpp:194-215 | one remove step in the right subtree keeps the invariant and the height bound |
| AvlTree.SpliceSuccessorAvl | Module_3/AVL_BST/main.cpp:204-212 | replacing a node that has a right child by its in-order successor gives an AVL subtree without the node's key, at most one level lower |
| AvlTree.SplicePieces | Module_3/AVL_BST/main.cpp:208-212 | the left subtree, the successor and the right subtree without the successor are AVL, correctly ordered, and hold exactly the other keys |
| AvlTree.SuccessorFits | Module_3/AVL_BST/main.cpp:208-210 | the successor lies above every key on the left and below every key remove_min leaves on the right |
| AvlTree.RemoveAbsent | Module_3/AVL_BST/main.cpp:186-216 | removing an absent key signals FAIL and returns the same tree |
| AvlTree.Lookup | Module_3/AVL_BST/main.cpp:225-238 | the descent finds a node only if it holds the key and the key is in the tree; in an ordered tree it finds one whenever the key is present |
| AvlTree.SearchNode | Module_3/AVL_BST/main.cpp:225-238 | the cursor loop returns what the recursive descent Lookup returns |
| AvlTree.KeysAreUnique | Module_3/AVL_BST/main.cpp:149-162 | an ordered tree has as many distinct keys as nodes: no key is stored twice |
| AvlTree.BalancedSizeBound | Module_3/AVL_BST/main.cpp:123-145 | a balanced tree of height h has at least 2^(h/2) - 1 nodes |
| AvlTree.BalancedFibBound | Module_3/AVL_BST/main.cpp:123-145 | a balanced tree of height h has at least Fib(h+2) - 1 nodes: the Fibonacci tree is the sparsest |
| AvlTree.AvlHeightBound | Module_3/AVL_BST/main.cpp:123-145 | an AVL tree with n keys and height h satisfies Fib(h+2) <= n+1, the classical bound h <= about 1.44 log2(n+2); also 2^(h/2) <= n+1 |
| AvlTree.AvlBinaryTree.constructor | Module_3/AVL_BST/main.cpp:21-25 | a new tree is empty and satisfies the invariant |
| AvlTree.AvlBinaryTree.Insert | Module_3/AVL_BST/main.cpp:165-167 | the stored root becomes insert's result; the invariant holds; the key set gains the key; OK exactly when it was absent; on FAIL the tree is unchanged |
| AvlTree.AvlBinaryTree.Remove | Module_3/AVL_BST/main.cpp:219-221 | the stored root becomes remove's result; the invariant holds; the key set loses the key; OK exactly when it was present; on FAIL the tree is unchanged |
| AvlTree.AvlBinaryTree.Search | Module_3/AVL_BST/main.cpp:241-243 | search finds a node exactly when the key is stored, and that node holds the key |
| AvlTree.Execute | Module_3/AVL_BST/main.cpp:258-268 | `+` gives the old keys plus the key; `-` keeps every other key and adds none; `?` leaves the tree as it is and answers OK only for a stored key |
| AvlTree.Run | Module_3/AVL_BST/main.cpp:249-268 | the command loop prints exactly one OK or FAIL line per command |
| AvlTree.RunMatchesSet | Module_3/AVL_BST/main.cpp:249-268 | any command session from an AVL tree prints what the same session prints against the plain set of its keys |
| AvlTree.SampleSession | Module_3/AVL_BST/main.cpp:249-268 | the session `+ a, + b, + a, ? a, - a, ? a, - a` on an empty tree prints OK, OK, FAIL, OK, OK, FAIL, FAIL |
| GrowableStack.Min | B/main.c:10 | the compare macro yields the smaller argument |
| GrowableStack.Copy | B/main.c:51-62 | the first count slots of the target receive the source's, and the rest of the target is untouched |
| GrowableStack.Stack.constructor | B/main.c:21-34 | a new stack is empty with capacity 0 |
| GrowableStack.Stack.Resize | B/main.c:64-85 | the buffer is fresh with capacity new_size, the live count is unchanged, and the first min(live count, new_size) elements survive |
| GrowableStack.Stack.Reserve | B/main.c:87-102 | the live count becomes size; the capacity becomes 2*size when it was at most size and is kept otherwise; the elements below both counts survive |
| GrowableStack.Stack.Push | B/main.c:104-107 | the live elements become the old ones followed by the value |
| GrowableStack.Stack.Pop | B/main.c:109-118 | on a non-empty stack, the last element is returned and dropped, and the rest are unchanged |
| GrowableStack.Stack.Top | B/main.c:128-130 | the last live element |
| GrowableStack.Stack.Size | B/main.c:132-134 | the number of live elements |
| GrowableStack.Stack.Empty | B/main.c:136-138 | true exactly when no element is live |
| SetExpression.IsValidSymbol | B/main.c:177-190 | true exactly for the characters `0123456789-,U()[]^\`, that is, digits, operators and `-,()[]` |
| SetExpression.IsOperator | B/main.c:192-194 | every operator character is a valid symbol; with PriorityRanksOperators, the operators are exactly the characters of positive priority |
| SetExpression.Priority | B/main.c:196-198 | the priority is -1, 1 or 2 |
| SetExpression.PriorityRanksOperators | B/main.c:192-198 | exactly U, ^ and \ have positive priority; only ^ has priority 2; every operator is a valid symbol |
| SetExpression.DecodeEncode | B/main.c:200-206 | the topmost operand of an encoded stack is read back whole, and what lies below is the encoding of the other operands |
| SetExpression.GetSet | B/main.c:200-206 | the marker and the operand are popped, and the buffer receives the operand's elements reversed |
| SetExpression.Count | B/main.c:208-219 | the number of occurrences of the element among the live entries |
| SetExpression.IsIn | B/main.c:221-230 | true exactly when the element is live, which is when its count is positive |
| SetExpression.PushAll | B/main.c:251-253 | the target receives all live elements of the source, in order |
| SetExpression.PushIfMissing | B/main.c:246-248 | the element is pushed exactly when Count does not find it |
| SetExpression.UnionInto | B/main.c:244-249 | the left operand is extended as AddMissing describes |
| SetExpression.UnionContents | B/main.c:242-257 | union keeps the left operand and appends only right elements it lacked; the result holds the elements of both; the appended elements are pairwise distinct, and the result is duplicate-free whenever the left operand is |
| SetExpression.DifferenceInto | B/main.c:261-266 | the stack receives exactly the left elements absent from the right, in order |
| SetExpression.DifferenceContents | B/main.c:259-270 | difference keeps each left element absent from the right with its multiplicity and drops the rest; as sets it is left minus right |
| SetExpression.IntersectionInto | B/main.c:274-282 | the buffer ends as the distinct left elements that occur in the right, in order |
| SetExpression.PushIfCommon | B/main.c:276-281 | the inner loop pushes the element once when it occurs on the right and is not yet in the buffer |
| SetExpression.IntersectionContents | B/main.c:272-291 | intersection holds exactly the common elements, each once |
| SetExpression.TakeOperands | B/main.c:233-237 | the right operand is taken first, then the left one, each reversed into a fresh stack |
| SetExpression.UnionCase | B/main.c:242-257 | the union result and its size are pushed |
| SetExpression.DifferenceCase | B/main.c:259-270 | the difference result and its own size are pushed |
| SetExpression.IntersectionCase | B/main.c:272-291 | the intersection result and its size are pushed |
| SetExpression.ProcessOperation | B/main.c:232-296 | the stack becomes Step of the old stack: the two top operands are replaced by the operator's result and its size; any other character drops both |
| SetExpression.Step | B/main.c:232-296 | one operator step with the size marker evidently intended: the operands below the two topmost are untouched; an operator leaves one framed operand on top of them; any other character leaves only them |
| SetExpression.StepAsWritten | B/main.c:232-296 | the step as written agrees with Step for every character except `\`, and leaves the operands below the two topmost untouched |
| SetExpression.StepKeepsEncoding | B/main.c:232-296 | a step on an encoded stack leaves the encoding of the operands below plus the result, so the next operator finds its operands |
| SetExpression.CombineMeaning | B/main.c:240-292 | read as sets, U is union, \ is difference and ^ is intersection of the operands; ^ never repeats an element |
| SetExpression.AsWrittenWithoutPrefix | B/main.c:268 | with nothing below the two operands, the marker pushed as written is the right one |
| SetExpression.AsWrittenDifferenceMarker | B/main.c:268 | with any operand below, the difference step as written does not leave an encoded stack |
| SetExpression.DifferenceMarkerExample | B/main.c:259-270 | for [5]U([1,2]\[2]), the step as written leaves [5,1,1,3], where the next union finds only one operand; the intended step leaves [5,1,1,1], the encoding of [5] and [1] |

## Left out

- Console I/O: the `std::cin` command loop and the `OK`/`FAIL` lines are modelled as returned `Signal` values and as `Run`. The `fgetc` read loop, `STACK_PRINT` and every `fprintf` are not modelled.
- Memory management: `new`/`delete`, `clear_tree` and the destructor; `malloc`/`free`, `STACK_DESTRUCT` and the early returns on a null allocation or null argument. Dafny's heap is garbage-collected and allocation never fails.
- Node identity: tree nodes are values, so the in-place pointer rewiring of the rotations and the reuse of the successor node in `remove` are modelled by the subtrees they produce. Aliasing between nodes is not modelled.
- Keys are `int`, not `std::string`; only the total order on keys (`<`, `==`, `>`) is used.
- `node_level` and `bfactor` return references to temporaries, and `bfactor` subtracts `size_t` values before the cast. Both are modelled as plain integer values.
- A buffer that does not exist yet (the null `base` of a new stack) is an empty array. New buffer slots start with the element type's default value, where `malloc` leaves them uninitialised. Only live slots are ever specified.
- GrowableStack.Stack.Reserve: the unsigned subtraction stored in an `int` is modelled as an exact comparison of unbounded integers. The wrap-around for sizes beyond `INT_MAX` is not modelled, and neither is the pointer arithmetic on `next_item`, which is the index `containerSize`.
- GrowableStack.Stack.Pop: popping an empty stack ends the program with `exit(0)`; this is a precondition.
- GrowableStack.Stack.Top: reading the top of an empty stack reads outside the buffer; this is a precondition.
- SetExpression.GetSet: a size marker that is negative or larger than what lies below it makes the loop pop until the empty-stack exit. This is the precondition that the marker fits (`Framed`).
- SetExpression.ProcessOperation: implements the corrected difference marker. The marker as written is modelled by `StepAsWritten` (see Findings).
- Integer width: elements and the `(int)` casts of sizes are unbounded integers.
- An input line whose command character is not `+`, `-` or `?` is read and ignored by the `switch` of `main` in `Module_3/AVL_BST/main.cpp` (lines 258-268), without output. `Command` has only the three commands, so such lines are not modelled.
- The tokenising loop of `main` in `B/main.c` (lines 327-378), with `atoi` and `isdigit`, the final `qsort` and the output of the result set are not modelled.
- AvlTree.RemoveNode: its own contract bounds the key set between `Keys(t) - {x}` and `Keys(t)`. The exact key set and the signal's "if and only if" need the tree invariant and are stated by AvlTree.RemoveAvl.
- AvlTree.Balance: its own contract states only key preservation. Balance and height facts need balanced children and are stated by AvlTree.BalanceAvl.

## Findings

| source | as written | input that shows it | evidently intended | confidence | as-written member | corrected member |
|---|---|---|---|---|---|---|
| B/main.c:268 | the difference case pushes `SIZE(multiset)`, the size of the whole stack, as the result's size marker | `[5]U([1,2]\[2])`: at the `\` the stack is [5,1,1,2,2,2,1] and becomes [5,1,1,3]. The union then takes all three entries below the marker as one operand, and its second `GetSet` pops an empty stack, which ends the program through `exit(0)` before any result is printed | push the number of elements the difference pushed, so the stack encodes [5] and [1] and the result is [1,5] | not executed | SetExpression.StepAsWritten, SetExpression.DifferenceMarkerExample | SetExpression.Step, SetExpression.StepKeepsEncoding |
