# Algorithms exercises in Dafny

A Dafny model of the core of a collection of algorithms-course exercises in
Java and C++, with proofs of what each program promises:

- **Union-find.**
  - Weighted quick-union with full path compression.
  - The social-network variant, which halves paths, remembers the largest member of every component and finds the earliest moment a friendship log connects everybody.
  - Percolation on an n-by-n grid, with a virtual top node and a virtual bottom node.

  All three share one parent-link forest (`UnionFindForest`). Its invariant is that sizes strictly increase along parent links, which is what makes every walk to a root terminate.
- **Containers.**
  - The stack with a constant-time maximum.
  - The queue made of two stacks.
  - The Java and C++ deques, both over one doubly linked list kept in a node arena.
  - The Java randomized queue, a resizing array.
  - The C++ randomized queue, a singly linked list.

  Each container has an abstraction function to the sequence of its items, and its operations are specified against that sequence.
- **Searches and array algorithms.**
  - Bitonic search (the Java and C++ copies share one model).
  - The four egg-drop strategies.
  - Two Sum and Three Sum.
  - The Dutch national flag partition.
  - The permutation test.
  - Two-dimensional intersection counting.
- **Geometry.**
  - `Point`'s order and slopes.
  - The 2d-tree's insert, contains, size, isEmpty and range.
- **The 8-puzzle.**
  - The board constructor and `dimension()`.
  - The A* solver's node bookkeeping, queue step and path reconstruction.

  Board's other methods have no implementation in the program. The solver therefore takes `manhattan`, `isGoal`, `equals`, `neighbors` and `twin` as parameters.

## Modelling choices

- Exceptions become `Result` values (`Wrappers`). The Java ones are IllegalArgument, NegativeArraySize, NoSuchElement and UnsupportedOperation; the C++ ones are OutOfRange (`std::out_of_range`) and RuntimeError (`std::runtime_error`). A Java argument that may be null is an `Option`.
- Integers are unbounded. The 32-bit behaviour is written out in two places: the int32 cast in egg drop's version 2, and the int subtraction in `slopeTo` (`Points.SlopeToInt32`). The other overflows are not modelled; each is named under "## Left out".
- Randomness is a parameter:
  - the random index of `dequeue()` and `sample()`;
  - the swap offsets of the iterators' shuffle, a Fisher-Yates shuffle.
- The library containers the programs use, other than the modelled ones, are sequences, sets, maps or multisets:
  - algs4's `MinPQ` is a multiset with removal of a minimum;
  - `Stack` is a sequence;
  - hash maps are maps.
- algs4's `WeightedQuickUnionUF`, which Percolation uses, is modelled by the path-compression union-find of the first exercise. The two answer the same connectivity questions.
- The library sorts (`Arrays.sort`, `std::sort`) are one functional sort. Any sort gives the same answer, because the sorted permutation of a sequence is unique (`ThreeSum.SortedPermutationUnique`).
- Point2D and RectHV coordinates are exact reals, because the 2d-tree only compares them. Slopes of `Point` are exact fractions.
- The board's design describes a validating constructor and implemented board metrics, but the program's constructor copies the grid without checks and leaves the other methods without bodies. The model follows the program.

## Model

| member | source | states |
|---|---|---|
| WeightedQuickUnionPathCompression.New | s00ex00_Various_Topics/WeightedQuickUnionPathCompression/WeightedQuickUnionPathCompression/src/WeightedQuickUnionPathCompressionUF.java:55-67 | n < 0 gives IllegalArgument; otherwise count is n, every size is 1 and two elements share a component exactly when they are equal |
| WeightedQuickUnionPathCompression.CountBounds | s00ex00_Various_Topics/WeightedQuickUnionPathCompression/WeightedQuickUnionPathCompression/src/WeightedQuickUnionPathCompressionUF.java:75-79 | with at least one element the count stays between 1 and n, and it is 1 exactly when every pair is connected |
| WeightedQuickUnionPathCompression.Compress | s00ex00_Various_Topics/WeightedQuickUnionPathCompression/WeightedQuickUnionPathCompression/src/WeightedQuickUnionPathCompressionUF.java:99-104 | the compression loop repoints exactly the nodes on p's path at the root, leaves every other link alone and changes no element's root |
| WeightedQuickUnionPathCompression.Find | s00ex00_Various_Topics/WeightedQuickUnionPathCompression/WeightedQuickUnionPathCompression/src/WeightedQuickUnionPathCompressionUF.java:92-106 | IllegalArgument exactly when p is out of range; otherwise returns p's root, the partition and the canonical elements are unchanged, and only p's path is relinked |
| WeightedQuickUnionPathCompression.FindFlattens | s00ex00_Various_Topics/WeightedQuickUnionPathCompression/WeightedQuickUnionPathCompression/src/WeightedQuickUnionPathCompressionUF.java:99-105 | after find(p), p points straight at its root and a second find(p) changes nothing more |
| WeightedQuickUnionPathCompression.Connected | s00ex00_Various_Topics/WeightedQuickUnionPathCompression/WeightedQuickUnionPathCompression/src/WeightedQuickUnionPathCompressionUF.java:118-120 | IllegalArgument when either index is out of range; otherwise true exactly when p and q were in one component, with the partition unchanged |
| WeightedQuickUnionPathCompression.Link | s00ex00_Various_Topics/WeightedQuickUnionPathCompression/WeightedQuickUnionPathCompression/src/WeightedQuickUnionPathCompressionUF.java:140-147 | hanging one root under another keeps the forest weighted, adds the sizes, decrements count by one and moves exactly the hung tree's elements to the other root |
| WeightedQuickUnionPathCompression.LinkMerges | s00ex00_Various_Topics/WeightedQuickUnionPathCompression/WeightedQuickUnionPathCompression/src/WeightedQuickUnionPathCompressionUF.java:139-147 | linking the two roots joins exactly the components of p and q and no others |
| WeightedQuickUnionPathCompression.Union | s00ex00_Various_Topics/WeightedQuickUnionPathCompression/WeightedQuickUnionPathCompression/src/WeightedQuickUnionPathCompressionUF.java:132-148 | IllegalArgument for an out-of-range index; already-connected elements leave count as it was; otherwise the smaller-size root goes under the other, sizes add up, count drops by exactly one, and exactly the two components merge |
| WeightedQuickUnionPathCompression.SameComponentsMerged | s00ex00_Various_Topics/WeightedQuickUnionPathCompression/WeightedQuickUnionPathCompression/src/WeightedQuickUnionPathCompressionUF.java:136-137 | a union of connected elements merges nothing |
| WeightedQuickUnionPathCompression.MergedKeepsJoined | s00ex00_Various_Topics/WeightedQuickUnionPathCompression/WeightedQuickUnionPathCompression/src/WeightedQuickUnionPathCompressionUF.java:132-148 | after a union p and q are connected and no pair that was connected is separated |
| WeightedQuickUnionPathCompression.Step | s00ex00_Various_Topics/WeightedQuickUnionPathCompression/WeightedQuickUnionPathCompression/src/WeightedQuickUnionPathCompressionUF.java:179-185 | one client iteration: a connected pair is skipped (count unchanged); a new pair is joined and reported, and count drops by one |
| WeightedQuickUnionPathCompression.Client | s00ex00_Various_Topics/WeightedQuickUnionPathCompression/WeightedQuickUnionPathCompression/src/WeightedQuickUnionPathCompressionUF.java:175-187 | the client loop fails exactly on an out-of-range pair; otherwise every pair ends up connected and the final count is n less the number of pairs printed |
| UnionFindForest.AboveShrinks | s00ex00_Various_Topics/WeightedQuickUnionPathCompression/WeightedQuickUnionPathCompression/src/WeightedQuickUnionPathCompressionUF.java:140-146 | sizes grow strictly along parent links, so the number of larger elements is a termination measure for find |
| UnionFindForest.Root | s00ex00_Various_Topics/WeightedQuickUnionPathCompression/WeightedQuickUnionPathCompression/src/WeightedQuickUnionPathCompressionUF.java:94-98 | following parent links ends at a self-parented element |
| UnionFindForest.OnPathFacts | s00ex00_Various_Topics/WeightedQuickUnionPathCompression/WeightedQuickUnionPathCompression/src/WeightedQuickUnionPathCompressionUF.java:94-98 | every node on p's path has p's root and a size at least p's, strictly larger unless it is p |
| UnionFindForest.RootOnPath | s00ex00_Various_Topics/WeightedQuickUnionPathCompression/WeightedQuickUnionPathCompression/src/WeightedQuickUnionPathCompressionUF.java:94-98 | the root find returns lies on p's parent chain |
| UnionFindForest.RootOfSelf | s00ex00_Various_Topics/WeightedQuickUnionPathCompression/WeightedQuickUnionPathCompression/src/WeightedQuickUnionPathCompressionUF.java:96 | an element is its own root exactly when it is its own parent |
| UnionFindForest.RelinkPreservesRoots | s00ex00_Various_Topics/WeightedQuickUnionPathCompression/WeightedQuickUnionPathCompression/src/WeightedQuickUnionPathCompressionUF.java:100-104 | pointing a path node at its root keeps the forest valid and changes no element's root |
| UnionFindForest.RelinkRoot | s00ex00_Various_Topics/WeightedQuickUnionPathCompression/WeightedQuickUnionPathCompression/src/WeightedQuickUnionPathCompressionUF.java:100-104 | the same for one element, by induction along its path |
| UnionFindForest.PathAvoiding | s00ex00_Various_Topics/WeightedQuickUnionPathCompression/WeightedQuickUnionPathCompression/src/WeightedQuickUnionPathCompressionUF.java:100-104 | relinking a node off i's path leaves i's path unchanged |
| UnionFindForest.LinkRoots | s00ex00_Various_Topics/WeightedQuickUnionPathCompression/WeightedQuickUnionPathCompression/src/WeightedQuickUnionPathCompressionUF.java:140-146 | hanging root c under root r keeps the forest valid, and exactly c's tree moves to root r |
| UnionFindForest.LinkRoot | s00ex00_Various_Topics/WeightedQuickUnionPathCompression/WeightedQuickUnionPathCompression/src/WeightedQuickUnionPathCompressionUF.java:140-146 | the same for one element |
| UnionFindForest.SameRootsSameBookkeeping | s00ex00_Various_Topics/WeightedQuickUnionPathCompression/WeightedQuickUnionPathCompression/src/WeightedQuickUnionPathCompressionUF.java:99-104 | a forest giving every element the same root has the same roots and the same exact sizes |
| UnionFindForest.LinkRootSet | s00ex00_Various_Topics/WeightedQuickUnionPathCompression/WeightedQuickUnionPathCompression/src/WeightedQuickUnionPathCompressionUF.java:140-147 | linking removes exactly one root, matching count-- |
| UnionFindForest.LinkSizesExact | s00ex00_Various_Topics/WeightedQuickUnionPathCompression/WeightedQuickUnionPathCompression/src/WeightedQuickUnionPathCompressionUF.java:140-146 | after a link every root's size is still the number of elements in its tree |
| UnionFindForest.RootsBounds | s00ex00_Various_Topics/WeightedQuickUnionPathCompression/WeightedQuickUnionPathCompression/src/WeightedQuickUnionPathCompressionUF.java:75-79 | between 1 and n roots for n at least 1 |
| UnionFindForest.OneRootIffAllJoined | s00ex00_Various_Topics/WeightedQuickUnionPathCompression/WeightedQuickUnionPathCompression/src/WeightedQuickUnionPathCompressionUF.java:75-79 | a single root exactly when all elements are connected |
| SocialNetworkConnection.New | 02_2_Social_Network_Connectivity/SocialNetwork/src/SocialNetworkConnection.java:46-56 | a negative n fails as the array allocation does; otherwise n singletons, count n, each element its own largest, and two elements are connected only when equal |
| SocialNetworkConnection.Halve | 02_2_Social_Network_Connectivity/SocialNetwork/src/SocialNetworkConnection.java:65-68 | path halving keeps the forest valid, changes no element's root, and touches only links on p's path |
| SocialNetworkConnection.Find | 02_2_Social_Network_Connectivity/SocialNetwork/src/SocialNetworkConnection.java:63-70 | IllegalArgument exactly when p is out of range; otherwise p's root, with the partition, sizes and largest entries unchanged |
| SocialNetworkConnection.FindLargest | 02_2_Social_Network_Connectivity/SocialNetwork/src/SocialNetworkConnection.java:77-80 | the returned element is in p's component and no element of p's component is larger |
| SocialNetworkConnection.Connected | 02_2_Social_Network_Connectivity/SocialNetwork/src/SocialNetworkConnection.java:114-116 | IllegalArgument for an out-of-range index; otherwise true exactly when p and q share a component |
| SocialNetworkConnection.Count | 02_2_Social_Network_Connectivity/SocialNetwork/src/SocialNetworkConnection.java:122-124 | count() equals the number of roots, that is, of components |
| SocialNetworkConnection.Link | 02_2_Social_Network_Connectivity/SocialNetwork/src/SocialNetworkConnection.java:96-105 | the merge of the weighted forest, with count one lower and the largest element of every component still recorded at its root |
| SocialNetworkConnection.LinkKeepsLargest | 02_2_Social_Network_Connectivity/SocialNetwork/src/SocialNetworkConnection.java:96-104 | the surviving root's largest is the maximum of both components' largest, so largest stays exact |
| SocialNetworkConnection.Union | 02_2_Social_Network_Connectivity/SocialNetwork/src/SocialNetworkConnection.java:89-106 | IllegalArgument for an out-of-range index; count drops by one exactly when the roots differ; exactly the two components merge and largest stays exact |
| SocialNetworkConnection.ReachStep | 02_2_Social_Network_Connectivity/SocialNetwork/src/SocialNetworkConnection.java:151-157 | after processing entry k the structure's components are exactly the friendship components of the first k+1 logs |
| SocialNetworkConnection.CountOneIffFull | 02_2_Social_Network_Connectivity/SocialNetwork/src/SocialNetworkConnection.java:159 | count() == 1 exactly when the friendships so far connect all members |
| SocialNetworkConnection.ProcessEntry | 02_2_Social_Network_Connectivity/SocialNetwork/src/SocialNetworkConnection.java:152-161 | one log entry: IllegalArgument for an out-of-range member, otherwise the union keeps components equal to the friendship components |
| SocialNetworkConnection.FindEarliestConnection | 02_2_Social_Network_Connectivity/SocialNetwork/src/SocialNetworkConnection.java:148-165 | the timestamp of the first entry after which everyone is connected; -1 when that never happens (also for an empty log, whatever n); the error of the first out-of-range entry met before that |
| Percolation.To1DIndex | 02_1_Prelocation_Treshold/src/Percolation.java:119-122 | a valid (row, col) maps to an element below n², the virtual top, with quotient row-1 and remainder col-1, so distinct sites get distinct elements |
| Percolation.IndexOfElement | 02_1_Prelocation_Treshold/src/Percolation.java:119-122 | every grid element is the index of exactly one valid site |
| Percolation.SiteSide | 02_1_Prelocation_Treshold/src/Percolation.java:119-122 | which side of row k a site's element lies on depends on its row alone |
| Percolation.MergedRespected | 02_1_Prelocation_Treshold/src/Percolation.java:100-115 | joining two elements on the same side of a closed row keeps every component on one side |
| Percolation.SingletonsRespected | 02_1_Prelocation_Treshold/src/Percolation.java:24 | the fresh union-find structure crosses no row |
| Percolation.Join | 02_1_Prelocation_Treshold/src/Percolation.java:95-117 | unionFind.union joins exactly the two components and separates nothing |
| Percolation.LinkColumn | 02_1_Prelocation_Treshold/src/Percolation.java:31-34 | one constructor iteration links column col of the first row to the virtual top and of the last row to the virtual bottom, crossing no row |
| Percolation.ColumnRowsRespected | 02_1_Prelocation_Treshold/src/Percolation.java:32-33 | the constructor's joins only join first-row sites to the top and last-row sites to the bottom, so no component crosses a row |
| Percolation.ColumnLinked | 02_1_Prelocation_Treshold/src/Percolation.java:31-34 | after the iteration for col, the first- and last-row sites of columns 1..col are joined to their virtual nodes |
| Percolation.New | 02_1_Prelocation_Treshold/src/Percolation.java:18-35 | n <= 0 gives IllegalArgument; otherwise every site is blocked, the count is 0, the first and last rows are joined to the virtual nodes and no component crosses a row |
| Percolation.IsOpen | 02_1_Prelocation_Treshold/src/Percolation.java:60-132 | IllegalArgument exactly for an invalid site; otherwise true exactly when the site has been opened |
| Percolation.NumberOfOpenSites | 02_1_Prelocation_Treshold/src/Percolation.java:82-84 | the counter equals the number of distinct open sites |
| Percolation.IsFull | 02_1_Prelocation_Treshold/src/Percolation.java:72-75 | IllegalArgument exactly for an invalid site; otherwise true exactly when the site is open and joined to the virtual top, so full implies open |
| Percolation.Percolates | 02_1_Prelocation_Treshold/src/Percolation.java:91-93 | true exactly when the virtual top and virtual bottom are joined |
| Percolation.OpenNeighbours | 02_1_Prelocation_Treshold/src/Percolation.java:95-117 | the elements connectNeighbors joins are exactly the valid, open sites one step above, below, left or right |
| Percolation.CandidateExact | 02_1_Prelocation_Treshold/src/Percolation.java:99-115 | one neighbour check contributes a site's element exactly when that site is valid and open |
| Percolation.SameGridSameNeighbours | 02_1_Prelocation_Treshold/src/Percolation.java:95-117 | the neighbours joined depend on the site grid alone |
| Percolation.NearExtend | 02_1_Prelocation_Treshold/src/Percolation.java:95-117 | being joined to the current site or to the neighbours so far grows by exactly one neighbour per union |
| Percolation.MergedAllStep | 02_1_Prelocation_Treshold/src/Percolation.java:99-116 | one more union merges one more neighbour's component into the current site's |
| Percolation.JoinAll | 02_1_Prelocation_Treshold/src/Percolation.java:95-117 | the unions of connectNeighbors merge exactly the current site's component with those of the listed neighbours |
| Percolation.MergedAllCoarser | 02_1_Prelocation_Treshold/src/Percolation.java:95-117 | connectNeighbors separates nothing and joins the site to each listed neighbour |
| Percolation.MergedAllRespected | 02_1_Prelocation_Treshold/src/Percolation.java:95-117 | merging neighbours that lie on the site's side of a closed row keeps that row uncrossed |
| Percolation.OpenSite | 02_1_Prelocation_Treshold/src/Percolation.java:47 | the grid with that site open: the shape is kept, exactly that flag turns true, and the open set gains exactly that site |
| Percolation.ConnectNeighbors | 02_1_Prelocation_Treshold/src/Percolation.java:95-117 | connectNeighbors merges the new site's component with those of its open neighbours and with nothing else |
| Percolation.NeighboursInRange | 02_1_Prelocation_Treshold/src/Percolation.java:96-115 | every neighbour joined is an element of the structure |
| Percolation.OpenedWidened | 02_1_Prelocation_Treshold/src/Percolation.java:43-51 | opening a site only adds that site and merges it with its neighbours |
| Percolation.OpenedPairJoined | 02_1_Prelocation_Treshold/src/Percolation.java:95-117 | after an opening, two adjacent open sites are joined |
| Percolation.OpenedLinks | 02_1_Prelocation_Treshold/src/Percolation.java:31-51 | opening keeps the first and last rows joined to the virtual nodes |
| Percolation.OpenedJoined | 02_1_Prelocation_Treshold/src/Percolation.java:95-117 | opening keeps every pair of adjacent open sites joined |
| Percolation.OpenedJoinedVertical | 02_1_Prelocation_Treshold/src/Percolation.java:99-106 | the vertical pairs |
| Percolation.OpenedJoinedHorizontal | 02_1_Prelocation_Treshold/src/Percolation.java:108-116 | the horizontal pairs |
| Percolation.OpenedSeparated | 02_1_Prelocation_Treshold/src/Percolation.java:43-51 | on a grid of at least two rows, opening keeps every still-closed row uncrossed |
| Percolation.ClosedRowRespected | 02_1_Prelocation_Treshold/src/Percolation.java:95-117 | a row closed after the opening was closed before, and the new unions stay on one side of it |
| Percolation.NeighboursOnSide | 02_1_Prelocation_Treshold/src/Percolation.java:98-116 | the neighbours of a site lie on its side of any other closed row |
| Percolation.NeighbourOnSide | 02_1_Prelocation_Treshold/src/Percolation.java:98-116 | the same for one neighbour |
| Percolation.OpenedValid | 02_1_Prelocation_Treshold/src/Percolation.java:43-51 | the opened system satisfies the invariant again |
| Percolation.OpenedCount | 02_1_Prelocation_Treshold/src/Percolation.java:47-49 | opening a blocked site adds exactly one open site, matching ++openSitesCount |
| Percolation.OpenBlocked | 02_1_Prelocation_Treshold/src/Percolation.java:46-50 | opening a blocked site marks it, joins it to its open neighbours and increments the count |
| Percolation.Open | 02_1_Prelocation_Treshold/src/Percolation.java:43-51 | IllegalArgument for an invalid site; otherwise the open set gains that site and nothing else; an already open site leaves the system unchanged; a blocked one adds one to the count and joins its open neighbours |
| Percolation.AdjacentOpenJoined | 02_1_Prelocation_Treshold/src/Percolation.java:95-117 | any two adjacent open sites are joined |
| Percolation.OpenPathJoinedToTop | 02_1_Prelocation_Treshold/src/Percolation.java:95-117 | the end of an open walk from the first row is joined to the virtual top |
| Percolation.OpenPathFull | 02_1_Prelocation_Treshold/src/Percolation.java:72-75 | a site reached by an open walk from the first row is full |
| Percolation.OpenPathPercolates | 02_1_Prelocation_Treshold/src/Percolation.java:91-93 | an open walk from the first row to the last makes the system percolate |
| Percolation.Backwash | 02_1_Prelocation_Treshold/src/Percolation.java:31-34 | once the system percolates, every open site of the last row is full, because the last row is joined to the virtual bottom, whether or not an open walk from the first row reaches it |
| Percolation.PercolationCrossesEveryRow | 02_1_Prelocation_Treshold/src/Percolation.java:91-93 | with at least two rows, a percolating system has an open site in every row |
| Percolation.SingleSitePercolatesBlocked | 02_1_Prelocation_Treshold/src/Percolation.java:31-34 | as written, a 1-by-1 grid percolates while its only site is blocked |
| Percolation.PercolatesCorrected | 02_1_Prelocation_Treshold/src/Percolation.java:91-93 | the corrected percolates also requires the single site to be open on a 1-by-1 grid; it agrees with percolates() from two rows up and implies an open site in every row |
| Percolation.OpenPathPercolatesCorrected | 02_1_Prelocation_Treshold/src/Percolation.java:91-93 | the corrected predicate holds for every open walk from the first row to the last |
| StackWithMax.New | 04_2_Stack_With_Max/src/StackWithMax.cpp:116-118 | a new stack is valid and holds no element |
| StackWithMax.Size | 04_2_Stack_With_Max/src/StackWithMax.cpp:38-41 | size() is the number of elements on the stack |
| StackWithMax.Empty | 04_2_Stack_With_Max/src/StackWithMax.cpp:47-50 | empty() holds exactly when no element is on the stack |
| StackWithMax.Top | 04_2_Stack_With_Max/src/StackWithMax.cpp:56-60 | top() is the element pushed last; the source's assert makes non-emptiness the caller's duty |
| StackWithMax.Max | 04_2_Stack_With_Max/src/StackWithMax.cpp:66-70 | max() is an element of the stack and no element exceeds it |
| StackWithMax.MaxPosition | 04_2_Stack_With_Max/src/StackWithMax.cpp:94-103 | the stored index of the top entry is the earliest position of the maximum, so on ties the strict < keeps the earlier index |
| StackWithMax.Pop | 04_2_Stack_With_Max/src/StackWithMax.cpp:75-79 | pop() removes exactly the top element, keeps the rest and keeps every stored index valid |
| StackWithMax.PushValid | 04_2_Stack_With_Max/src/StackWithMax.cpp:87-103 | the entry push() builds keeps the stored-index invariant |
| StackWithMax.Push | 04_2_Stack_With_Max/src/StackWithMax.cpp:85-105 | push(e) appends e on top and keeps the invariant; pushing a value equal to the maximum leaves max()'s position where it was |
| StackWithMax.PushPop | 04_2_Stack_With_Max/src/StackWithMax.cpp:142-156 | pop() after push(e) gives back the previous stack, so max() reverts to the maximum of what remains |
| StackWithMax.MaxAfterPush | 04_2_Stack_With_Max/src/StackWithMax.cpp:120-140 | after push(e), max() is e on an empty stack or when e exceeds the previous maximum, and the previous maximum otherwise |
| QueueTwoStacks.Reverse | 04_1_Two_Stacks_Queue/src/QueueTwoStacks.cpp:41-45 | reversing lists the elements back to front |
| QueueTwoStacks.New | 04_1_Two_Stacks_Queue/src/QueueTwoStacks.cpp:71 | a new queue is empty |
| QueueTwoStacks.IsEmpty | 04_1_Two_Stacks_Queue/src/QueueTwoStacks.cpp:55-58 | isEmpty() holds exactly when the abstract queue (out-stack top first, then in-stack bottom first) is empty |
| QueueTwoStacks.Enqueue | 04_1_Two_Stacks_Queue/src/QueueTwoStacks.cpp:25-28 | enqueue(v) appends v at the back of the abstract queue and leaves the out-stack alone |
| QueueTwoStacks.Transfer | 04_1_Two_Stacks_Queue/src/QueueTwoStacks.cpp:41-45 | the transfer loop empties the in-stack onto the out-stack in reverse, keeping the abstract queue |
| QueueTwoStacks.Dequeue | 04_1_Two_Stacks_Queue/src/QueueTwoStacks.cpp:31-52 | runtime_error exactly when the queue is empty; otherwise returns the front and leaves the rest in order; the in-stack is untouched while the out-stack is non-empty |
| QueueTwoStacks.DequeueAfterEnqueue | 04_1_Two_Stacks_Queue/src/QueueTwoStacks.cpp:77-84 | dequeue after an enqueue returns the same front as before it, and the contents agree with enqueuing after the dequeue: FIFO under interleaving |
| DoublyLinked.Items | s04ex03_Queues/src/Deque.java:159-179 | the items of a list are those of its chain of nodes, one per live node |
| DoublyLinked.Empty | s04ex03_Queues/src/Deque.java:40-44 | the list with no head, no tail and size 0 is valid and holds nothing |
| DoublyLinked.NullEnds | 04_3_Queues/src/Deque.cpp:95-128 | in a valid list the head is null exactly when the tail is, exactly when the size is 0 |
| DoublyLinked.LinkFirst | s04ex03_Queues/src/Deque.java:75-83 | linking a new node before the head keeps the links consistent, adds one to size and prepends the item |
| DoublyLinked.LinkFirstValid | s04ex03_Queues/src/Deque.java:79-81 | the non-empty case: the old head's prev points at the new node, whose next is the old head |
| DoublyLinked.LinkFirstChain | s04ex03_Queues/src/Deque.java:75-81 | the new chain stays inside the arena and repeats no node |
| DoublyLinked.LinkFirstLinks | s04ex03_Queues/src/Deque.java:79-81 | every node of the new chain links to its neighbours in both directions |
| DoublyLinked.LinkLast | s04ex03_Queues/src/Deque.java:97-105 | linking a new node after the tail keeps the links consistent, adds one to size and appends the item |
| DoublyLinked.LinkLastValid | s04ex03_Queues/src/Deque.java:101-103 | the non-empty case: the old tail's next points at the new node, whose prev is the old tail |
| DoublyLinked.UnlinkFirst | s04ex03_Queues/src/Deque.java:119-128 | unlinking the head returns its item and leaves the other items in order, nulling the tail when the list empties |
| DoublyLinked.UnlinkFirstValid | s04ex03_Queues/src/Deque.java:120-126 | the new head loses its predecessor and the links stay consistent |
| DoublyLinked.UnlinkLast | s04ex03_Queues/src/Deque.java:143-152 | unlinking the tail returns its item and leaves the other items in order, nulling the head when the list empties |
| DoublyLinked.UnlinkLastValid | s04ex03_Queues/src/Deque.java:144-150 | the new tail loses its successor and the links stay consistent |
| DoublyLinked.NextOfChain | s04ex03_Queues/src/Deque.java:177 | following next from the node at position i reaches position i+1, or null after the tail |
| DoublyLinked.PrevOfChain | 04_3_Queues/src/Deque.cpp:233 | following prev from the node at position i reaches position i-1, or null before the head |
| DequeJava.New | s04ex03_Queues/src/Deque.java:40-44 | a new deque is valid and empty |
| DequeJava.IsEmpty | s04ex03_Queues/src/Deque.java:51-53 | isEmpty() holds exactly when the deque holds no item |
| DequeJava.Size | s04ex03_Queues/src/Deque.java:60-62 | size() is the number of items |
| DequeJava.AddFirst | s04ex03_Queues/src/Deque.java:70-84 | a null item gives IllegalArgumentException and no change; otherwise the item is prepended |
| DequeJava.AddLast | s04ex03_Queues/src/Deque.java:92-106 | a null item gives IllegalArgumentException and no change; otherwise the item is appended |
| DequeJava.RemoveFirst | s04ex03_Queues/src/Deque.java:114-130 | NoSuchElementException exactly when empty; otherwise the front item, the rest kept in order |
| DequeJava.RemoveLast | s04ex03_Queues/src/Deque.java:138-154 | NoSuchElementException exactly when empty; otherwise the back item, the rest kept in order |
| DequeJava.AddRemoveSameEnd | s04ex03_Queues/src/Deque.java:70-154 | adding and then removing at the same end returns the item and restores the deque's items |
| DequeJava.AddFirstRemoveLast | s04ex03_Queues/src/Deque.java:70-154 | on a non-empty deque, adding at the front and removing at the back returns the old back item |
| DequeJava.MakeIterator | s04ex03_Queues/src/Deque.java:162-164 | a new iterator starts at the head |
| DequeJava.HasNext | s04ex03_Queues/src/Deque.java:167-169 | hasNext() holds exactly while items remain |
| DequeJava.Next | s04ex03_Queues/src/Deque.java:172-179 | NoSuchElementException past the end; otherwise the item at the current position, and the iterator moves one on |
| DequeJava.ForEach | s04ex03_Queues/src/Deque.java:159-194 | iterating yields the items front to back |
| DequeJava.Scenario | s04ex03_Queues/src/Deque.java:202-221 | the program's scenario: size 3, removeFirst 0, removeLast 2, size 1, then -1 is iterated first |
| DequeCpp.New | 04_3_Queues/src/Deque.cpp:53-54 | a new deque is valid and empty |
| DequeCpp.IsEmpty | 04_3_Queues/src/Deque.cpp:73-76 | isEmpty() holds exactly when the deque holds no item |
| DequeCpp.Size | 04_3_Queues/src/Deque.cpp:82-85 | size() is the number of items |
| DequeCpp.EndsNullTogether | 04_3_Queues/src/Deque.cpp:91-182 | head_ is null exactly when tail_ is, exactly when the deque is empty |
| DequeCpp.AddFirst | 04_3_Queues/src/Deque.cpp:91-106 | the item is prepended, the empty case being detected by a null head |
| DequeCpp.AddLast | 04_3_Queues/src/Deque.cpp:112-128 | the item is appended, the empty case being detected by a null tail |
| DequeCpp.RemoveFirst | 04_3_Queues/src/Deque.cpp:135-158 | std::out_of_range exactly when empty; otherwise the front item, the rest kept in order |
| DequeCpp.RemoveLast | 04_3_Queues/src/Deque.cpp:165-188 | std::out_of_range exactly when empty; otherwise the back item, the rest kept in order |
| DequeCpp.Scenario | 04_3_Queues/src/Deque.cpp:298-310 | the test program: sizes 1 and 2, removeFirst 10, removeLast 20, then empty |
| DequeCpp.Begin | 04_3_Queues/src/Deque.cpp:260-263 | begin() is at the head |
| DequeCpp.End | 04_3_Queues/src/Deque.cpp:269-272 | end() is the null position after the tail |
| DequeCpp.EqualIffSamePosition | 04_3_Queues/src/Deque.cpp:243-250 | two iterators over one deque compare equal exactly when they are at the same position |
| DequeCpp.Equal | 04_3_Queues/src/Deque.cpp:243-250 | operator== always answers the opposite of operator!=; with EqualIffSamePosition, equal exactly when at the same position |
| DequeCpp.Deref | 04_3_Queues/src/Deque.cpp:210 | operator* gives the item at the iterator's position |
| DequeCpp.Increment | 04_3_Queues/src/Deque.cpp:216-223 | operator++ moves one on; at end() it stays there |
| DequeCpp.Decrement | 04_3_Queues/src/Deque.cpp:229-236 | operator-- moves one back; from the head, and at end(), the result is the null iterator |
| DequeCpp.ForEach | 04_3_Queues/src/Deque.cpp:260-272 | a loop from begin() to end() visits the items head to tail |
| RandomizedQueueJava.Items | 04_3_Queues/src/RandomizedQueue.java:8-9 | the items are exactly the first size slots, all non-null |
| RandomizedQueueJava.New | 04_3_Queues/src/RandomizedQueue.java:15-18 | a new queue holds nothing in an array of capacity 2 |
| RandomizedQueueJava.IsEmpty | 04_3_Queues/src/RandomizedQueue.java:20-22 | isEmpty() holds exactly when no item is queued |
| RandomizedQueueJava.Size | 04_3_Queues/src/RandomizedQueue.java:24-26 | size() is the number of queued items |
| RandomizedQueueJava.ResizeTo | 04_3_Queues/src/RandomizedQueue.java:28-35 | resize gives an array of the new length holding the first size items unchanged |
| RandomizedQueueJava.Enqueue | 04_3_Queues/src/RandomizedQueue.java:37-49 | null gives IllegalArgumentException; otherwise the item is added after the others, and a full array first doubles its capacity |
| RandomizedQueueJava.Dequeue | 04_3_Queues/src/RandomizedQueue.java:51-69 | NoSuchElementException exactly when empty; otherwise returns the item in slot k, moves the last item into slot k, the contents lose exactly that one item, and the capacity halves when the size falls to a quarter of it |
| RandomizedQueueJava.MoveLastInto | 04_3_Queues/src/RandomizedQueue.java:60-62 | moving the last item into slot k and nulling the last slot keeps the layout valid and removes exactly one copy of the item in slot k |
| RandomizedQueueJava.RemovalMultiset | 04_3_Queues/src/RandomizedQueue.java:60-61 | overwriting slot k with the last item and dropping the last slot removes exactly one copy of s[k] |
| RandomizedQueueJava.Sample | 04_3_Queues/src/RandomizedQueue.java:71-76 | NoSuchElementException exactly when empty; otherwise the item in slot k, with the queue unchanged |
| RandomizedQueueJava.MakeIterator | 04_3_Queues/src/RandomizedQueue.java:82-87 | the iterator's copy is a rearrangement of the queued items, with the cursor at 0 |
| RandomizedQueueJava.HasNext | 04_3_Queues/src/RandomizedQueue.java:90-92 | hasNext() holds exactly while the cursor is before the end of the copy |
| RandomizedQueueJava.Next | 04_3_Queues/src/RandomizedQueue.java:95-103 | NoSuchElementException when exhausted; otherwise the item at the cursor, and the cursor moves one on |
| RandomizedQueueJava.ForEach | 04_3_Queues/src/RandomizedQueue.java:82-114 | iterating yields every queued item exactly as often as it is queued |
| RandomizedQueueJava.NewLoadBounded | 04_3_Queues/src/RandomizedQueue.java:15-18 | a new queue's capacity is a power of two within the load bound |
| RandomizedQueueJava.EnqueueKeepsLoadBounded | 04_3_Queues/src/RandomizedQueue.java:43-45 | doubling on a full array keeps the capacity a power of two, and either 2 or below four times the size |
| RandomizedQueueJava.PowerOfTwoQuarters | 04_3_Queues/src/RandomizedQueue.java:64-65 | a power of two of at least 4 is divisible by 4 and halves to a power of two |
| RandomizedQueueJava.DequeueKeepsLoadBounded | 04_3_Queues/src/RandomizedQueue.java:64-66 | halving at a quarter-full array keeps the same bound, so space stays linear in the size |
| RandomizedQueueCpp.Items | s04ex03_Queues/src/RandomizedQueue.cpp:36-46 | the items are the data of the chain of nodes from head to tail |
| RandomizedQueueCpp.New | s04ex03_Queues/src/RandomizedQueue.cpp:64 | a new queue holds nothing |
| RandomizedQueueCpp.IsEmpty | s04ex03_Queues/src/RandomizedQueue.cpp:70-73 | isEmpty() holds exactly when no item is queued |
| RandomizedQueueCpp.Size | s04ex03_Queues/src/RandomizedQueue.cpp:79-82 | size() is the number of queued items |
| RandomizedQueueCpp.Enqueue | s04ex03_Queues/src/RandomizedQueue.cpp:88-102 | the item is appended at the tail; in an empty queue the new node is both head and tail |
| RandomizedQueueCpp.EnqueueValid | s04ex03_Queues/src/RandomizedQueue.cpp:98-99 | the old tail's next points at the new node and the links stay consistent |
| RandomizedQueueCpp.Walk | s04ex03_Queues/src/RandomizedQueue.cpp:157-161 | walking steps links from the head reaches the node at that position |
| RandomizedQueueCpp.Dequeue | s04ex03_Queues/src/RandomizedQueue.cpp:109-143 | std::out_of_range exactly when empty; otherwise returns the k-th item, the others keep their order, the only item's removal nulls head and tail, and removing the tail moves the tail to its predecessor |
| RandomizedQueueCpp.RemoveHeadValid | s04ex03_Queues/src/RandomizedQueue.cpp:119-126 | removing the head leaves a valid list of the remaining items |
| RandomizedQueueCpp.RemoveAfterValid | s04ex03_Queues/src/RandomizedQueue.cpp:127-140 | splicing out the node after prev leaves a valid list of the other items in order |
| RandomizedQueueCpp.RemoveDistinct | s04ex03_Queues/src/RandomizedQueue.cpp:134-135 | dropping one position of a chain of distinct nodes shifts the later ones and keeps them distinct |
| RandomizedQueueCpp.RemoveAfterLinks | s04ex03_Queues/src/RandomizedQueue.cpp:135 | after prev->next = current->next every remaining node links to its successor |
| RandomizedQueueCpp.Sample | s04ex03_Queues/src/RandomizedQueue.cpp:150-163 | std::out_of_range exactly when empty; otherwise the k-th item, with the queue unchanged |
| RandomizedQueueCpp.MakeIterator | s04ex03_Queues/src/RandomizedQueue.cpp:180-191 | the iterator's container is the items copied head to tail and shuffled, with the cursor at the start |
| RandomizedQueueCpp.HasNext | s04ex03_Queues/src/RandomizedQueue.cpp:197-200 | hasNext() holds exactly while the cursor is before the end |
| RandomizedQueueCpp.Next | s04ex03_Queues/src/RandomizedQueue.cpp:207-214 | std::runtime_error when exhausted; otherwise the item at the cursor, and the cursor moves one on |
| RandomizedQueueCpp.Drain | s04ex03_Queues/src/RandomizedQueue.cpp:249-256 | draining the iterator yields every queued item exactly as often as it is queued |
| RandomizedQueueCpp.DequeueMultiset | s04ex03_Queues/src/RandomizedQueue.cpp:134-142 | removing position k removes exactly one copy of the item returned |
| Sequences.Swap | 04_3_Queues/src/RandomizedQueue.java:85 | a swap exchanges two positions, keeps every other position and the multiset of elements (also std::swap in DutchFlag.cpp:35-45) |
| Shuffle.Shuffle | 04_3_Queues/src/RandomizedQueue.java:85 | a shuffle by any valid offsets is a rearrangement of its input |
| Shuffle.TailsPermuted | 04_3_Queues/src/RandomizedQueue.java:85 | two rearrangements with the same head have rearranged tails |
| Shuffle.ShuffleHead | 04_3_Queues/src/RandomizedQueue.java:85 | one shuffle step: swap position 0 with its offset, then shuffle the rest |
| Shuffle.PrependStep | 04_3_Queues/src/RandomizedQueue.java:85 | offsets for the tail extend to offsets for the whole sequence |
| Shuffle.EveryPermutationReachable | 04_3_Queues/src/RandomizedQueue.java:85 | every rearrangement of s is the outcome of some offsets, so fixing the random choices as a parameter loses no order |
| BitonicSearch.PeakIsMaximum | 03_2_Binary_search/src/BitonicSearch.java:5-17 | in an array that strictly rises to position p and strictly falls after it, the element at p is the maximum |
| BitonicSearch.FindPeak | 03_2_Binary_search/src/BitonicSearch.java:35-70 | nothing exactly for the empty array; otherwise an index in range; for two elements the index of the larger; for a bitonic array of distinct values exactly the peak position (the same code is BitonicSearch.cpp:83-126) |
| BitonicSearch.PeakAtLocalMaximum | 03_2_Binary_search/src/BitonicSearch.java:56-58 | the early return of findPeak is right: a strict local maximum of a bitonic array is its peak |
| BitonicSearch.SearchBinary | 03_2_Binary_search/src/BitonicSearch.java:72-97 | true only if the target occurs in a[low..high]; when that range is ascending (or descending, as flagged) true exactly when it occurs there (the same code is BitonicSearch.cpp:43-80) |
| BitonicSearch.Search | 03_2_Binary_search/src/BitonicSearch.java:24-33 | true only if the target is in the array, and for a bitonic array of distinct values true exactly when it is; false for the empty array (the same code is BitonicSearch.cpp:27-39) |
| EggDrop.Version0 | s03ex03_Egg_Drop/src/EggDrop.cpp:57-67 | the first breaking floor when it is at most n, nothing otherwise |
| EggDrop.BinarySearch | s03ex03_Egg_Drop/src/EggDrop.cpp:131-146 | for low <= high + 1 the result lies in [low, high + 1], the egg survives every floor from low below it, and it breaks there unless the result is high + 1; an empty range returns low |
| EggDrop.BinarySearchClamps | s03ex03_Egg_Drop/src/EggDrop.cpp:131-146 | with the threshold predicate that result is low when the breaking point is at or below low, and otherwise the breaking point capped at high + 1 |
| EggDrop.LinearSearch | s03ex03_Egg_Drop/src/EggDrop.cpp:148-158 | either -1 or the first breaking floor of [low, high]; for low >= 0, -1 exactly when no floor there breaks |
| EggDrop.Version1AsWritten | s03ex03_Egg_Drop/src/EggDrop.cpp:73-79 | with segment size 0, the size ceil(0 / log2 0) an empty building gets, the probe stays at floor 0 after any number of rounds and the loop condition still holds, so the loop never ends; a positive size only moves the probe upward |
| EggDrop.Version1 | s03ex03_Egg_Drop/src/EggDrop.cpp:71-86 | with the segment size raised to at least 1, for n >= 0 the breaking point when it is at most n, else n + 1; for every segment size of at least 1 this is the program's code |
| EggDrop.ProbePowers | s03ex03_Egg_Drop/src/EggDrop.cpp:90-95 | the probe stops at an exponent of at most 31; every power of two below it is a floor of the building that does not break, and below 31 the next power is above n or breaks |
| EggDrop.Version2AsWritten | s03ex03_Egg_Drop/src/EggDrop.cpp:88-101 | with the int32 cast of 2^31, a building of at least 2^30 floors whose breaking point is above 2^30 yields 2^30, a floor that does not break; a building without floors (n <= 0) yields 1, the binary search's lower border; in every other case the breaking point capped at n + 1 |
| EggDrop.Pow2Add | s03ex03_Egg_Drop/src/EggDrop.cpp:92 | 2^(a+b) is 2^a times 2^b |
| EggDrop.Pow2Int32 | s03ex03_Egg_Drop/src/EggDrop.cpp:92-99 | 2^30 is the largest power of two an int32_t holds: 2^31 is INT32_MAX + 1 |
| EggDrop.PowMonotone | s03ex03_Egg_Drop/src/EggDrop.cpp:92 | powers of two grow with the exponent |
| EggDrop.Version2 | s03ex03_Egg_Drop/src/EggDrop.cpp:88-101 | with the upper border kept in range: for every n up to INT32_MAX, 1 (the lower border of an empty search) when the building has no floors, and otherwise the breaking point capped at n + 1 |
| EggDrop.Version3 | s03ex03_Egg_Drop/src/EggDrop.cpp:104-121 | for any positive step, the breaking point when it is at most n, else -1 |
| EggDrop.HundredFloors | s03ex03_Egg_Drop/src/EggDrop.cpp:162-186 | with 100 floors and the egg breaking from floor 10, all four versions answer 10 |
| ThreeSum.TwoSum | s03ex01_Three_Sum/src/Sum.java:42-57 | a result is a pair i < j adding up to target; none exactly when no such pair exists; j is the smallest completing index and i the latest earlier position holding the complement (the same code is TwoSum.cpp:29-45) |
| ThreeSum.Insert | s03ex01_Three_Sum/src/Sum.java:74 | inserting into a sorted sequence gives a sorted sequence with one more occurrence of the value |
| ThreeSum.Sort | s03ex01_Three_Sum/src/Sum.java:74 | Arrays.sort (and std::sort) yields a sorted permutation of the array |
| ThreeSum.SortedPermutationUnique | s03ex01_Three_Sum/src/Sum.java:74 | two sorted sequences with the same elements are equal, so any library sort produces the same result |
| ThreeSum.PairsFor | s03ex01_Three_Sum/src/Sum.java:79-101 | the two-pointer pass for a first position keeps what was found, appends only solutions starting with that element, adds no duplicate, and misses no pair of later positions completing the target |
| ThreeSum.Scan | s03ex01_Three_Sum/src/Sum.java:77-102 | over a sorted array the passes collect without duplicates exactly the value triplets at three increasing positions that add up to target, in order of first element |
| ThreeSum.ThreeSumJava | s03ex01_Three_Sum/src/Sum.java:67-105 | fewer than three elements give no triplets and leave the array alone; otherwise the array is sorted in place and the result is exactly the set of value triplets at increasing positions adding up to target |
| ThreeSum.ThreeSumCpp | s03ex01_Three_Sum/src/TwoSum.cpp:60-101 | the same set of triplets as a duplicate-free list in order of first element; fewer than three elements give the empty list |
| ThreeSum.SolutionsOrdered | s03ex01_Three_Sum/src/Sum.java:84-87 | every returned triplet adds up to target and is non-decreasing |
| ThreeSum.Ordered | s03ex01_Three_Sum/src/Sum.java:59-66 | three values put in non-decreasing order keep their multiset and their sum |
| ThreeSum.SortedSubMultiset | s03ex01_Three_Sum/src/Sum.java:74 | a sorted sequence drawn from the elements of a sorted array occurs in it at increasing positions |
| ThreeSum.EveryTripletFound | s03ex01_Three_Sum/src/Sum.java:59-66 | every three distinct positions of the caller's array whose values add up to target yield a triplet, ordered, that threeSum returns |
| DutchFlag.SortDutchFlag | s05ex01_Intersection/src/DutchFlag.cpp:20-58 | the three-way partitioning pass always returns a value, namely the rearranged vector, which is sorted RED before WHITE before BLUE and a permutation of the input; the empty vector comes back unchanged |
| DutchFlag.PartitionSorted | s05ex01_Intersection/src/DutchFlag.cpp:31-55 | when the loop stops (mid past high, or high at 0) the RED, WHITE and BLUE regions cover the whole vector in flag order |
| DutchFlag.SortedPermutationUnique | s05ex01_Intersection/src/DutchFlag.cpp:20-58 | the sorted arrangement of a collection of colors is unique, so the result is determined by the input's colors alone |
| DutchFlag.MixedScenario | s05ex01_Intersection/src/DutchFlag.cpp:65-69 | any sorted permutation of WHITE RED BLUE RED WHITE BLUE is RED RED WHITE WHITE BLUE BLUE, the expected answer of the first test |
| Permutation.IsPermutation | s05ex01_Intersection/src/Permutation.cpp:19-60 | true exactly when the two arrays hold the same values with the same multiplicities; two empty arrays give true and different sizes false |
| Permutation.CountUp | s05ex01_Intersection/src/Permutation.cpp:34-38 | the map has a key for exactly the values of a, each mapped to its number of occurrences |
| Permutation.CountDown | s05ex01_Intersection/src/Permutation.cpp:40-48 | a failure shows that b is no permutation of a; otherwise b's values are among a's and every count left is a's count less b's |
| Permutation.CountDownStep | s05ex01_Intersection/src/Permutation.cpp:43 | decrementing the count of an element that a still has keeps the counts equal to a's less those of the part of b consumed |
| Permutation.Overdrawn | s05ex01_Intersection/src/Permutation.cpp:43-47 | a count that would fall below zero means b has more copies of that value than a |
| Permutation.SizesDiffer | s05ex01_Intersection/src/Permutation.cpp:28-31 | arrays of different sizes are never permutations of each other |
| Permutation.SubMultisetOfPrefix | s05ex01_Intersection/src/Permutation.cpp:41-48 | if a prefix of b already has more copies of some value than a, b is no permutation of a |
| Permutation.EqualSizes | s05ex01_Intersection/src/Permutation.cpp:50-59 | when sizes agree and b's values are among a's, the two are permutations, which is why the final check of zero counts always passes |
| Permutation.DuplicateScenarios | s05ex01_Intersection/src/Permutation.cpp:72-90 | {1,1,2,2} and {2,2,1,1} are permutations, {1,2,3} and {1,2,2} are not |
| Intersection.IntersectionTwoDimensional | s05ex01_Intersection/src/Intersection.cpp:34-57 | the count of positions of b whose point occurs in a, hence between 0 and the size of b, and 0 when either array is empty |
| Intersection.HitsStep | s05ex01_Intersection/src/Intersection.cpp:48-54 | one more element of b adds one to the count exactly when its point is in a's set |
| Intersection.OnlyPointsOfAMatter | s05ex01_Intersection/src/Intersection.cpp:41-45 | a is used only through its set of points: duplicates in a or its order do not change the answer |
| Intersection.NormalScenario | s05ex01_Intersection/src/Intersection.cpp:63-66 | the first test's answer is 2 |
| Intersection.SingleCommonScenario | s05ex01_Intersection/src/Intersection.cpp:93-96 | the last test's answer is 1 |
| Points.Compare | s06ex04_Pattern_Recognition/src/Point.java:73 | Integer.compare: -1, 0 or 1, negative exactly when a < b and zero exactly when a == b |
| Points.CompareTo | s06ex04_Pattern_Recognition/src/Point.java:61-74 | negative exactly when this point's y is smaller, or y ties and x is smaller; positive in the mirrored case; zero exactly for equal points |
| Points.CompareToAntisymmetric | s06ex04_Pattern_Recognition/src/Point.java:61-74 | swapping the arguments swaps less and greater and keeps equal |
| Points.CompareToTransitive | s06ex04_Pattern_Recognition/src/Point.java:61-74 | p <= q <= s gives p <= s, strictly when either step is strict: compareTo is a total order |
| Points.SlopeTo | s06ex04_Pattern_Recognition/src/Point.java:36-59 | negative infinity exactly for the same point, positive infinity exactly for a vertical segment, otherwise the fraction dy/dx with a positive denominator, zero exactly for a horizontal segment |
| Points.CompareSlopes | s06ex04_Pattern_Recognition/src/Point.java:90 | Double.compare on slopes: -1, 0 or 1, negative exactly when the first slope lies below the second in the order of the extended reals (negative infinity least, positive infinity greatest, finite slopes by value) and positive exactly when it lies above |
| Points.FractionOrder | s06ex04_Pattern_Recognition/src/Point.java:58 | for positive denominators, comparing the quotients dy/dx as reals agrees with comparing cross products |
| Points.SlopeOrder | s06ex04_Pattern_Recognition/src/Point.java:82-92 | slopeOrder().compare(q1, q2) is negative exactly when q1's slope from the invoking point is below q2's, and positive exactly when it is above |
| Points.Wrap32 | s06ex04_Pattern_Recognition/src/Point.java:58 | Java's int subtraction: the result lies in the int range, differs from the exact difference by a multiple of 2^32, and equals it whenever it fits |
| Points.SlopeToInt32 | s06ex04_Pattern_Recognition/src/Point.java:49-59 | slopeTo as Java evaluates it on int coordinates: the same infinities and horizontal zero, and a finite slope whose cross product matches the differences wrapped modulo 2^32 into the int range |
| Points.SlopeToInt32Agrees | s06ex04_Pattern_Recognition/src/Point.java:58 | whenever both coordinate differences fit in an int, Java's slope equals the exact slope used by the slope order |
| Points.SlopeOverflowFlipsOrder | s06ex04_Pattern_Recognition/src/Point.java:58 | from (0, -1), the wrapped difference gives (1, INT32_MAX) the slope -2^31, so it sorts below (1, 0) although its exact slope 2^31 is above |
| Points.SlopeOrderEqualIffCollinear | s06ex04_Pattern_Recognition/src/Point.java:76-92 | two points other than p compare equal in p's slope order exactly when they lie on one line through p |
| Points.SlopeOrderAntisymmetric | s06ex04_Pattern_Recognition/src/Point.java:87-92 | swapping the two points negates the comparator's answer |
| Points.SlopeOrderTransitive | s06ex04_Pattern_Recognition/src/Point.java:87-92 | the slope comparator is transitive, so it is a valid Comparator for sorting |
| Points.FiniteEqualIffCross | s06ex04_Pattern_Recognition/src/Point.java:58 | two finite slopes are equal exactly when the cross product of the direction vectors is zero |
| Points.FiniteTransitive | s06ex04_Pattern_Recognition/src/Point.java:90 | finite slopes compared by cross-multiplication are ordered transitively |
| Points.UnitTests | s06ex04_Pattern_Recognition/src/Point.java:109-134 | the slopes, point comparisons and slope-order comparisons the program's unit tests assert |
| KdTree.CommonPointIntersects | s11ex01_Kd_trees/src/KdTree.java:131-136 | two rectangles that both contain a point intersect, so pruning on intersects never drops a node whose point is in the query |
| KdTree.SizeIsPointCount | s11ex01_Kd_trees/src/KdTree.java:76-82 | in a valid tree the stored size of a subtree is the number of distinct points in it |
| KdTree.InsertNode | s11ex01_Kd_trees/src/KdTree.java:84-113 | the result is a valid, non-empty subtree with the given orientation and rectangle holding the old points plus the new one, and an already stored point leaves the subtree exactly as it was |
| KdTree.ContainsNode | s11ex01_Kd_trees/src/KdTree.java:115-129 | following one side per level finds the point exactly when the subtree stores it |
| KdTree.RangeNode | s11ex01_Kd_trees/src/KdTree.java:131-142 | every point reported lies in the subtree and inside the query rectangle |
| KdTree.RangeComplete | s11ex01_Kd_trees/src/KdTree.java:131-142 | when every point lies in its node's rectangle, pruning loses nothing: every stored point inside the query rectangle is reported |
| KdTree.New | s11ex01_Kd_trees/src/KdTree.java:30-33 | the new tree is valid and holds no point |
| KdTree.TreeSize | s11ex01_Kd_trees/src/KdTree.java:184-187 | size() is the number of distinct points in the set |
| KdTree.IsEmpty | s11ex01_Kd_trees/src/KdTree.java:180-182 | isEmpty() holds exactly when the set has no point |
| KdTree.Insert | s11ex01_Kd_trees/src/KdTree.java:189-196 | a null point gives IllegalArgument; otherwise the tree stays valid and its points gain p, and a present point leaves the tree unchanged |
| KdTree.Contains | s11ex01_Kd_trees/src/KdTree.java:198-205 | a null point gives IllegalArgument; otherwise true exactly when p is in the set |
| KdTree.Range | s11ex01_Kd_trees/src/KdTree.java:207-217 | a null rectangle gives IllegalArgument; otherwise only points of the set inside the rectangle, and all of them when the set lies in the unit square |
| KdTree.InsertAll | s11ex01_Kd_trees/src/KdTree.java:243-250 | a series of inserts keeps the tree valid |
| KdTree.InsertAllPoints | s11ex01_Kd_trees/src/KdTree.java:189-196 | after a series of inserts the set holds the old points plus every inserted one |
| KdTree.ContainsIffInserted | s11ex01_Kd_trees/src/KdTree.java:198-205 | on a tree built from an empty one, contains(p) is true exactly when p was inserted, and size() counts the distinct inserted points |
| KdTree.MainScenario | s11ex01_Kd_trees/src/KdTree.java:243-255 | the driver's five inserts give size 5 |
| KdTree.FiveDistinct | s11ex01_Kd_trees/src/KdTree.java:246-250 | the driver's five points are distinct |
| Boards.NewBoard | s08ex04_Eight_puzzle/src/Board.java:11-21 | dimension is the number of rows and every row of the board equals the argument's row element by element, with no validation |
| Boards.CopyRow | s08ex04_Eight_puzzle/src/Board.java:18-19 | the copied row has the argument's length and elements |
| Boards.InitializationScenario | s08ex04_Eight_puzzle/src/BoardTest.java:7-16 | a 3-by-3 grid gives dimension 3 and the board holds its tiles |
| Solver.PathOfReachable | s08ex04_Eight_puzzle/src/Solver.java:44-45 | following the previous links from any node the search builds gives moves + 1 boards from the root to the node's board, each a neighbor of the one before and never stepping straight back |
| Solver.MinExists | s08ex04_Eight_puzzle/src/Solver.java:67 | a non-empty priority queue has a node of minimum priority, so delMin is defined |
| Solver.MakeNode | s08ex04_Eight_puzzle/src/Solver.java:18-23 | a new search node keeps its board, predecessor and moves, and its priority is fixed at moves + manhattan(board) |
| Solver.ChildrenShape | s08ex04_Eight_puzzle/src/Solver.java:73-78 | every child is a node for a neighbor other than the predecessor's board, with moves + 1 and the node as predecessor, and every such neighbor gets a child |
| Solver.ChildrenReachable | s08ex04_Eight_puzzle/src/Solver.java:73-78 | the children of a node built from the root are built from the root too, so moves stays the depth in the predecessor chain |
| Solver.NextQueueIteration | s08ex04_Eight_puzzle/src/Solver.java:62-81 | an empty queue gives null and stays as it is; otherwise a node of minimum priority is removed, returned when its board is the goal with nothing inserted, and otherwise its children are inserted and null is returned |
| Solver.InsertChildren | s08ex04_Eight_puzzle/src/Solver.java:73-78 | the loop inserts exactly one child per neighbor that is not the predecessor's board |
| Solver.ChildrenStep | s08ex04_Eight_puzzle/src/Solver.java:74-77 | one more neighbor adds its child unless it equals the predecessor's board |
| Solver.StepKeepsReachable | s08ex04_Eight_puzzle/src/Solver.java:67-78 | removing a node and inserting its children keeps every queued node a node built from the root |
| Solver.CreateSolution | s08ex04_Eight_puzzle/src/Solver.java:84-96 | the solver becomes solvable with minMoves equal to the goal's moves, and the stack yields the predecessor chain's boards from the root to the goal |
| Solver.Solve | s08ex04_Eight_puzzle/src/Solver.java:32-60 | a null board gives IllegalArgument; a finished search either reports unsolvable, with moves() -1 and solution() null, only after the twin's search has removed a goal node it built from the twin board, or gives a walk of moves() + 1 boards from the initial board to a goal, each a neighbor of the one before (moves() and solution() at lines 99-111) |

## Left out

- I/O, printing, drawing (`StdDraw`) and the `main` drivers. Where a driver asserts results, those results are stated as lemmas or methods: `EggDrop.HundredFloors`, `Points.UnitTests`, `KdTree.MainScenario` and the scenario lemmas.
- PercolationStats (random trials and floating-point statistics) and PointSET (a wrapper over a library tree set with double distances).
- FastCollinearPoints and BruteCollinearPoints, because they compare double slopes with `==` and use an unseen LineSegment. `Points.SlopeOrderEqualIffCollinear` states the fact they rely on.
- The placeholder EggDrop.java and the stdin, command-line and file programs (SampleClient, RandomWord, HelloGoodbye).
- KdTree's `nearest`, because it depends on double distance arithmetic in the library's Point2D and RectHV. RectHV's own argument checks are also left out.
- KdTree.Range: completeness is proved only when every point lies in the unit square. Outside it, a node's rectangle need not contain its points and pruning can drop them.
- Board's `hamming`, `manhattan`, `isGoal`, `equals`, `neighbors`, `twin` and `toString` have no implementation in the program. They are parameters, and nothing is assumed about them. A null tile grid is not modelled.
- Solver.Solve: the program loops until one of the two searches reaches a goal. The model runs at most `fuel` rounds. Termination, and the optimality of the returned path, rest on puzzle parity and heuristic admissibility, which the program does not implement; neither is proved.
- Percolation.IsFull: the program's isFull means "joined to the virtual top", and the model states exactly that. It is not "reachable from the first row by an open walk": the model proves only that such a walk makes a site full (`Percolation.OpenPathFull`). The converse fails once the system percolates, through backwash (`Percolation.Backwash`). For example, on a 3-by-3 grid with (1,1), (2,1), (3,1) and (3,3) open, (3,3) is full although no open walk reaches it. A corrected isFull would need a second union-find without the virtual bottom, which the program does not have.
- Percolation.New: the grid size n is an int. For n >= 46341, n * n exceeds the int range, so the union-find size `n * n + 2` and the virtual node indices `n * n` and `n * n + 1` wrap. A wrapped size is negative or, from n = 65536, small and positive; in either case the indices no longer fit. Before that, the n-by-n boolean grid alone needs more than 2 GB. The model computes these values exactly and returns Ok for every n > 0. What the program then does depends on algs4's WeightedQuickUnionUF and the JVM's memory limit, which are not part of this model.
- RandomizedQueueJava.Enqueue: the capacity is an int and doubles when the array is full (`kResize * queue.length`). At capacity 2^30 the doubling wraps to -2^31, and the program's next allocation throws NegativeArraySizeException on the 2^30 + 1st item. The model's capacity is unbounded, so enqueue always succeeds.
- SocialNetworkConnection.FindEarliestConnection: a log entry is a record of timestamp and two members. The program's `int[][] logs` can also hold a null row, or a row shorter than three (`log[1]` and `log[2]` would then throw ArrayIndexOutOfBoundsException, SocialNetworkConnection.java:152-154). Such logs cannot be written in the model.
- Solver.NextQueueIteration: any node of minimum priority may be removed, because MinPQ's choice among ties is not specified.
- Solver.Moves and Solver.Solution carry no contract of their own. `Solver.Outcome` states what they return after a search.
- EggDrop.Version1 and EggDrop.Version3: the segment size and the step come from floating-point `log2`, `sqrt` and `ceil`, so they are parameters. Version1 is specified only for n >= 0. For n = 1 the program's segment size is `ceil(1 / log2 1)`, an infinite double, and its conversion to int32_t is undefined; that case is not modelled (the n = 0 case is under Findings). The int32 overflow of `current_floor += segment_size` and of `test_level += step` near INT32_MAX is not modelled.
- ThreeSum.TwoSum, ThreeSum.ThreeSumJava and ThreeSum.ThreeSumCpp: sums are unbounded, so int overflow of the sums and of `target - arr[i]` is not modelled.
- ThreeSum.ThreeSumJava: the Java result comes from a hash set, so it is a set here and its list order is unspecified.
- DutchFlag.SortDutchFlag: the branch returning `std::nullopt` needs a value outside the three enumerators, which a well-typed vector cannot hold.
- The iterators' `remove()` in the Java deque and the Java randomized queue always raises UnsupportedOperation. It is modelled without a contract.
- Points.SlopeTo and Points.SlopeOrder: the slope order is stated on exact coordinate differences. Java's int differences wrap once they leave the int range, which can flip a slope's sign and the order (`Points.SlopeOverflowFlipsOrder`). `Points.SlopeToInt32` models the wrapping slope, and `Points.SlopeToInt32Agrees` shows it is the exact slope whenever both differences fit in an int. The order lemmas are not restated for wrapped slopes.
- Points.SlopeOrder and Points.CompareSlopes: IEEE rounding is not modelled. Two slopes that are different fractions but round to the same double compare equal in the program and unequal here.
- StackWithMax.Top, StackWithMax.Max and StackWithMax.Pop require a non-empty stack, as the program's `assert` does. A release build without assertions would read out of bounds.
- RandomizedQueueJava and RandomizedQueueCpp: no claim is made about the distribution of the random choices.

## Findings

| source | as written | input that shows it | evidently intended | confidence | as-written member | corrected member |
|---|---|---|---|---|---|---|
| 02_1_Prelocation_Treshold/src/Percolation.java:31-34 | for n = 1 the constructor joins the only site to both the virtual top and the virtual bottom, so `percolates()` is true before any site is open | `new Percolation(1)` with no call to `open` | a system percolates only when an open site connects the top row to the bottom row | not executed | Percolation.SingleSitePercolatesBlocked | Percolation.PercolatesCorrected |
| s03ex03_Egg_Drop/src/EggDrop.cpp:99 | the probe can stop at exp = 31, and `static_cast<int32_t>(std::pow(2, 31))` is out of range, in practice INT32_MIN; the upper border becomes negative and the binary search returns 2^30, a floor that does not break | n = 2^30 floors and breaking point t = 2^30 + 1 | the lowest breaking floor, or n + 1 when no floor breaks | not executed | EggDrop.Version2AsWritten | EggDrop.Version2 |
| s03ex03_Egg_Drop/src/EggDrop.cpp:73 | for an empty building `std::log2(0)` is minus infinity, so `ceil(0 / log2 0)` makes the segment size 0; `current_floor += segment_size` then never moves the probe off floor 0, which never breaks, and `version1` does not terminate | n = 0 floors | every building, the empty one included, gets a segment size of at least 1, so version1 answers n + 1 when no floor breaks | not executed | EggDrop.Version1AsWritten | EggDrop.Version1 |
