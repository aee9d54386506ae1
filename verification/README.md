# Verified model of parts of the Portable.NET compiler tools

The project models five parts of the code generator and of the build tool, and proves what they promise.

* **Symbol tables** (`Names`, `Options`, `RBShape`, `RBSplit`, `RBContents`, `RBHeap`, `RBTree`, `RBSearch`, `RBIter`, `RBRuns`,
  `Scopes`, `Namespaces`): the top-down, single-pass red-black tree on linked nodes with its two sentinels, its trailing
  ancestor pointers, its chains of nodes of one name and its resumable iterator; the name scopes and the namespace
  scopes on top of it.  The heap is mirrored by ghost maps (`raw` the stored fields, `mem` the logical fields of tree
  nodes, `chains` the chains) and `tree`, a value; `Valid` ties them together, and the proofs about colours, order and
  contents are about values.  The descent keeps a zipper (`Path` and subtree) and a mode that says which of the three
  ancestor pointers are still correct: after a rotation two of them are stale, and the proof is that they are not used
  before they have been refreshed.
* **The build engine** (`Graphs`, `Targets`, `Traces`, `Answers`, `Builds`): the dependency graph that is kept acyclic edge by edge,
  and the recursive builder with its `built` flags, `<call>` re-entry, keep-going and fail-fast modes.  A ghost trace of
  events records what was entered, started and finished; `Good` is the discipline every trace keeps, and the lemmas of
  `Traces` say what it means; `Answered` ties every task's answer to the task table and to the task functions, which are an
  arbitrary oracle (`outcome`).
* **Translations and parsers** (`Regex`, `Wildcards`, `WildcardMeaning`, `WildcardExact`, `DocShape`, `Docs`): the wildcard compiler of
  file sets against a parser and matcher for extended regular expressions (section 9.4 of IEEE Std 1003.1), and the
  loop that turns XML events into a linked documentation tree against a pre-order printer.
* **Semantic analysis** (`Interfaces`, `Conversions`): the depth-first check that a class implements all interfaces it
  inherits, and the mutually recursive rules for implicit and explicit conversions.
* **Code emission** (`Temps`, `Constants`, `Literals`): temporary variables and Java frame slots, short-form constants
  and local accesses for both targets, string literals.

Algorithms that the program runs in place are methods on classes whose contracts tie the new state to a specification
function of the old one; what the program promises about that function is proved as lemmas beside it.

## What the code does differently from what one expects

* A node that is chained onto a known name returns from `ILRBTreeInsert` before the root is coloured black
  (codegen/cg_rbtree.c:242 against :275).  `Insert` states the colour of the root exactly: it is red afterwards if and
  only if the name was known and the root had two red children before.  `RunBlackExactly` turns this into the exact
  condition on runs, `DuplicateLeavesRedRoot` shows that three names and one repetition are enough, and from a red root
  nothing is promised.
* Inside a `fixed` statement some implicit conversions cannot be written as a cast; `NoCastExactly` says which.
* The translation of a wildcard does not escape `+` and `|`; `TranslationExactly` shows that it keeps the meaning if and
  only if these occur in sets only.
* A `?` stands for a directory separator too, but does not ask for sub-directories to be searched (`RecursiveMeaning`).
* The integer constants are not always in their shortest form.  Among an integer constant followed by any unchecked conversions to
  integer types of fixed size, `ILGenInt32`, `ILGenUInt32` and `ILGenUInt64` miss it for exactly the values 128 to 255 and
  65408 to 65535 (255 is also -1 cut to an unsigned byte), and `ILGenInt64` also for those from 2^31 to 2^32 - 1.

## Model

| member | source | states |
|---|---|---|
| Names.StrCmpEqual | codegen/cg_scope.c:73-78 | The comparison installed in scope tables is zero exactly for equal names |
| Names.StrCmpFlip | codegen/cg_scope.c:73-78 | Swapping the arguments flips its sign |
| Names.StrCmpTransitive | codegen/cg_scope.c:73-78 | It is transitive, so sorted trees have a meaning |
| Names.StrCmpPrecedes | codegen/cg_scope.c:73-78 | The comparison is negative exactly for the earlier name of a dictionary: a proper prefix, or the smaller character at the first difference |
| RBShape.PlugInorder | codegen/cg_rbtree.c:200-258 | The in-order contents seen from any position of a descent are those before it, in it and after it |
| RBShape.PlugRB | codegen/cg_rbtree.c:200-258 | A subtree that fits its position in colour and black height makes the whole tree a red-black tree |
| RBShape.PlugRootRed | codegen/cg_rbtree.c:275 | The colour of the root of the whole tree, read off the position |
| RBSplit.RotateInorder | codegen/cg_rbtree.c:133-168 | A rotation keeps the in-order contents |
| RBSplit.RaiseInorder | codegen/cg_rbtree.c:173-189 | The single or double rotation of a split keeps the in-order contents |
| RBSplit.RaiseFits | codegen/cg_rbtree.c:173-189 | Repairing a red node under a red parent, whose own sibling is not red, gives a black-rooted subtree of the grandparent's black height |
| RBSplit.RaiseIsSafe | codegen/cg_rbtree.c:205-258 | After a repair the next two nodes towards the key cannot need a repair, so the stale ancestor pointers are not used |
| RBSplit.StepBelow | codegen/cg_rbtree.c:205-251 | One step down keeps colours, heights, contents and the meaning of the mode, and makes progress |
| RBSplit.RootBelow | codegen/cg_rbtree.c:201-251 | The first step, from the head sentinel to a black root, starts the descent in order |
| RBSplit.SplitKeeps | codegen/cg_rbtree.c:253-257 | A split during the descent keeps colours, heights, contents, the root's colour unless it is the root that is split, and progress |
| RBSplit.AttachKeeps | codegen/cg_rbtree.c:260-274 | Hanging a red node at the end of the descent and splitting there keeps colours and heights and adds one entry at that place |
| RBSplit.BlackenRB | codegen/cg_rbtree.c:275 | Colouring the root black keeps a red-black tree |
| RBContents.ContentsInsert | codegen/cg_rbtree.c:260-275 | A new entry between smaller and larger ones adds its name to the multimap and changes no other name |
| RBContents.ContentsAppend | codegen/cg_rbtree.c:214-243 | Chaining a node appends it to the sequence of its name and changes no other name |
| RBContents.HeadsBounds | codegen/cg_rbtree.c:205-251 | The key lies between everything before and everything after the position the descent has reached |
| RBContents.ContentsFresh | codegen/cg_rbtree.c:205-258 | A descent that falls off a sorted tree has met no node of the name |
| RBHeap.SetLeftSane | codegen/cg_rbtree.c:121-126 | Storing a left subtree through the chain's head changes only that logical field, for every node |
| RBHeap.SetRightSane | codegen/cg_rbtree.c:127-128 | The same for the right subtree |
| RBHeap.AppendSane | codegen/cg_rbtree.c:214-243 | The stores that chain a node leave the logical fields of all tree nodes as they are and extend one chain |
| RBHeap.RotateLocated | codegen/cg_rbtree.c:133-168 | The link stores of a rotation leave exactly the rotated tree in the heap, below any path |
| RBHeap.HangNew | codegen/cg_rbtree.c:260-273 | The link store of an insertion leaves the tree with the new leaf in the heap |
| RBHeap.ZoomAll | codegen/cg_rbtree.c:200-276 | A position laid out in the heap together with its path is the whole tree laid out from the head sentinel |
| RBTree.ILRBTree.constructor | codegen/cg_rbtree.c:38-53 | A new tree is valid, empty and has self-linked black sentinels |
| RBTree.ILRBTree.SetLeft | codegen/cg_rbtree.c:124-126 | Changes the left subtree of one node, whether or not a chain hangs there |
| RBTree.ILRBTree.SetRight | codegen/cg_rbtree.c:127-128 | Changes the right subtree of one node |
| RBTree.ILRBTree.Rotate | codegen/cg_rbtree.c:133-168 | Key-directed rotation: returns the grandchild and leaves the rotated tree in the heap, chains travelling with their nodes |
| RBTree.ILRBTree.Split | codegen/cg_rbtree.c:173-189 | The heap after a split is the flipped, and if the parent was red repaired, tree at the named position |
| RBTree.ILRBTree.StraightenUp | codegen/cg_rbtree.c:181-185 | The first rotation happens exactly when the key's sides at parent and grandparent differ |
| RBTree.ILRBTree.RaiseUp | codegen/cg_rbtree.c:186-187 | The outer rotation returns the new black top |
| RBTree.ILRBTree.NextPosition | codegen/cg_rbtree.c:205-251 | One round of the loop keeps the ancestor pointers correct as far as the mode needs them |
| RBTree.ILRBTree.LastOfChain | codegen/cg_rbtree.c:219-223 | The walk over the chain ends at its last node |
| RBTree.ILRBTree.AddDuplicate | codegen/cg_rbtree.c:214-241 | Chains a node at the end of its name's chain; no link of the tree changes |
| RBTree.ILRBTree.Attach | codegen/cg_rbtree.c:260-275 | A new name: valid tree with a black root that holds exactly one more name |
| RBTree.ILRBTree.Chain | codegen/cg_rbtree.c:214-243 | A known name: valid tree whose root has the colour the descent left, one more node under the name |
| RBTree.ILRBTree.Insert | codegen/cg_rbtree.c:191-276 | From a valid tree with a black root: valid again (order, no red node with a red child, equal black heights, sentinels), the node is last under its name, all other names unchanged, root red exactly if the name was known and the old root had two red children, one black node higher exactly if a new name came to an empty tree or split the root |
| RBSearch.HeightBound | codegen/cg_rbtree.c:173-189 | Height is at most twice the black height, plus one below a red root |
| RBSearch.SizeBound | codegen/cg_rbtree.c:173-189 | A tree of black height h has at least 2^h - 1 nodes |
| RBSearch.StepsBound | codegen/cg_rbtree.c:55-83 | A way down of k nodes in a tree of n names with a black root satisfies 2^k <= (n + 1)^2 |
| RBSearch.ContentsSize | codegen/cg_rbtree.c:55-83 | A sorted tree has one node per name |
| RBSearch.Search | codegen/cg_rbtree.c:55-83 | Null exactly for names never inserted, otherwise the first node of the name, within 2 log2(n + 1) comparisons |
| RBSearch.Next | codegen/cg_rbtree.c:85-99 | The node inserted next under the same name, or null after the last |
| RBIter.UpPosition | codegen/cg_rbtree.c:434-450 | Telling the sides apart by the right link is correct, and going up returns to the parent's position with the same count |
| RBIter.Due | codegen/cg_rbtree.c:383-470 | The node of a position is the one that is due after those already returned |
| RBIter.IterNext | codegen/cg_rbtree.c:383-470 | For every tree, direction and position: terminates, returns the entry after those already returned, null exactly when all have been |
| RBIter.Traverse | codegen/cg_rbtree.c:383-470 | From NULL, repeated calls return every tree node once, in dictionary order of the names |
| RBIter.TraversedAll | codegen/cg_rbtree.c:383-470 | These are exactly the names in the tree |
| RBRuns.RunBlackExactly | codegen/cg_rbtree.c:191-276 | The root is black after every step of a run if and only if no chained node met a root with two red children |
| RBRuns.RunContents | codegen/cg_rbtree.c:191-276 | Up to and including the first step that leaves a red root, a run refines a sorted multimap: each name has its nodes in insertion order |
| RBRuns.DistinctUndisturbed | codegen/cg_rbtree.c:191-276 | Every run of distinct names is such a run |
| RBRuns.FewNames | codegen/cg_rbtree.c:191-276 | A run of up to three names gives a tree of black height one, whose shape is thereby known |
| RBRuns.DuplicateLeavesRedRoot | codegen/cg_rbtree.c:214-243 | On the heap, from an empty tree: after any three names, a second node of one of them leaves a red root |
| RBRuns.InsertAll | codegen/cg_rbtree.c:191-276 | Any nodes, repeated names included, inserted one by one while the root is black: a valid tree throughout that holds, under each name, its nodes so far in order; distinct names all get in and leave a black root |
| RBRuns.AllUnder | codegen/cg_rbtree.c:55-99 | Search followed by repeated Next yields exactly the nodes of the name, in insertion order |
| Scopes.FirstWins | codegen/cg_scope.c:852-965 | After any run of declarations a name is bound if and only if it was declared, to its first declaration |
| Scopes.DeclareAll | codegen/cg_scope.c:852-965 | On a new scope, any run of declarations binds exactly that, with distinct names; each later one is reported as a clash with the one its name has |
| Scopes.ClashError | codegen/cg_scope.c:852-888 | Which kind of declaration gives which error, and none gives success |
| Scopes.Scope.constructor | codegen/cg_scope.c:142-157 | A new scope declares nothing |
| Scopes.Scope.AddToScope | codegen/cg_scope.c:162-178 | Inserts a fresh record under its name |
| Scopes.Scope.LookupHere | codegen/cg_scope.c:83-86 | The first declaration of the name in this scope |
| Scopes.Scope.Declare | codegen/cg_scope.c:852-888 | A name that the scope's lookup function finds, here or through aliases and directives, is a clash, reported by the kind of the first declaration found, which changes nothing; otherwise the name is bound; names stay distinct and the root black |
| Scopes.Scope.DeclareLocal | codegen/cg_scope.c:852-888 | The same for a local with its index |
| Scopes.Scope.DeclareLocalConst | codegen/cg_scope.c:890-926 | The same for a constant |
| Scopes.Scope.DeclareAlias | codegen/cg_scope.c:929-965 | The same for an alias |
| Scopes.Scope.Using | codegen/cg_scope.c:511-521 | A new directive is searched before the older ones, after the aliases |
| Scopes.OrderStep | codegen/cg_scope.c:91-126 | A scope's own declaration hides those of its aliases and directives |
| Scopes.OrdersStep | codegen/cg_scope.c:103-122 | Of these the first that leads to the name wins, with everything it searches in turn |
| Scopes.Scope.LookupFrom | codegen/cg_scope.c:83-126 | Both lookup functions: the first scope that declares the name, in the order of own names, aliases, directives, each followed through |
| Scopes.Scope.Lookup | codegen/cg_scope.c:530-554 | From the innermost enclosing scope outwards, the first whose search finds the name; without `up` only this scope |
| Scopes.Scope.LocalsIter | codegen/cg_scope.c:1045-1059 | The next local after the iterator's place, with index and name, skipping only other kinds |
| Scopes.AllLocals | codegen/cg_scope.c:1045-1059 | From NULL the iterator yields all locals of the tree in order |
| Scopes.LocalsAreDeclared | codegen/cg_scope.c:1045-1059 | These are exactly the names bound to a local, with their indices |
| Scopes.LocalsAscend | codegen/cg_scope.c:1045-1059 | In dictionary order of the names, so each once |
| Namespaces.Components | codegen/cg_scope.c:193-204 | The components of a dotted name are non-empty and without dots |
| Namespaces.JoinSplits | codegen/cg_scope.c:193-281 | Joining components with dots and splitting again gives them back |
| Namespaces.SplitJoins | codegen/cg_scope.c:193-281 | Splitting a well-formed dotted name and joining the components gives it back |
| Namespaces.ScopePool.AddNamespace | codegen/cg_scope.c:233-272 | A missing namespace becomes an empty child scope whose full name extends its parent's |
| Namespaces.ScopePool.FindNamespaceScope | codegen/cg_scope.c:184-282 | Fails exactly on a name that is something else, or missing and not to be added; a failure changes nothing; a success makes the name resolve to the returned scope, whose full name is the dotted path with empty components dropped |
| Namespaces.WalkExtends | codegen/cg_scope.c:216-230 | Namespaces that could be found stay where they are |
| Namespaces.WalkBack | codegen/cg_scope.c:231-272 | Scopes that were there before are reached by no new names |
| Namespaces.OthersUntouched | codegen/cg_scope.c:184-282 | For every scope that was there before, the same names lead to it before and after |
| Namespaces.WalkPath | codegen/cg_scope.c:237-262 | Resolving components from a scope leads to the scope whose full name is that path |
| Namespaces.FullNameFinds | codegen/cg_scope.c:184-282 | The full name of a namespace below the global scope leads back to it |
| Graphs.AddEdgeReaches | csant/csant_parse.c:174-189 | What an edge that closes no cycle makes reachable |
| Graphs.AddEdgeAcyclic | csant/csant_parse.c:216-226 | Adding an edge whose reverse is not reachable keeps the graph acyclic |
| Targets.Project.Find | csant/csant_parse.c:392-408 | The one descriptor of a name, null exactly if there is none |
| Targets.Project.FindOrAdd | csant/csant_parse.c:41-86 | The same, adding a descriptor without dependencies for a new name |
| Targets.Project.IncludesDependency | csant/csant_parse.c:174-189 | Terminates on every graph so built and decides reflexive-transitive reachability |
| Targets.Project.AddDependency | csant/csant_parse.c:220-226 | Appends one dependency and changes no other descriptor |
| Targets.Project.RecordOne | csant/csant_parse.c:211-226 | One dependency: rejected exactly if its target already depends on the depending one |
| Targets.Project.RecordDependency | csant/csant_parse.c:195-231 | The comma-separated list is recorded piece by piece up to the first rejected one; the graph stays acyclic either way |
| Targets.SplitAt | csant/csant_parse.c:203-210 | Cutting at the next comma is one step of splitting the list |
| Targets.SplitJoins | csant/csant_parse.c:203-210 | The pieces of a list are what stands between its commas |
| Targets.RecordedExactly | csant/csant_parse.c:195-231 | A list is accepted if and only if recording all of it leaves the graph acyclic |
| Targets.RecordedInOrder | csant/csant_parse.c:195-231 | The pieces before the first rejected one are appended to the dependencies of the target, in their order; no other target gets a dependency, and none but the listed ones becomes known |
| Traces.EnteredOnce | csant/csant_build.c:186-191 | Each target is entered at most once per build |
| Traces.StartedInOrder | csant/csant_build.c:228-245 | The tasks of a target are started in order, each at most once |
| Traces.NothingAfterFailure | csant/csant_build.c:210-245 | Without keep-going nothing is entered or started after the first failure |
| Traces.DependenciesFirst | csant/csant_build.c:209-245 | Without `<call>`, a task starts only after every task of every direct and indirect dependency has ended, in fail-fast mode successfully |
| Traces.DependenciesRunOrOpen | csant/csant_build.c:118-245 | In every build, `<call>` and cycles included, the same for each dependency that is not itself, or behind, a target still being built |
| Answers.EntryAt | csant/csant_build.c:137-140 | The first entry of the task table with that name, if there is one |
| Answers.NoFailureExactly | csant/csant_build.c:118-158 | A build has no failure if and only if every task function that was called succeeded and every task run could be carried out: its tag is in the table, or its `<call>` names a target |
| Answers.SinceStart | csant/csant_build.c:118-158 | Whether something failed since the start of a task is a question of the number of failures then and now |
| Answers.AllEntered | csant/csant_build.c:118-245 | After a build without failures, everything reached through dependencies and calls has been entered |
| Answers.DependenciesAreDone | csant/csant_build.c:209-245 | In particular every direct and indirect dependency of a requested target has run all its tasks |
| Builds.SettledBelow | csant/csant_build.c:186-223 | Outside the recursion stack, what is marked built is finished together with everything it depends on |
| Builds.ReadyToStart | csant/csant_build.c:209-223 | When the direct dependencies are settled, so are all indirect ones |
| Builds.StackGrows | csant/csant_build.c:211-213 | Every target on the recursion stack depends on the one being entered |
| Builds.OpenOrFinished | csant/csant_build.c:186-223 | In every build, each dependency of a target whose direct dependencies were entered is finished or behind a target on the stack |
| Builds.Builder.Enter | csant/csant_build.c:186-191 | Sets one flag of a target not entered before |
| Builds.Builder.ProcessTask | csant/csant_build.c:118-158 | `<call>` without a target, or of one that does not exist, fails, and otherwise succeeds exactly if nothing failed below, its target having been entered; any other task succeeds exactly if its first table entry is skipped when installing or its function, called once with this task, succeeds |
| Builds.Builder.RunTask | csant/csant_build.c:225-245 | One task from start to end: the answer recorded is the one the table and the task function give; success exactly if nothing failed |
| Builds.Builder.BuildDependencies | csant/csant_build.c:209-223 | The dependencies are entered one after the other in the order of the list, each left before the next, and settled, unless a failure stops the loop; success exactly if nothing failed |
| Builds.Builder.RunTasks | csant/csant_build.c:225-245 | All tasks are run in order unless a failure stops the loop; success exactly if nothing failed |
| Builds.Builder.BuildTarget | csant/csant_build.c:163-288 | For every graph and task list, cyclic calls included: terminates, keeps the discipline, enters and leaves the target unless it has been entered before, enters nothing that it does not depend on or call, is non-zero exactly if the target exists (or is the global one) and nothing failed during the call |
| Builds.Builder.Build | csant/csant_build.c:290-389 | Enters the global target and then the requested ones, in that order, and only what is reached from them; non-zero exactly if every task function called succeeded, every task run could be carried out and every requested target exists; then everything reached through dependencies and calls has run all its tasks; every target entered has been left |
| Builds.Requested | csant/csant_build.c:299-303 | The default target is built exactly if none is requested |
| Regex.StarNone | csant/csant_fileset.c:144-157 | A starred complemented set matches exactly the stretches without its characters |
| Wildcards.CopySet | csant/csant_fileset.c:174-188 | Copies a set up to its bracket or the end of the pattern |
| Wildcards.BuildIncludeRegex | csant/csant_fileset.c:103-242 | The loop computes the specified expression and whether sub-directories have to be searched |
| WildcardMeaning.StarTokens | csant/csant_fileset.c:116-165 | How a pattern that starts with stars is read: `**` and a separator of either kind, `**`, or `*` |
| WildcardMeaning.SetTokens | csant/csant_fileset.c:174-188 | A set reaches to its bracket, or without one to the end of the pattern |
| WildcardMeaning.CharacterTokens | csant/csant_fileset.c:159-221 | Any other character is read by itself |
| WildcardMeaning.TokensMean | csant/csant_fileset.c:111-235 | The tokens of every pattern match exactly the names that the pattern means, by a definition on its characters alone |
| WildcardMeaning.EmitIsText | csant/csant_fileset.c:113-222 | The emitted text is that of the wildcard's tokens, for every pattern |
| WildcardMeaning.ParseSet | csant/csant_fileset.c:174-188 | A copied set is a bracket expression with the same members |
| WildcardMeaning.ParseText | csant/csant_fileset.c:111-235 | The emitted text parses, as an extended regular expression, to the tokens' expressions in sequence |
| WildcardMeaning.TokenMatches | csant/csant_fileset.c:116-221 | The expression of a token matches exactly the strings the token stands for |
| WildcardMeaning.WholeMatches | csant/csant_fileset.c:111-235 | The sequence matches exactly to the end of the names that can be cut into what the tokens stand for |
| WildcardMeaning.TranslationMeaning | csant/csant_fileset.c:103-250 | With plain sets, and `+`, `{` and the vertical bar in sets only: for every name, the compiled expression accepts it if and only if the pattern means it, read character by character (`Means`) |
| WildcardExact.TranslationExactly | csant/csant_fileset.c:103-250 | With plain sets and `{` in sets only: the two agree on all names if and only if `+` and the vertical bar occur in sets only |
| WildcardExact.WithoutSets | csant/csant_fileset.c:103-250 | Without sets and `{`: they agree on all names if and only if the pattern has no `+` and no vertical bar |
| WildcardExact.OperatorsDiffer | csant/csant_fileset.c:189-221 | Otherwise a name on which they differ |
| WildcardExact.NoShorter | csant/csant_fileset.c:116-221 | No name is shorter than the tokens of the wildcard demand |
| WildcardExact.ShortAccepted | csant/csant_fileset.c:111-235 | If the text compiles, it accepts the shortest strings of its tokens up to the first vertical bar, without the plus signs |
| WildcardExact.RecursiveMeaning | csant/csant_fileset.c:116-173 | A name with a separator can match if and only if sub-directories are to be searched or a `?` or a set stands for a separator |
| WildcardExact.PlusIsRepetition | csant/csant_fileset.c:189-221 | For `a+` the two differ, in both directions |
| WildcardMeaning.LeadingDirectory | csant/csant_fileset.c:335-359 | The longest part that ends at a separator and has no wildcard character; all of it for a literal name |
| WildcardMeaning.PrefixMeaning | csant/csant_fileset.c:335-404 | Matching the rest of the pattern below that directory is the same as matching the whole pattern |
| DocShape.AppendPrints | csdoc/doc_load.c:118-188 | A new node adds itself at the end of the printed stream |
| DocShape.ClosePrints | csdoc/doc_load.c:189-199 | An end tag closes the innermost open tag, which becomes the last node |
| DocShape.AppendPlace | csdoc/doc_load.c:118-188 | Where the next node goes after a node or a start tag |
| DocShape.AppendShape | csdoc/doc_load.c:127-138 | One link store puts the node at its place, all parent links correct, no node shared |
| DocShape.PrintInjective | csdoc/doc_load.c:104-210 | The printed stream determines the tree |
| DocShape.SingletonIsPair | csdoc/doc_load.c:104-210 | A singleton tag is read like a start tag and an end tag, a skipped item like nothing, wherever they stand |
| DocShape.ExpandPlain | csdoc/doc_load.c:104-210 | All other streams are printed back as they are |
| Docs.DocLoader.Attach | csdoc/doc_load.c:120-138 | Allocates a node and links it after `last`, below `parent`, or as the document |
| Docs.DocLoader.ParseDocs | csdoc/doc_load.c:104-210 | Builds a well-linked tree that prints, up to its open tags, what was read; for balanced streams the whole stream, an empty pair and a singleton tag being the same |
| Interfaces.AcyclicIsRanked | codegen/cg_interface.c:195-204 | Inheritance without a cycle has a rank by which the recursions go down |
| Interfaces.MethodReportIs | codegen/cg_interface.c:31-54 | At most one callback for a method: a proxy request exactly if only a proxy has it, an error exactly if nothing has it |
| Interfaces.SemanticsAppend | codegen/cg_interface.c:60-92 | Accessors are reported one after the other, up to the first error |
| Interfaces.MemberReportIs | codegen/cg_interface.c:31-92 | A proxy is requested for exactly the methods the member asks for that have only a proxy; an error names the member exactly if it is not satisfied |
| Interfaces.MemberReportError | codegen/cg_interface.c:150-162 | An error is reported for a member exactly if something it asks for is neither implemented nor reachable by a proxy |
| Interfaces.ReportsError | codegen/cg_interface.c:107-190 | Over a list of interfaces an error is reported exactly if some member of some of them is not satisfied |
| Interfaces.ReportsAre | codegen/cg_interface.c:107-190 | The same over any list of interfaces |
| Interfaces.VisitsRoot | codegen/cg_interface.c:137-167 | Entering a new interface and then its parents visits exactly what it reaches and was not visited |
| Interfaces.VisitsAll | codegen/cg_interface.c:206-233 | Starting with nothing visited, the array ends up with exactly the inherited interfaces |
| Interfaces.Checker.ImplementsMethod | codegen/cg_interface.c:31-54 | The callback made, and whether it is an error |
| Interfaces.Checker.ImplementsMethodSem | codegen/cg_interface.c:60-92 | The callbacks made for the accessors of a property or event, up to the first error |
| Interfaces.Checker.CheckMembers | codegen/cg_interface.c:147-162 | The callbacks for all members; non-zero exactly if one of them is an error |
| Interfaces.Checker.ImplementsInterface | codegen/cg_interface.c:107-168 | Visits exactly what the interface reaches and was not visited, within its spanning size, with exactly the callbacks of those |
| Interfaces.Checker.ImplementsAllInterfaces | codegen/cg_interface.c:174-190 | The same for all direct interfaces of a class |
| Interfaces.Checker.GetSpanningSize | codegen/cg_interface.c:195-204 | The number of interfaces along all inheritance paths |
| Interfaces.Checker.ImplementsAll | codegen/cg_interface.c:206-233 | Processes each inherited interface exactly once, never leaves the array, and is non-zero exactly if every member of every inherited interface is available; a proxy is requested for a method if and only if some member of an inherited interface asks for it and only a proxy has it, an error names a member if and only if it is one of an inherited interface and not satisfied |
| Conversions.FindBuiltin | codegen/cg_optable.c:1363-1398 | Finds a row of the conversion table exactly if one applies, and then the first one |
| Conversions.ScanClass | codegen/cg_resolve.c:56-144 | Among the operators of one class: the first exact match, or else the first close one unless one was found before |
| Conversions.ResolveConversion | codegen/cg_resolve.c:39-172 | The search over the class chain and, for interfaces, over those they extend |
| Conversions.ResolvedIs | codegen/cg_resolve.c:53-171 | The search finds an operator exactly if one on the chain or among the extended interfaces fits, and it does |
| Conversions.ExactWins | codegen/cg_resolve.c:133-171 | On a class chain an exact match anywhere wins over any close one, of which the nearest and first is taken |
| Conversions.SelectedIs | codegen/cg_resolve.c:133-171 | An operator is selected exactly if one fits, and the selected one does |
| Conversions.FindConversion | codegen/cg_coerce.c:61-90 | Records the implicit operator of the chain, or for casts, if there is none, the explicit one |
| Conversions.UserOperatorIs | codegen/cg_coerce.c:531-552 | Trying the source type's classes and then the target's finds an operator exactly if any of them has one that fits |
| Conversions.UserRules | codegen/cg_coerce.c:531-552 | Succeeds exactly if some operator of either type's classes fits, and records the one so chosen |
| Conversions.ReferenceRules | codegen/cg_coerce.c:102-219 | Decides the reference conversions, array covariance at every nesting included; a run-time check is recorded if the conversion is not an implicit one, and in a sensible class library only then |
| Conversions.BoxingRules | codegen/cg_coerce.c:224-333 | Decides boxing and unboxing and always records the class of the value type |
| Conversions.UnsafeRules | codegen/cg_coerce.c:338-462 | Decides the pointer conversions and records the table row or the pinning that they need |
| Conversions.EnumRules | codegen/cg_coerce.c:574-611 | Decides the enumeration casts by their underlying types, and records what the conversion of those records |
| Conversions.GetConvertRules | codegen/cg_coerce.c:467-623 | Terminates on all types; succeeds exactly if a conversion of the allowed kinds exists; then records exactly the rule that `Selects` prescribes, of numeric row, operator, checked cast, boxing, enumeration and pointer conversion the first that applies, or nothing; an implicit conversion records neither a checked cast nor an unboxing; a failure records nothing |
| Conversions.CastExactly | codegen/cg_coerce.c:102-219 | Between reference types a checked cast is recorded exactly when the conversion is not an implicit one |
| Conversions.BoxingRecorded | codegen/cg_coerce.c:224-333 | Between values and references, unless a table row or an operator provides for it, every success records a boxing or an unboxing, of the class of the value |
| Conversions.NothingRecorded | codegen/cg_coerce.c:467-623 | Nothing is recorded only for identical types, the null reference, implicit reference conversions, pointers among each other or to native integers, pinned references, and enumerations whose underlying types need nothing |
| Conversions.ReferenceMeaning | codegen/cg_coerce.c:102-189 | Between classes and interfaces: implicit if and only if every object there may be of the one is of the other; a cast if and only if there may be an object of both, sealed classes having no further derived ones |
| Conversions.BoxingMeaning | codegen/cg_coerce.c:224-333 | A value can be boxed if and only if the boxed value is of the target class or interface, and then unboxed by a cast |
| Conversions.ImplicitIsExplicit | codegen/cg_coerce.c:467-623 | Every implicit conversion is also a cast, except those that only a `fixed` statement allows |
| Conversions.NoCastExactly | codegen/cg_coerce.c:404-458 | The exact condition under which an implicit conversion is not a cast |
| Conversions.PinnedStringIsNoCast | codegen/cg_coerce.c:404-419 | A string to a character pointer is such a conversion, unless the table or an operator provides for it |
| Conversions.MoreKinds | codegen/cg_coerce.c:1127-1141 | Allowing more kinds takes no conversion away |
| Conversions.OperatorArgument | codegen/cg_coerce.c:957-972 | The conversion of an operator's argument, on which applying the rules relies, always exists |
| Temps.FreeAt | codegen/cg_gen.c:460-469 | The first free slot of the type |
| Temps.StepCounts | codegen/cg_gen.c:456-520 | A slot of a type is added only when all slots of that type are in use |
| Temps.StepExactly | codegen/cg_gen.c:456-520 | A request changes no slot but the one it answers with or releases; it fails exactly if no slot is free and the limit is reached |
| Temps.SlotsArePeak | codegen/cg_gen.c:456-520 | Over every run, the slots of a type are as many as its temporaries ever were in use at once |
| Temps.RunsAreTemporary | codegen/cg_gen.c:493-518 | Every slot of a run has the scope level of a temporary, so releasing its index frees it |
| Temps.IndicesBounded | codegen/cg_gen.c:471-477 | Indices stay below 0xFFFF |
| Temps.RangesDisjoint | codegen/jv_output.c:1045-1062 | Different variables take disjoint ranges of Java slots |
| Temps.TypeSize | codegen/jv_output.c:486-503 | No slot for void, two for the 64-bit types, one for all others |
| Temps.Generator.JavaGenStartFrame | codegen/jv_output.c:1033-1038 | A new frame has no slots |
| Temps.Generator.JavaArgSlot | codegen/jv_output.c:455-465 | The slot of an argument, whose range ends before the first local's |
| Temps.Generator.JavaLocalSlot | codegen/jv_output.c:441-453 | The slot of a local, whose range lies between the arguments and the total |
| Temps.Generator.JavaGenAddFrameSlot | codegen/jv_output.c:1045-1062 | The next variable starts where the last one ended |
| Temps.Generator.TempTypedVar | codegen/cg_gen.c:456-510 | Never returns a slot in use, of exactly the requested type, other slots unchanged |
| Temps.Generator.ReleaseTempVar | codegen/cg_gen.c:512-520 | Frees exactly the slot of the index, if it is a temporary's, and changes no other; other indices are ignored |
| Constants.AsmOutput.ILGenInt32 | codegen/cg_utils.c:27-45 | Leaves the bit pattern of every value; among constants with conversions the code is a shortest one if and only if the value is not in 128..255 or 65408..65535 |
| Constants.AsmOutput.ILGenUInt32 | codegen/cg_utils.c:47-65 | The same, under the same condition, for every unsigned value |
| Constants.AsmOutput.ILGenInt64 | codegen/cg_utils.c:67-79 | Leaves the 64-bit pattern of every signed value; the code is a shortest one if and only if the value is neither in those ranges nor from 2^31 to 2^32 - 1 |
| Constants.AsmOutput.ILGenUInt64 | codegen/cg_utils.c:81-97 | Leaves the 64-bit pattern of every unsigned value, with the mixed signed and unsigned test, in a shortest code if and only if it is not in 128..255 or 65408..65535 |
| Constants.AsmOutput.ILGenLoadLocal | codegen/cg_utils.c:111-125 | Decodes to a load of the requested local, cut to 16 bits |
| Constants.AsmOutput.ILGenStoreLocal | codegen/cg_utils.c:127-141 | The same for a store |
| Constants.AsmOutput.ILGenLoadLocalAddr | codegen/cg_utils.c:143-153 | The same for an address |
| Constants.AsmOutput.ILGenLoadArg | codegen/cg_utils.c:155-169 | The same for an argument |
| Constants.AsmOutput.ILGenStoreArg | codegen/cg_utils.c:171-181 | The same for storing an argument |
| Constants.AsmOutput.ILGenLoadArgAddr | codegen/cg_utils.c:183-193 | The same for the address of an argument |
| Constants.AsmOutput.JavaGenInt32 | codegen/jv_output.c:76-99 | Leaves the value's bit pattern on the Java target |
| Constants.AsmOutput.JavaGenUInt32 | codegen/jv_output.c:101-104 | The same for unsigned values |
| Constants.AsmOutput.JavaGenInt64 | codegen/jv_output.c:106-132 | The same for 64 bits |
| Constants.AsmOutput.JavaGenUInt64 | codegen/jv_output.c:134-137 | The same for 64 bits unsigned |
| Constants.HighUnsigned | codegen/cg_utils.c:88-92 | The values that take the second branch of the unsigned 64-bit emitter are those a sign-extended 32-bit constant gives |
| Constants.CodeAtLeast | codegen/cg_utils.c:27-97 | No constant with conversions, however many, leaves a pattern in fewer bytes than the least size |
| Constants.LeastReached | codegen/cg_utils.c:27-97 | For every pattern of 32 or 64 bits some constant with conversions has exactly the least size |
| Constants.ShortestIs | codegen/cg_utils.c:27-97 | A code is shortest, that is, none with the same pattern is shorter, if and only if its size is the least size |
| Literals.DigitsDecode | codegen/cg_output.c:191-196 | The three octal digits give every byte back, whether `char` is signed or not |
| Literals.Printable | codegen/cg_output.c:179-196 | Only printable characters are printed; a byte stands for itself exactly if it is printable and neither a quote nor a backslash |
| Literals.RoundTrip | codegen/cg_output.c:170-203 | Reading a printed literal back gives the original bytes; the first unescaped quote is the closing one |
| Literals.DecodeEscape | codegen/cg_output.c:181-196 | What is printed for one byte reads back as that byte, whatever follows |
| Literals.PrintString | codegen/jv_output.c:191-224 | The printed literal decodes to the string and holds printable characters only |

## Left out

- RBTree.ILRBTree.Insert: requires a black root, because a chained node can leave the root red and the descent is not made for that; `RunBlackExactly` says exactly on which runs this cannot happen. Only a newly made node may be inserted, as in `AddToScope`.
- Scopes.Scope.AddToScope: requires a black root, as `Insert` does; scopes that are only filled by declarations keep it.
- Scopes.Scope.Declare: requires a black root likewise, and so do `DeclareLocal`, `DeclareLocalConst` and `DeclareAlias`; `DeclareAll` shows that runs of declarations keep it. Like `Lookup` they require that directives lead round no circle.
- Scopes.Scope.Lookup: requires that the `using` directives lead round no circle, on which the search does not end.
- Scopes.Scope.LookupFrom: requires the same.
- WildcardMeaning.TranslationMeaning: says nothing about patterns with `{` outside sets, because intervals are not part of the expression grammar of this model, nor about sets with ranges, classes or no members, which are copied into the expression as they are (`CopySet`).
- WildcardExact.TranslationExactly: leaves the same patterns out.
- WildcardExact.RecursiveMeaning: leaves the same patterns out.
- Conversions.ReferenceMeaning: is about classes and interfaces; arrays are covered by `ReferenceRules`, by their elements.
- Conversions.GetConvertRules: type identity is equality without the prefixes at any depth; the class of types that the table of builtin conversions puts a type in is given as a function; class metadata is given as relations, the class chain by a numbering in which parents come first. Indirect conversions through two user types, constants that fit a narrower type and `ILBetterConversion` are not modelled.
- Interfaces.Checker.ImplementsAll: requires inheritance without a cycle, on which the C code does not end; the expansion of generic interfaces is not modelled.
- Namespaces.ScopePool.FindNamespaceScope: the name table of a scope is a map from names to first declarations, which `Scopes` proves of the tree; only normal scopes, without `using` directives and aliases; an absent full name and an empty one are the same.
- Native-size constants, floats and `ILGenConst`; codes that get an integer from a floating-point constant, from arithmetic or by a conversion with an overflow test or to a native-size or floating-point type are not compared in size.
- The comparison function of a red-black tree is fixed to the one of name scopes, on characters compared as unsigned values; node payloads are reduced to kind, name and one datum.
- Freeing a tree (`FreeSubTree` does not account for chains), `ILScopeDataModify`, importing types and resolving qualified names.
- The Windows branches of the wildcard translation, compiling and running expressions in the library, walking directories, adding and removing files in a set.
- Task parameters with property substitution, parsing of build files, printing of messages, starting of processes; a task function is an arbitrary success value per call, and installing and uninstalling are one mode.
- The tables of types in documentation files (`ParseTypes`), attributes and all other parts of their XML.
- Labels, jumps and switches, the operator tables, variable usage analysis.
- Running out of memory, and counters beyond the width of a machine integer.
