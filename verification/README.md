# Sardis: a verified model of its core

Sardis is a personal operations tool: it runs configured commands, keeps track of
repositories, generates code in dependency order, and carries a small message
dispatcher. This project models the parts of it that decide something, and proves
what they promise. Each file follows one part of the program.

* **Build order** (`BuildOrder.dfy`, `Rounds.dfy`). `GetBuildOrder` layers packages by
  dependency with a rotating queue, a pending group and a counter of iterations
  without progress. The counter's meaning is the loop invariant: the last min(runs,
  queue length) packages in the queue are blocked. From it follow the canonical
  layering (a package's group is the length of its longest dependency chain, also when
  the run is cut short), failure exactly when some packages can never be built, a
  bound on the number of iterations, independence of the input order, and what
  `Narrow` keeps. `Rounds.dfy` tells the same run without the rotating queue and the
  counter, in rounds; the loop delivers exactly what they do, at whichever iteration
  the context fails.
* **Commands** (`Dots.dfy`, `Groups.dfy`, `Slices.dfy`, `Configuration.dfy`,
  `MergeGroups.dfy`, `MergeLaws.dfy`, `SharedArrays.dfy`, `Outcomes.dfy`,
  `CommandTree.dfy`, `CommandList.dfy`). Groups of commands are renamed, expanded by
  alias, merged by dotted key, sorted, exported, offered in menus, filtered by name,
  and indexed in a mutable tree. A group's commands are a slice of an array, which
  alias copies share and into which merging appends. The laws: what merging keeps
  whatever is shared, exactly when sharing does not show, what it then conserves, when
  the group comparison can be sorted with, a tree on the heap that agrees with a scan
  of the list, and the algebra of dotted names that holds it together.
  `CommandList.ConfiguredCommandIsFound` runs through the whole pipeline.
* **Dispatcher** (`Dispatcher.dfy`, `DispatcherService.dfy`, `Replies.dfy`). A machine
  of small steps, taken by any number of workers in any order, with middleware,
  handlers and interceptors that may do anything to what they are given; the bodies of
  the services, as methods that compute a stated response and whose every execution is
  a run of that machine; and exactly when a caller of `Exec` can get the response to
  another message. `Sums.dfy` has the bookkeeping of multisets.
* **Repository index** (`RepoIndex.dfy`). The cached index of repositories by name,
  tag and tag group, against a scan of the configured list.
* **Message identifiers** (`MessageId.dfy`). Printing, parsing, length, and the
  counter that keeps identifiers apart.

`Prelude.dfy` and `Ordering.dfy` hold what the rest share: options and results,
filtering, the last element of a kind, comparison of strings, and stable sorting.

## How the model reads the code

* **Mutable state.** The configuration of commands, the tree's nodes, the repository
  index, the identifier counter and the dispatcher's registries are classes whose
  methods update them. A group is kept as its fields and a slice, that is, the number
  of an array and a length; the arrays are a list of lists of fixed length
  (`Slices.Store`). Other slices and structs that the program copies are values. A
  tree's methods carry a picture of the heap (`CommandTrees.Layout`) as a ghost.
* **Append.** The configuration's append is any function that does what the language
  says: in place while there is room, or else in a new array whose length a growth
  function gives (`Slices.IsAppend`). Before validation every configured group has an
  array of its own, as reading a configuration makes them.
* **Collecting a set.** `repo/conf.go:107` passes `irt.Collect` the size of the set it
  collects. The library is not part of this model; its result is taken to be the
  elements of the set and nothing else, so the number is read as a capacity.
  `subexec/group.go:199-202` passes two numbers, which are read as a length of zero and
  a capacity.
* **Outside the program.** The host name, the host identifier, the time, random
  draws, and the answers of `ctx.Err()` (a function of the iteration that asks) are
  parameters. So are the functions registered with the dispatcher. Order of
  iteration over a Go map is arbitrary: the methods take any order.
* **Errors.** A returned error is the `Err` of a result; a panic of
  `rebuildIndexes` is a value of its own, and the dispatcher's recovered panics are
  errors. Error texts are not modelled, except where the dispatcher wraps one.
* **Numbers.** Sort hints, timestamps and the counter are 64-bit and wrap; lengths and
  loop counters are unbounded. Strings are sequences of characters, compared by code.
* **Unaliased names.** Nothing in the program sets `unaliasedName`; the lemmas that
  need it empty say so.

## Where code and documentation disagree

The model follows the code.

* `x/router/dispatcher.go:31-33` says that the error observer is called for handler
  errors; the code calls it for middleware errors only (lines 390-401, and
  `Dispatchers.Accounted`).
* `x/router/model.go:85-88` says that interceptors do not otherwise modify the
  response; they are given a pointer and may. One that rewrites IDs can misdirect a
  response (`Replies.MisdirectingRun`).
* `x/router/rand.go:38-43` speaks of at least sixteen random characters; there are at
  most sixteen, and none when the fixed part is long (`MessageIds.IDLength`).
* `util/dots.go:44-46` reads as if blank strings were dropped; only the empty one is
  (`Dots.DropsOnlyEmpty`).
* `subexec/subexec.go:112-117` copies a group for each alias, and with it the slice of
  its commands. Appending to one of them while there is room behind the commands
  writes where the others will, and commands are lost (`SharedArrays.SpareLoses`,
  `SharedArrays.AliasedMenuLoses`). The loss is exactly when a group with aliases has
  such room (`SharedArrays.SharingShowsUnlessTight`).
* `subexec/group.go:157-161` refuses to merge groups of different categories, and the
  caller drops the refused group (`subexec/subexec.go:132-135`). Groups of different
  categories can share a key when a category has a dot in it or a name is empty
  (`SharedArrays.MergingConserves`, `MergeLaws.DottedCategoryLoses`).
* `repo/conf.go:37-44` checks that no group has the name of a tag after
  `rebuildIndexes` has entered the groups among the tags, so every group is reported
  (`RepoIndex.Configuration.DoValidate`).
* `repo/conf.go:80` marks the index as built even when building it panics
  (`RepoIndex.Configuration.RebuildIndexes`).

## Model

| member | source | states |
|---|---|---|
| `BuildOrders.IndexByPackageName` | tools/gadget/daggen.go:68-75 | the index has the packages' names as keys, and under each name the last package that has it |
| `BuildOrders.Graph` | tools/gadget/daggen.go:99-113 | one node a package, in the input's order, with its name and dependencies |
| `BuildOrders.SplitReady` | tools/gadget/gendget.go:57-72 | the names of the packages without dependencies, and those of the others, each in input order; together all packages, each once |
| `BuildOrders.FirstGroup` | tools/gadget/gendget.go:73-78 | the sorted packages without dependencies are a finished bottom group (which may be empty), and the loop invariant holds to begin with |
| `BuildOrders.Flush` | tools/gadget/gendget.go:95-103 | when the counter meets the queue's length every queued package is blocked, so the pending group is complete: appended and sorted, it is finished |
| `BuildOrders.Advance` | tools/gadget/gendget.go:138-139 | a package with nothing missing joins the pending group and the invariant holds with the counter at zero |
| `BuildOrders.Block` | tools/gadget/gendget.go:130-136 | a blocked package goes to the back of the queue and the invariant holds with the counter one up |
| `BuildOrders.Stuck` | tools/gadget/gendget.go:105-116 | when the loop gives up, nothing is pending and the queue itself is an obstruction |
| `BuildOrders.AllSeen` | tools/gadget/gendget.go:92-94 | when as many are seen as there are packages, nothing is pending or queued |
| `BuildOrders.Deliver` | tools/gadget/gendget.go:142-149 | the pending group appended unsorted gives a layering, complete if the queue is empty |
| `BuildOrders.FlushNext` | tools/gadget/gendget.go:95-103 | the pending group goes behind the others in dictionary order, and counts as seen |
| `BuildOrders.FlushInvariant` | tools/gadget/gendget.go:95-103 | the flush keeps the loop invariant, with nothing pending and the counter at zero |
| `BuildOrders.PopOne` | tools/gadget/gendget.go:118-139 | a package whose dependencies have all been seen joins the pending group and resets the counter; another goes to the back and is counted |
| `BuildOrders.PopInvariant` | tools/gadget/gendget.go:118-139 | one pop keeps the loop invariant |
| `BuildOrders.LayeringLoop` | tools/gadget/gendget.go:87-140 | when the context first fails at iteration cut, the loop takes exactly the lesser of cut and the whole run's iterations plus one; it gives up exactly when the whole run does and comes first; otherwise it leaves exactly what the rounds come to by then |
| `BuildOrders.ResultIsLayering` | tools/gadget/gendget.go:87-140 | what it leaves is a state of the loop invariant, with an empty queue if it was not cut short; when it gives up the input is obstructed |
| `BuildOrders.Stop` | tools/gadget/gendget.go:92-117 | after any number of iterations, the finished groups and the pending one are those of the rounds, and the loop is at its end exactly when the whole run is |
| `Rounds.CounterRound` | tools/gadget/gendget.go:95 | with something pending, the counter meets the queue's length exactly when every waiting package has come by since the last ready one |
| `Rounds.RoundOver` | tools/gadget/gendget.go:95-139 | after a round the queue is the packages behind the last ready one, then those passed over before it |
| `Rounds.TenTimesRound` | tools/gadget/gendget.go:105-116 | with nothing left that could be built, the run gives up after ten times round the queue |
| `Rounds.CutEarly` | tools/gadget/gendget.go:92-144 | cut at iteration n + 1 within the first time round the queue, the run delivers the bottom group and, of the first n queued packages, those whose dependencies are all in it, in input order |
| `BuildOrders.GetBuildOrder` | tools/gadget/gendget.go:45-149 | no packages is an error of its own; a result is a layering with its finished groups in dictionary order, complete unless the context failed; without cancellation it fails exactly when the input is obstructed; it stops at the first iteration that finds the context failed and delivers exactly what the rounds come to by then, the pending group last; with n packages that have dependencies it takes at most 11 n(n+1)/2 - n + 1 iterations |
| `BuildOrders.ObstructionNeverPlaced` | tools/gadget/gendget.go:118-139 | packages that each depend on one of them, or on a missing package, are in no group of any run |
| `BuildOrders.CompleteMeansUnobstructed` | tools/gadget/gendget.go:105-149 | a complete layering exists only when there is no obstruction |
| `BuildOrders.ChainBelow` | tools/gadget/gendget.go:60-144 | a dependency chain that ends in group k has at most k + 1 packages |
| `BuildOrders.ChainTo` | tools/gadget/gendget.go:60-144 | a package of group k ends a dependency chain of k + 1 packages |
| `BuildOrders.GroupIsLongestChain` | tools/gadget/gendget.go:60-144 | the group of a package is the length of its longest dependency chain, also in a run cut short |
| `BuildOrders.DependenciesOfGroup` | tools/gadget/gendget.go:95-144 | the dependencies of a member of group k are in groups below k and, for k above zero, one is in group k - 1 |
| `BuildOrders.GroupsDisjoint` | tools/gadget/gendget.go:77-144 | no package is in two groups, or twice in one |
| `BuildOrders.SameGroup` | tools/gadget/gendget.go:95-103 | two runs on the same dependencies have the same groups, as sequences, below the last |
| `BuildOrders.InterruptedIsPrefix` | tools/gadget/gendget.go:92-149 | a run cut short delivers the same groups as the whole run, then part of the next one |
| `BuildOrders.OrderIndependent` | tools/gadget/gendget.go:60-149 | for two permutations of the packages, complete results have equal groups but the last, and equal members in the last |
| `BuildOrders.Narrow` | tools/gadget/gendget.go:21-37 | each group filtered by the limits, without those that become empty; packages and path are kept |
| `BuildOrders.NarrowFilters` | tools/gadget/gendget.go:24-34 | the narrowed order flattened is the order flattened and filtered |
| `BuildOrders.NarrowLeavesNoEmpty` | tools/gadget/gendget.go:31-33 | no narrowed group is empty |
| `BuildOrders.NarrowOrigin` | tools/gadget/gendget.go:24-34 | a narrowed group is what is left of one group, with what is left of those below it below |
| `BuildOrders.NarrowRespectsDependencies` | tools/gadget/gendget.go:21-37 | if listed dependencies are listed in earlier groups, they still are after narrowing |
| `BuildOrders.LayeredRespectsDependencies` | tools/gadget/gendget.go:77-144 | a delivered layering lists dependencies in earlier groups |
| `Dots.DeleteFunc` | util/dots.go:45 | the elements that are kept move to the front of the array in order, and the rest is cleared |
| `Dots.SparseString` | util/dots.go:44-46 | what is left at the front of the array is the non-empty strings, blank ones included |
| `Dots.DropsOnlyEmpty` | util/dots.go:45 | the joined predicate holds of the empty string only |
| `Dots.MakeSparse` | util/dots.go:15 | what is left at the front of the array is the non-empty strings |
| `Dots.JoinSplit` | util/dots.go:11 | joining the segments of a name gives the name |
| `Dots.SplitJoin` | util/dots.go:11 | splitting a joined list of dot-free segments gives the list |
| `Dots.PathDotJoin` | util/dots.go:9-11 | the path of a joined name is the paths of its parts one after another, for all strings |
| `Dots.DotJoinConcat` | util/dots.go:9-10 | joining a list is joining two parts of it and then the results |
| `Dots.DotJoinAssociative` | util/dots.go:9-10 | a name may be joined in one go or with any run of parts joined before |
| `Dots.DotJoinDropsEmpty` | util/dots.go:9-15 | an empty part does not show |
| `Dots.PathCanonical` | util/dots.go:9-15 | the name that a path joins to has that path |
| `Dots.KeyDeterminesName` | subexec/subexec.go:125 | equal group keys with one category come from equal names |
| `Dots.DotFreeKey` | subexec/subexec.go:125 | without dots, and with non-empty names, category and name can be read off a group key |
| `Configurations.Configuration.Validate` | subexec/group.go:68-154 | the group has a name unless name and prefix were empty, keeps a category it had, and keeps a prefix only behind category and name; the configured commands, and one more for each menu selection with the selection as its command line, are named after the group; no error exactly when name or prefix was set, every command has a name, every selection is one, and no default is overridden by nothing; the room left behind the commands is what the appends leave; other groups are as they were |
| `Groups.RotationNames` | subexec/group.go:78-92 | the same of the three names, and their dotted name stays |
| `Groups.ValidatedMeans` | subexec/group.go:73-148 | a validated group's commands one by one |
| `Groups.AcceptableMeans` | subexec/group.go:90-112 | what validation accepts, read off the configured group |
| `Configurations.Configuration.AddSelections` | subexec/group.go:73-75 | one command for each menu selection, appended one at a time |
| `Configurations.Configuration.NameCommands` | subexec/group.go:95-149 | in place, every command gets its group's names and prefixed name, and other arrays are untouched; errors are reported exactly when a command is ill formed |
| `Groups.RotationKeepsName` | subexec/group.go:78-89 | however category, name and prefix rotate, a command's exported name is the dotted name of category, name, prefix and command as configured |
| `Groups.QualifiedNameIsExportName` | subexec/group.go:97-98 | a validated command's fully qualified name is the name it is exported under |
| `Groups.AcceptsSameCategory` | subexec/group.go:157-161 | groups that meet under one key merge exactly when their categories are equal, and then so are their names |
| `Configurations.Configuration.DoMerge` | subexec/group.go:156-184 | merges exactly groups of one category that have one name or a category that is not empty, and otherwise changes nothing; the commands of the group with the smaller hint go behind those of the other, in the other's array while there is room; the hint further from zero is kept, the first on a tie, the smallest integer losing to all; the aliases are dropped and the rest stays |
| `Groups.HintWithinMeans` | subexec/group.go:169-181 | the comparison of absolute values that wrap round says which hint is no further from zero, the smallest integer being beaten by any other |
| `Slices.AppendIsAppend` | subexec/group.go:163-168 | for every growth there is an append as the language has it: in place while there is room, or else in a new array |
| `Slices.AppendKeeps` | subexec/group.go:163-168 | appending leaves the slices alone that are on other arrays or do not reach into the room |
| `Groups.CommandPreorder` | subexec/subexec.go:161-167 | the command comparison is a total preorder |
| `Groups.CommandOrderMeans` | subexec/subexec.go:161-167 | sorted by it, larger hints come first and, under one hint, names in dictionary order |
| `Groups.GroupOrderMeans` | subexec/subexec.go:175-193 | the group comparison puts groups in order of host, configured before synthetic, larger hint, category, name, prefix, and fewer commands |
| `Ordering.CompareStringMeans` | subexec/subexec.go:164 | a string compares as smaller exactly when it is a proper prefix or has the smaller character at the first difference |
| `Groups.GroupPreorder` | subexec/subexec.go:173-195 | the group comparison is a total preorder when different host pointers lead to different names |
| `Groups.GroupComparisonSound` | subexec/subexec.go:173-195 | it is a total preorder on all groups of some hosts exactly when those hosts can be told apart by name |
| `Groups.HostClash` | subexec/subexec.go:175-176 | two pointers to equal host names give three groups on which it is not a preorder |
| `Groups.FilterCommands` | subexec/group.go:186-213 | succeeds exactly when there are commands and arguments, no argument is repeated and each names a command; then gives the first command of each name, in list order, the names, unaliased where set, being a permutation of the arguments |
| `Groups.FirstOfName` | subexec/group.go:199-202 | a requested name that some command has has a first command, and that is picked |
| `Groups.SelectedCovers` | subexec/group.go:205-210 | as many commands are picked as arguments given exactly when each argument names a command |
| `CommandTrees.LookupIsLast` | subexec/index.go:90-93 | what a path stands for is the last command that has it, by its unaliased name or else its name, or nothing when none has |
| `CommandTrees.Node.Grow` | subexec/index.go:85-95 | hanging a new node keeps the heap a tree, words and keys equal, and every command where it was |
| `CommandTrees.Node.SetCommand` | subexec/index.go:90-93 | one node's command changes and nothing else |
| `CommandTrees.Node.Descend` | subexec/index.go:83-95 | one segment down: the child, made if missing, with the command if the path ends here |
| `CommandTrees.Node.AddOne` | subexec/index.go:78-96 | the nodes on the way to a path are there, the command is at its end, nothing else changes, and the heap stays a tree |
| `CommandTrees.Node.AddCommand` | subexec/index.go:77-96 | the tree of a list becomes the tree of the list and one command more |
| `CommandTrees.Node.Add` | subexec/index.go:74-98 | an empty tree becomes the tree of the commands |
| `CommandTrees.NewCommandTree` | subexec/index.go:23-27 | a new tree on the heap in which every path finds the last command that has it, and which has a node for exactly the prefixes of commands' paths |
| `CommandTrees.Node.IterSearch` | subexec/index.go:118-130 | the node at the path, or nil when there is none |
| `CommandTrees.Node.Find` | subexec/index.go:100-108 | non-nil exactly when the id's path is empty or a prefix of some command's path |
| `CommandTrees.Node.FindCommand` | subexec/index.go:110-116 | the last command whose path is the id's non-empty path, or nil |
| `CommandTrees.Node.NarrowTo` | subexec/index.go:60 | the child is the root of a tree of its own; for the tree of any commands it finds under each path the last command of the path with the key in front |
| `CommandTrees.Node.Resolve` | subexec/index.go:132-147 | ends, and yields the command of every node that has one exactly once, in order of depth; on the tree of a list, the last command of each distinct non-empty path, shorter paths first |
| `CommandTrees.ResolvedCommands` | subexec/index.go:132-147 | what a breadth-first enumeration of nodes yields is, on the tree of a list, the last command of each distinct non-empty path, once each, shorter paths first |
| `CommandTrees.AllVisited` | subexec/index.go:137-144 | when the queue is empty every node has been visited |
| `CommandTrees.EnumerateOne` | subexec/index.go:142-144 | visiting a node and queueing its children keeps the enumeration free of repeats and in order of depth |
| `Configurations.Configuration.DoValidate` | subexec/subexec.go:49-55 | every group is validated, with errors exactly when one is ill formed, then all are merged |
| `Configurations.Configuration.ValidateGroups` | subexec/subexec.go:52-54 | every group is validated and still has an array of its own |
| `Configurations.Configuration.ExpandAliases` | subexec/subexec.go:99-120 | left are exactly the groups that have no host, an empty host or another host's name, or all if local groups are included, each followed by a copy for each alias, on the same array |
| `Configurations.Configuration.MergeInPlace` | subexec/subexec.go:122-136 | in place, the first group of each key takes in the later ones, one after another; the index leads to the first ones; something merged exactly when a key repeats |
| `Configurations.Configuration.ResolveAliasesAndMergeGroups` | subexec/subexec.go:94-199 | nothing but the expansion when keys are distinct; otherwise the merged groups, their slices sorted in place one after another, sorted themselves |
| `MergeGroups.Entries` | subexec/subexec.go:143 | the index as a list of its entries |
| `MergeGroups.IndexInOrder` | subexec/subexec.go:142-146 | sorting the entries by position leaves the first positions of the keys in order, whatever order the map gave |
| `Configurations.Configuration.SortedCommands` | subexec/subexec.go:148-171 | the groups at the first positions of their keys, their slices sorted in place one after another |
| `Configurations.Configuration.SortCommands` | subexec/subexec.go:158-169 | the stable sort of a slice by hint, larger first, then by name, in place |
| `Configurations.Configuration.SortGroups` | subexec/subexec.go:173-195 | a permutation, and the stable sort when the hosts can be told apart |
| `SharedArrays.IntoApart` | subexec/group.go:163-168 | while groups that still matter share only full arrays, one merge leaves every other such group as it was, and keeps them so |
| `SharedArrays.ValuesHold` | subexec/subexec.go:94-199 | if every group with aliases fills its array, expansion, merging and sorting on shared slices come to what they come to on values |
| `SharedArrays.SpareLoses` | subexec/subexec.go:122-136 | whenever a group with an alias and room behind its commands is followed by a group of its name and one of its alias, each of one command and the same category and hint, the first one's command is lost and the second one's stands in its place, whatever append does when there is no room |
| `SharedArrays.SharingShowsUnlessTight` | subexec/subexec.go:94-199 | for a group whose name and aliases do not repeat, and whatever tight groups are configured beside it: merging comes to what it does on values exactly when the group is skipped, has no aliases, or has no room behind its commands |
| `SharedArrays.AliasedMenuLoses` | subexec/group.go:73-75 | the ordinary configuration that loses a command, through validation and merging: a menu of three appended to no commands leaves room for one more, and an alias shares it |
| `SharedArrays.MergingConserves` | subexec/subexec.go:94-199 | with no room behind the commands of groups that have aliases, the commands under a key are conserved exactly when groups of the key with another category than its first group's are empty |
| `SharedArrays.DotFreeMergingConserves` | subexec/subexec.go:94-199 | then they are conserved, under every key, when categories and names have no dots and names are not empty |
| `MergeLaws.DottedCategoryLoses` | subexec/group.go:157-161 | two groups with one key, of which the second's command is lost |
| `Outcomes.OutcomeShape` | subexec/subexec.go:122-197 | whatever arrays the groups share: each group of the result is, in its fields and in how many commands it has, the first group of its key with the later ones merged into it in order |
| `Outcomes.OutcomeGroup` | subexec/group.go:156-184 | so it is the first group of its key but for aliases, commands and hint; its hint is the first one of greatest absolute value among the groups of its key and category, and all of theirs lie between it and its negative, but for the smallest integer, which wins only alone; and it has as many commands as those have together |
| `Outcomes.OutcomeKeysDistinct` | subexec/subexec.go:122-197 | whatever is shared, no two groups of the result have one key |
| `Outcomes.OutcomeKeysKept` | subexec/subexec.go:122-197 | and the keys of the result are those of the expanded groups |
| `Outcomes.OutcomeDeterministic` | subexec/subexec.go:142-197 | two resolutions of one configuration leave the same arrays and the same groups, whatever order the map gives and whatever is shared; the groups are in the same order too when nothing was merged, or their hosts can be told apart |
| `Outcomes.OutcomeHosts` | subexec/subexec.go:122-197 | the hosts of the result are among those of the expanded groups |
| `Outcomes.SortedEach` | subexec/subexec.go:159-168 | slices sorted in place one after another are each in order in the end, whichever of them share an array |
| `Outcomes.OutcomeSorted` | subexec/subexec.go:148-171 | if anything was merged, the commands of every group of the result are in order: larger hints first, then names in dictionary order |
| `Outcomes.OutcomeInOrder` | subexec/subexec.go:173-195 | and so are the groups, when their hosts can be told apart |
| `Outcomes.OutcomeInventsNothing` | subexec/subexec.go:122-171 | whatever is shared, every command of the result was a command of some group: what is lost is replaced by others, never by what was in the room |
| `CommandList.ExportAllCommands` | subexec/subexec.go:205-223 | exactly the commands of the groups that have no host, an empty host or another host's name, or of all groups if local ones are included, in order, under their full dotted names |
| `CommandList.ExportedMember` | subexec/subexec.go:205-223 | a command is exported exactly when it is one of a group not skipped, renamed |
| `CommandList.KeyPrefixes` | subexec/subexec.go:217 | an exported name is the group's key joined with the command's name |
| `CommandList.ExportCommandGroups` | subexec/subexec.go:237-255 | the names are exactly the keys and aliases of those groups, and each leads to the last of them that has it |
| `CommandList.Stage.Resolve` | subexec/list.go:22-32 | the prefixed entries picked, or the plain ones when there are no prefixed ones |
| `CommandList.ResolveCommands` | subexec/list.go:45-134 | every case of the arguments: whole menu, group names, one group's menu, selection by name, keywords with company, mixtures and repeated groups; the unreachable branch is not reached |
| `CommandList.ResolveMany` | subexec/list.go:99-131 | several arguments: all groups without repeats, or all commands, or an error; the unreachable branch is not reached |
| `CommandList.GroupMenu` | subexec/list.go:72-85 | one entry a command, plain and prefixed with the selection |
| `CommandList.SelectByName` | subexec/list.go:87-92 | the selection is that of FilterCommands on the exported commands |
| `CommandList.MenuIsClosedBy` | subexec/list.go:72-85 | a menu under a name offers only names of exported commands if the name is the key of a group, this one or another, that has its commands |
| `CommandList.MenuIsClosed` | subexec/list.go:72-85 | a group asked for under its own key offers only names of exported commands |
| `CommandList.MenuClosedUnderKeys` | subexec/list.go:72-85 | of the groups expanded from one group, the menu under a name they offer is closed, whatever the commands, exactly when the name is the key of the group or of one of its alias copies |
| `CommandList.PicksCanBeSelected` | subexec/list.go:22-32 | what is picked from such a menu are all names of exported commands, so FilterCommands accepts it if nothing is picked twice |
| `CommandList.Tree` | subexec/index.go:36 | the tree is that of the exported commands |
| `CommandList.ConfiguredCommandIsFound` | subexec/subexec.go:205-223 | from configuration to index: if validation leaves no room behind the commands of groups that have aliases, a command of a group that has the category of the first of its key is exported under the dotted name of category, name, prefix and command as configured, and the index finds it unless another command has its path |
| `RepoIndex.Configuration.IndexRepositories` | repo/conf.go:83-97 | panics exactly on a repeated name; otherwise lookup and tags are those of the configured list, in its order |
| `RepoIndex.Configuration.CollectGroup` | repo/conf.go:100-106 | the names a tag group collects from the index as it is, all of them known |
| `RepoIndex.Configuration.IndexGroup` | repo/conf.go:99-109 | one group entered, without repeats, and reported exactly if empty |
| `RepoIndex.Configuration.IndexGroups` | repo/conf.go:99-109 | all groups entered, in some order that the map gave, each as that order determines |
| `RepoIndex.Configuration.RebuildIndexes` | repo/conf.go:76-111 | only the first call does anything; it panics exactly on a repeated name, and otherwise leaves the index of the list and groups as they are then |
| `RepoIndex.Configuration.Join` | repo/conf.go:49-52 | lists and groups are extended and a built index stays as it was |
| `RepoIndex.Configuration.FindOne` | repo/conf.go:54-68 | succeeds exactly for a repository's name or a tag that lists one name, with what FindAll finds alone; otherwise says ambiguous or not found; recurs at most once |
| `RepoIndex.Configuration.FindAll` | repo/conf.go:113-137 | the repositories that the ids stand for in the index, in order, first occurrences only |
| `RepoIndex.Configuration.DoValidate` | repo/conf.go:27-47 | exactly the stated faults of tag groups are reported, and on the first call every tag group is one |
| `RepoIndex.Configuration.GroupErrors` | repo/conf.go:38-43 | exactly the stated faults of one group |
| `RepoIndex.MatchingIsSound` | repo/conf.go:85-97 | an index of a list finds repositories under their own names, and every tag lists only names that are found |
| `RepoIndex.FindAllByScan` | repo/conf.go:113-137 | for ids that are not tag groups FindAll agrees with a scan of the configured list, in order |
| `RepoIndex.FindAllIsScan` | repo/conf.go:113-137 | for closed groups and any mixture of names, tags and groups FindAll finds exactly what the configuration says |
| `RepoIndex.GroupFound` | repo/conf.go:99-108 | for closed groups a tag group finds exactly the repositories that the configured list says |
| `RepoIndex.FoundOnce` | repo/conf.go:118-136 | no repository is found twice |
| `RepoIndex.FirstOccurrences` | repo/conf.go:115-137 | what is found is in the order of first occurrences |
| `RepoIndex.ClosedLists` | repo/conf.go:99-108 | when a group listed in another lists itself and only what the other lists, each stands for what the list says, in any order |
| `RepoIndex.ConfiguredUnlessOpen` | repo/conf.go:99-108 | whatever the repositories and the order the map gives, every group stands for what the list says exactly when the groups are closed in this way |
| `RepoIndex.OrderShowsUnlessClosed` | repo/conf.go:99-108 | whatever the repositories, two orders of the map make the same index exactly when the groups are closed |
| `RepoIndex.RepeatedEntryIsAmbiguous` | repo/conf.go:54-68 | FindOne refuses an id under which FindAll finds a single repository exactly when the id is no repository's name and its list repeats one entry |
| `RepoIndex.RepeatedTagIsAmbiguous` | repo/conf.go:59-64 | by the configuration: exactly when the id is neither a repository's name nor a group, and one repository alone carries it as a tag, more than once |
| `MessageIds.MakeID` | x/router/rand.go:57-72 | time, host, counter and, up to the stated length, letters, the i-th being the one of the fifty-two that the i-th number drawn picks |
| `MessageIds.ParseMakeID` | x/router/rand.go:75-90 | Parse takes an identifier apart into the time, host, counter and suffix it was made of exactly when time and counter are not negative, and fails otherwise |
| `MessageIds.EqualIDsEqualFields` | x/router/rand.go:57-72 | an identifier is made from one time and one counter only, whatever the signs |
| `MessageIds.IDLength` | x/router/rand.go:67 | with P = digits of time and counter + 11, the length is max(P, min(32, P + 16)), which is 32 exactly for P from 16 to 32 |
| `MessageIds.GeneratedIDsDiffer` | x/router/rand.go:53 | identifiers generated in one process differ until the counter has come round, whatever the clock says |
| `MessageIds.CountersDiffer` | x/router/rand.go:16 | the counter takes different values until it has come round |
| `MessageIds.Generator.GenerateID` | x/router/rand.go:53 | the counter goes up by one, wrapping, and the identifier is that of the new value |
| `MessageIds.Generator.PopulateID` | x/router/rand.go:92-97 | an identifier that is there is kept; an empty one is replaced by a generated one, and the counter goes up |
| `Dispatchers.StepConserves` | x/router/dispatcher.go:343-410 | no step loses or doubles a message: each accepted one is in the pipe, a worker, the outgoing queue, a responder, published, or dropped by a failed push |
| `Dispatchers.StepKeepsContents` | x/router/dispatcher.go:378-404 | every step keeps what is known of each message: its ID and protocol, and one of three histories that account for its response |
| `Dispatchers.StepKeepsPipe` | x/router/dispatcher.go:94 | the pipe never holds more than there are workers |
| `Dispatchers.TakenInOrder` | x/router/dispatcher.go:66-122 | messages are taken in the order in which they were accepted, by as many workers as were asked for, or one |
| `Dispatchers.StepKeepsCallers` | x/router/dispatcher.go:227-247 | what a caller of Exec has received has its ID, and was published since it subscribed |
| `Dispatchers.StepKeepsInv` | x/router/dispatcher.go:194-410 | any step of any worker, whatever the functions in it do, keeps the invariant |
| `Dispatchers.ReachableInv` | x/router/dispatcher.go:66-122 | the invariant holds at every reachable state, for any number of workers and responders |
| `Dispatchers.PublishedOnce` | x/router/dispatcher.go:352-365 | no message is published twice |
| `Dispatchers.PublishedNotDropped` | x/router/dispatcher.go:403 | what is published was not dropped |
| `Dispatchers.RunKeepsIDs` | x/router/dispatcher.go:352-365 | if interceptors leave IDs alone, every published response has the ID it was pushed with |
| `Dispatchers.ExecReturnsOwnResponse` | x/router/dispatcher.go:209-258 | Exec returns a response of its own ID; with distinct IDs it answers the very message sent exactly when it has kept the ID it was pushed with |
| `Dispatchers.SentAsGiven` | x/router/dispatcher.go:194-249 | at any step of any run, a message sent with an ID is accepted as it is, and one without gets the generated ID and is otherwise as sent |
| `Dispatchers.ExecAnswersSender` | x/router/dispatcher.go:209-258 | what a caller of Exec gets has the ID that its message was sent with, or the generated one |
| `Replies.NoRunMisdirects` | x/router/dispatcher.go:269-284 | for any relation of what interceptors may do: with distinct IDs no run gives a caller of Exec the response to another message exactly when no chain of what they may do turns the ID of a response that has a protocol and an ID into another one |
| `Replies.MisdirectingRun` | x/router/dispatcher.go:352-365 | for every chain that does, a run in which Exec returns the response to another message |
| `Replies.OneAtATime` | x/router/dispatcher.go:269-284 | if interceptors leave such a response with a protocol and an ID, the condition may be checked one interceptor at a time |
| `DispatcherService.Dispatcher.AddMiddleware` | x/router/dispatcher.go:141-143 | the function goes to the end of the protocol's chain, which is the machine's step |
| `DispatcherService.Dispatcher.AddInterceptor` | x/router/dispatcher.go:145-147 | the function goes to the end of the protocol's chain, which is the machine's step |
| `DispatcherService.Dispatcher.RegisterHandler` | x/router/dispatcher.go:149-151 | refuses the zero protocol and a protocol that has a handler, changing nothing; otherwise it is the machine's step |
| `DispatcherService.Dispatcher.OverrideHandler` | x/router/dispatcher.go:153-158 | replaces the handler, except for the zero protocol; it is the machine's step |
| `DispatcherService.Dispatcher.DoMiddleware` | x/router/dispatcher.go:286-300 | the chain's functions run in order, each on what the one before left, until one fails or the context does; the execution is a run of the machine |
| `DispatcherService.Dispatcher.DoHandler` | x/router/dispatcher.go:302-317 | the handler's response with its error joined to the returned one, or the error of a missing or panicking handler |
| `DispatcherService.Dispatcher.RunChains` | x/router/dispatcher.go:385-389 | the protocol's chain, then the general one; the handler's turn comes only if both succeed |
| `DispatcherService.Dispatcher.Process` | x/router/dispatcher.go:378-404 | the response has the message's ID, and its protocol unless the handler set one; the handler is that of the protocol the message came with and runs once and only after both chains; the observer sees middleware errors only; the execution is a run of the machine |
| `DispatcherService.Dispatcher.DoIntercept` | x/router/dispatcher.go:269-284 | the interceptors run in order until one fails or the context does; the execution is a run of the machine |
| `DispatcherService.Dispatcher.Intercept` | x/router/dispatcher.go:352-365 | the general interceptors, then those of the protocol the response has by then; an error of the first replaces the response's, one of the second is joined to it; the execution is a run of the machine |
| `DispatcherService.ChainsInOrder` | x/router/dispatcher.go:269-300 | while the context holds, a message goes through its protocol's middleware and then the general one, and a response through the general interceptors and then those of its protocol, as through one chain |

## Left out

- Collecting packages, code generation, test runs and the file cache (`tools/gadget`): the dependency lists are arbitrary input, with distinct names as collection guarantees.
- Arrays that configured groups share before validation: reading a configuration gives each group one of its own.
- The exact condition of `SharedArrays.SharingShowsUnlessTight` for a group that repeats its name or an alias among its aliases: that no room is left is enough for those too (`SharedArrays.ValuesHold`), but whether room shows then depends on the order of the aliases and on how much there is.
- `Group.ID`, `IDPath`, `NamesAtIndex`, `Selectors`, `ResolvedCategory`, `CommandNames` and the other one-line readers.
- Caches of the command configuration: exported commands and groups are computed anew where the program computes them once.
- `Push`, `Extend`, `NewTree` and `KeysAtLevel` of the command tree, and its JSON form: no caller in the pipeline builds trees with them.
- An early stop of `Resolve`'s iterator, and its use a second time.
- Registered functions of the dispatcher run as functions of what they are given: what they do to other state is not modelled.
- The error observer is taken to return: it is a caller's function, and if it panicked the response would not be pushed.
- Stopping: a failed push drops the response and, in the program, may end the worker pool; the machine goes on.
- Capacity of the outgoing queue: a push may fail at any time.
- The broker behind `Publish`, `Subscribe` and `Stream`: a caller of `Exec` may receive, in any order and with gaps, what is published after it subscribed.
- The other implementations and exercises of the repository (`x/dblock`, `x/router/peer.go`, `x/postal`, `cmd`, `operations`, `srv`, `sysmgmt`), configuration files, logging and subprocesses.
- Configurations.Configuration.Validate: of a group, the names; not environments, directories, notification flags, default commands and the substitution of placeholders, which are chains of library string replacement. It says exactly when there are errors, not which ones or in what words.
- Configurations.Configuration.NameCommands: the names only, for the same reason.
- Configurations.Configuration.DoValidate: the sockets that the same function looks up are left out.
- Configurations.Configuration.SortGroups: when two hosts on different pointers have equal names the comparison is not a preorder, and only the permutation is stated.
- RepoIndex.Configuration.DoValidate: of the validation, the tag groups; not projects and single repositories. What rebuilding the index reports is returned beside the errors.
- DispatcherService.Dispatcher.Process: the error observer is taken to return.
- Dispatchers.ExecReturnsOwnResponse: safety only; that a response comes at all depends on the caller's functions and the broker.
