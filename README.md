# tl.py — a verified model of the hierarchical todo list

`tl.py` keeps a todo list as a plain text file, one task per line. A line may start
with a completion prefix `x YYYY-MM-DD `, then a priority prefix `(L) `. The indentation
of the rest of the line says how deep the task sits below the tasks before it. Each
run loads the file into a tree of `Task` objects and gives every node a dotted address
(`2.1` is the first subtask of the second task). It then performs one command and
writes the tree back. The commands are `add`, `addsub`, `append`, `replace`, `del`,
`do` and `pri`, and `ls` lists tasks.

This project models that core in Dafny and proves what the program does:

- **Line codec** (`codec.dfy`). `Task.__init__` is modelled twice: as the function
  `Decode`, and as the method `NewTask`, which runs the `_depth` scan `CountDepth` and is
  proved equal to `Decode`. `__str__` is the function `LineOf`, the whole file is
  `EncodeAll`, and its lines are `Lines`.
  - Decoding is positional: the date prefix takes 13 characters, the priority prefix 4.
  - A canonical task reads back as itself, without the address it had.
  - The program's quirk is modelled as written: at tl.py line 105 the priority prefix
    *replaces* the date prefix instead of following it, so a task that has both loses
    its date when the file is written and read back.
- **Task tree** (`tasks.dfy`). Tasks are values: a `Task` holds the sequence of its
  subtasks. A node is named by its path of 1-based child indices, and an in-place
  mutation becomes a function that returns the new forest. `Entries` is the pre-order
  listing of the nodes' own fields; it is what the file stores, line by line. Every
  mutation is described by its effect on that listing and on the children lists.
- **Addresses** (`address.dfy`). Covers `str2sub`, `lookup`, `Task.add` and
  `setTasknum`.
  - `lookup` indexes Python lists with `i - 1`, so Python's negative indexing applies
    and is modelled as such: a segment `0` names the last child.
  - The address `setTasknum` gives a node leads back to that node, and different
    nodes get different addresses.
- **Loading** (`load.dfy`, `tasklist.dfy`). `TaskList.load` is an imperative loop in
  the class `TaskLists.TaskList`. It is proved equal to a fold (`Run`) over the lines.
  - The counter stack is proved to stay the right edge of the tree, with
    `len(count) == lastdepth + 1`.
  - Blank lines are skipped.
  - The pre-order listing of the loaded tree is the sequence of decoded non-blank
    lines.
  - The saved text is split into lines the way iterating over the file does.
    Loading the saved text of a canonical forest gives that forest back, without its
    addresses.
  - A file whose lines are already written as the program writes them is saved
    again byte for byte.
- **Commands** (`commands.dfy`). Each command of the main block is a function over the
  forest, with `None` wherever the program would stop on an exception before saving.
  Each one is related to the pre-order listing and to the affected children list.
- **Listing** (`listing.dfy`). Covers the selection loop of `ls`, the stable priority
  sort and the display fields.
  - Shown tasks are exactly the tasks that pass the query.
  - The prioritized tasks come first, sorted by letter and stable within a letter,
    and then the others in pre-order.
  - The output is a permutation of the selection.

## Model

| member | source | states |
|---|---|---|
| `Text.RStrip` | tl.py:208 | `rstrip()` keeps a prefix of the line; everything it drops is whitespace; the result does not end in whitespace |
| `Text.LStrip` | tl.py:90 | `lstrip()` keeps a suffix; everything it drops is whitespace; the result does not start with whitespace |
| `Text.StripEmptyIff` | tl.py:209 | a line strips to `''` exactly when it is all whitespace |
| `Text.StripIndented` | tl.py:89-90 | indenting a stripped, non-empty text by any number of spaces and stripping it again gives the text back |
| `Text.RStripNewline` | tl.py:207-208 | the newline left by iterating over the file is removed by `rstrip()` |
| `Text.ParseIntOfNat` | tl.py:291-292 | `int(str(n)) == n` for every natural `n` |
| `Text.NatToStrInjective` | tl.py:226-228 | different numbers have different decimal strings |
| `Text.SplitDotsSnoc` | tl.py:292 | `split('.')` of `x + '.' + y`, for a dot-free `y`, is the split of `x` followed by `y` |
| `Seqs.FilterMembers` | tl.py:406-407 | an element is in a filtered list exactly when it is in the list and passes the condition |
| `Seqs.FilterConcat` | tl.py:406-407 | filtering a concatenation filters each part |
| `Tasks.EntriesAreFlatten` | tl.py:120-124 | `allTasks()` visits the nodes in the order of the pre-order listing, one node per entry |
| `Tasks.FlattenConcat` | tl.py:120-124 | the pre-order traversal of two forests one after the other is the two traversals concatenated |
| `Tasks.EntriesConcat` | tl.py:120-124 | the pre-order listing of two forests one after the other is the two listings concatenated |
| `Tasks.SubtreeBlock` | tl.py:120-124 | the subtree of any node occupies one contiguous block of the pre-order listing, starting with the node |
| `Tasks.AppendKeepsPaths` | tl.py:132-134 | appending subtasks at one node keeps every path valid and every node's fields; that node's children gain the new tasks, the lists on the way down to it keep their length, and every other children list is unchanged |
| `Tasks.UnnumberedEntries` | tl.py:113-118 | taking every address off a tree changes each pre-order entry's address and nothing else |
| `Tasks.AppendEntries` | tl.py:132-134 | appended subtasks enter the pre-order listing right after the subtree of the node they are appended to |
| `Tasks.AppendAppend` | tl.py:134 | two appends at the same node append both lists in order |
| `Tasks.RemoveTakesSubtree` | tl.py:326-331 | removing a node removes exactly its subtree's block from the pre-order listing |
| `Tasks.RemoveSiblings` | tl.py:328-330 | removing a node takes it out of its parent's children; the siblings keep their order |
| `Tasks.RemoveAtRemoves` | tl.py:326-331 | removal has both effects above (`RemovedFrom`) |
| `Tasks.ReplaceOneEntry` | tl.py:318-325 | changing a node's own fields changes exactly its one entry of the pre-order listing |
| `Tasks.SetDone` | tl.py:139-143 | `setDone` dates the node; a subtask not yet done is dated too, a done one is kept; nothing else of the node changes |
| `Tasks.SetDoneEntries` | tl.py:139-143 | across the subtree, only completion dates change, each either kept or set to the date, and the node's own is set |
| `Tasks.SetDoneIdempotent` | tl.py:139-143 | marking the same task done twice with the same date is the same as once |
| `Tasks.SetPriority` | tl.py:145-149 | the node gets the priority, nothing else of it changes, and without `recursive` its subtasks are untouched |
| `Tasks.SetPriorityRecursiveEntries` | tl.py:145-149 | with `recursive`, every node of the subtree gets the priority and keeps every other field |
| `Tasks.SetPriorityIdempotent` | tl.py:145-149 | setting the same priority twice is the same as once |
| `Codec.DepthMeaning` | tl.py:93-98 | `_depth` is the number of leading spaces before the first other character, and 0 for a line of spaces only |
| `Codec.CountDepth` | tl.py:93-98 | the `_depth` loop computes that depth |
| `Codec.Decode` | tl.py:76-91 | a freshly read task has no subtasks and no address yet |
| `Codec.DecodeFields` | tl.py:80-90 | decoding is positional: the date iff the completion pattern matches at the start, then 13 characters gone; the upper-cased letter iff the priority pattern matches next, then 4 gone; depth and stripped text from the rest |
| `Codec.NewTask` | tl.py:76-91 | `Task.__init__` as a sequence of cuts and the `_depth` scan gives the decoded task |
| `Codec.DecodeDoneLine` | tl.py:80-83 | a line `x <date> <body>` reads as done on that date, with depth and text from the body |
| `Codec.DecodePrioLine` | tl.py:84-88 | a line `(c) <body>` reads with priority `c` upper-cased, with depth and text from the body |
| `Codec.DecodePlainLine` | tl.py:89-90 | a line with no prefix reads as its depth and stripped text |
| `Codec.EncodeIsLines` | tl.py:100-111 | `str(task)` is its own line and newline followed by its subtasks' lines |
| `Codec.EncodeAllIsLines` | tl.py:192-193 | `str(tasklist)` is the concatenation of the lines of all tasks |
| `Codec.LinesAreEntries` | tl.py:100-111 | the file holds one line per node, in pre-order, each the node's own line |
| `Codec.DecodeLineOf` | tl.py:76-111 | a canonical task's written line is not blank, survives `rstrip`, and reads back as the task's own fields with no address |
| `Codec.ConcatSplitLines` | tl.py:207 | the lines that iterating over a file yields, joined, are the file's text |
| `Codec.SplitConcat` | tl.py:207 | joining lines that each end in their only newline, then iterating, yields those lines |
| `Codec.LineOfTerminated` | tl.py:100-111 | a canonical task's written line has no newline but the one `__str__` puts at its end |
| `Codec.BothPrefixesKeepOnlyPriority` | tl.py:100-105 | a task with both a date and a priority is written with only the priority prefix and reads back without its date |
| `Addressing.PyIndex` | tl.py:199 | Python list indexing: defined exactly for `-n <= i < n`, negative indices counting from the end |
| `Addressing.MapAllOf` | tl.py:291-292 | the list comprehension succeeds with the values when every element converts |
| `Addressing.MapAllFails` | tl.py:291-292 | one element that does not convert makes the comprehension fail |
| `Addressing.SplitAddress` | tl.py:117 | splitting a dotted address at its dots yields each number's decimal string |
| `Addressing.Str2SubAddress` | tl.py:291-292 | `str2sub` turns the dotted address of a path back into the path |
| `Addressing.AddressInjective` | tl.py:113-118 | different paths have different dotted addresses |
| `Addressing.Walk` | tl.py:197-199 | a successful walk takes one step per number and ends at a node that exists |
| `Addressing.Resolve` | tl.py:195-200 | a successful lookup yields a non-empty path to an existing node |
| `Addressing.WalkValid` | tl.py:197-199 | on a path of in-range 1-based indices, the walk follows exactly that path |
| `Addressing.LookupAddress` | tl.py:195-200 | looking up the address of a node finds that node |
| `Addressing.NonPositiveSegment` | tl.py:199 | a segment `i` with `-n < i <= 0` picks child `n + i` (so `0` is the last child) |
| `Addressing.SegmentOutOfRange` | tl.py:199 | a segment beyond either end fails, as the `IndexError` does |
| `Addressing.AddBy` | tl.py:132-137 | `add` with an empty address adds one top-level task; otherwise the top level keeps its length |
| `Addressing.AddByStep` | tl.py:135-137 | `add` follows the first number of the address into that child and adds below it with the rest |
| `Addressing.AddByAddress` | tl.py:132-137 | `add` through the dotted address of a path appends at exactly that path |
| `Addressing.NumberTree` | tl.py:113-118 | `setTasknum(n)` gives the task `n`, keeps its other fields and its number of subtasks |
| `Addressing.NumberedBelow` | tl.py:113-118 | below a task numbered `n`, each descendant keeps its place and fields and is numbered `n` followed by its own path |
| `Addressing.NumberedAt` | tl.py:226-228 | after `setTasknum`, every node has its dotted address as number and every other field and path as before |
| `Addressing.NumbersDistinct` | tl.py:226-228 | after `setTasknum`, different nodes have different numbers |
| `Addressing.LookupNumbered` | tl.py:195-200 | looking up a node's number finds that node |
| `Loading.EdgePrefix` | tl.py:211-221 | every prefix of the counter stack is a valid path and the next counter is the child count there |
| `Loading.AddOnEdge` | tl.py:220-221 | adding at any prefix of the counter stack gives a tree whose right edge is that prefix and the new child |
| `Loading.NextCountShape` | tl.py:211-219 | after a line of depth `d`, the stack is its first `min(d, len)` counters followed by the child count there plus one |
| `Loading.BlankIff` | tl.py:208-209 | a line is skipped exactly when it is all whitespace |
| `Loading.PushInv` | tl.py:211-221 | placing a task keeps `len(count) == lastdepth + 1` and the stack on the right edge |
| `Loading.Place` | tl.py:210-221 | the loop body keeps the invariant |
| `Loading.PlaceIsPush` | tl.py:211-221 | the three depth branches and the add place the task as the last child at the stack's parent path |
| `Loading.Step` | tl.py:208-221 | one line keeps the invariant, and a blank line changes nothing |
| `Loading.Run` | tl.py:207-221 | the loop keeps the invariant over any lines |
| `Loading.RunIsBuild` | tl.py:207-221 | loading is decoding the non-blank lines, then placing the tasks one by one |
| `Loading.PushEntries` | tl.py:220-221 | each placed task becomes the last entry of the pre-order listing |
| `Loading.BuildEntries` | tl.py:207-221 | placing tasks appends them, in order, to the pre-order listing |
| `Loading.LoadEntries` | tl.py:202-221 | the pre-order listing of the loaded tree is the decoded non-blank lines, in file order |
| `Loading.DecodedLines` | tl.py:207-210 | the saved lines of a canonical forest decode to its entries, each without its address |
| `Loading.TreeLoad` | tl.py:207-221 | loading one canonical tree's lines adds that whole tree below the stack's prefix |
| `Loading.ForestLoad` | tl.py:207-221 | loading canonical trees' lines appends those trees below the stack's prefix |
| `Loading.CanonicalUnnumbered` | tl.py:113-118 | taking the addresses off keeps a forest canonical |
| `Loading.SplitSaved` | tl.py:192-193 | iterating over the text `save` writes for a canonical forest yields exactly its lines, one per node |
| `Loading.LoadSaved` | tl.py:202-233 | loading the file `save` wrote for a canonical forest, numbered or not, gives that forest back without its addresses |
| `Loading.ResaveNormalized` | tl.py:202-233 | a file whose every line is non-blank and reads back to itself, newline included, is written again byte for byte after loading, at any indentation |
| `TaskLists.PlaceByAddress` | tl.py:220-221 | the address joined from `count[:-1]` leads `add` to the place the loop invariant describes, so that `add` never fails |
| `TaskLists.NextCounters` | tl.py:211-219 | the three depth branches update the stack and `lastdepth` as the loop invariant needs, keeping `len(count) == lastdepth + 1` |
| `TaskLists.TaskList.constructor` | tl.py:186-190 | a new list has no tasks |
| `TaskLists.TaskList.Add` | tl.py:132-137 | `add` on the list changes the tasks as `AddBy` gives, or fails and changes nothing |
| `TaskLists.TaskList.Load` | tl.py:202-221 | the loop over the file's lines builds the tree the fold `LoadLines` describes |
| `TaskLists.TaskList.LoadLine` | tl.py:208-221 | the body of the loop for a non-blank line places the decoded task as `Place` says |
| `TaskLists.TaskList.SetTasknum` | tl.py:226-228 | the list's tasks are numbered `1`, `2`, … with their subtrees below them |
| `TaskLists.TaskList.Execute` | tl.py:307-342 | a command changes the tasks as `Perform` gives, or leaves them (and saves nothing) where the program raises |
| `TaskLists.TaskList.Show` | tl.py:354-410 | `ls` builds its query from the search words, `-D` and `-p`, and shows the selection from `allTasks()`, arranged by priority |
| `Commands.Target` | tl.py:312 | the addressed task, when found, is at a non-empty valid path |
| `Commands.PriArgs` | tl.py:337-340 | `pri` works exactly when, with every `-R` removed, there are two arguments and the second is not empty; the address is one of the given arguments and not `-R` |
| `Commands.AddTopEntries` | tl.py:307-309 | `add` appends the decoded words as the last top-level task and the last entry of the listing |
| `Commands.AddSubEntries` | tl.py:311-316 | `addsub` appends one task, one level deeper than the addressed one, as its last child and right after its subtree in the listing |
| `Commands.AppendTextEntries` | tl.py:318-320 | `append` changes only the addressed entry, whose text gains a space and the words |
| `Commands.ReplaceTextEntries` | tl.py:322-324 | `replace` changes only the addressed entry, whose text becomes the words |
| `Commands.DeleteEntries` | tl.py:326-331 | `del` removes the addressed subtree's block from the listing and the task from its parent's children |
| `Commands.MarkDoneEntries` | tl.py:332-334 | `do` changes only the dates within the addressed subtree, and the addressed task gets today's date |
| `Commands.PrioritizeOne` | tl.py:336-341 | `pri` without `-R` changes only the addressed entry's priority |
| `Commands.PrioritizeTree` | tl.py:336-341 | `pri -R` gives the whole addressed subtree the priority and changes nothing else |
| `Listings.MakeQuery` | tl.py:354-361 | with `-p`, a one-character first search word becomes the upper-cased priority to show and is no longer searched for |
| `Listings.QueryKeeps` | tl.py:354-402 | under the query `ls` builds, a task is kept exactly when it contains every remaining search word, is not done unless done tasks are shown, and has the asked priority when `-p` gives one |
| `Listings.PriorityListing` | tl.py:354-410 | `ls -p c w1 w2 ...` lists exactly the tasks of priority `C` whose text contains every word, not done ones only when `-D` is given |
| `Listings.SelectTasks` | tl.py:379-402 | the selection loop keeps, in order, exactly the tasks that contain every search word, are not done unless done tasks are shown, and have the asked priority |
| `Listings.InsertPermutes` | tl.py:408 | inserting adds the task and loses none |
| `Listings.SortPermutes` | tl.py:408 | the sort is a permutation |
| `Listings.InsertSorted` | tl.py:404-408 | inserting into a list sorted by `prisort` keeps it sorted |
| `Listings.SortSorted` | tl.py:404-408 | the sort orders by `prisort` |
| `Listings.InsertStable` | tl.py:404-408 | inserting puts the task after those of its own priority |
| `Listings.SortStable` | tl.py:404-408 | the sort is stable: tasks of one priority keep their order |
| `Listings.PartitionMultiset` | tl.py:406-407 | prioritized and non-prioritized tasks together are the selection |
| `Listings.ArrangePermutation` | tl.py:406-410 | the printed tasks are a permutation of the selection |
| `Listings.ArrangeOrder` | tl.py:404-410 | the prioritized tasks are printed first, sorted by letter and in selection order within a letter, then the others in selection order |
| `Listings.ListingMembers` | tl.py:379-410 | a task is printed exactly when it is in `allTasks()` and passes the query |
| `Listings.NumberedField` | tl.py:170-171 | after `setTasknum`, a task's `tasknum` field is its dotted address |
| `Listings.ColorOf` | tl.py:165-169 | a task has a colour of its own exactly when its priority is `A` or `B` |
| `Listings.FieldsMakeLine` | tl.py:151-176 | the `priority` or `done` field, a space, the `indent` field and the text make the task's stored line |

## Left out

- The command line, `getopt`, `showUsage` and the Python version check are left out. Each
  command is a `Command` value with its argument list.
- The `ls` options that only change formatting (`-C`, `-I`, `-N`, the `%` format string,
  the ANSI escapes and the column widths) are left out. The listing stops at the
  sequence of tasks shown and the fields they supply. Colours are a `Color` value.
- The `-A` branch of `ls` (tl.py:397-400) is left out: it reads the undefined name
  `num`, so the program raises `NameError` on the first task that reaches it.
- Reading and writing files is left out. `load` takes the file's lines, and a missing
  file is the empty sequence. `save` is the string `Saved()` returns.
- The platform's `os.linesep` is taken to be `"\n"`.
- The current date is a parameter (`today`), not read from the clock.
- `Task._add` is left out: nothing in the program calls it.
- Tasks are values, not shared objects. The program deletes by identity, searching
  every node's subtasks for the object found by `lookup`. The model removes the node
  at the looked-up path, which is the same node because every node is a distinct
  object in exactly one subtask list. Aliasing cannot arise.
- The `tasknum` of `-1` before `setTasknum` is `None`. Every node read from the file is
  numbered before any command runs.
- `TaskLists.TaskList.Load` requires an empty list, as on the program's only call
  (right after `TaskList()`).
- The `load` loop body is split into the methods `TaskLists.TaskList.LoadLine` and
  `TaskLists.NextCounters`. The step from one line to the next is stated through the
  function `Step`.
- `Text.Upper` changes only ASCII letters, as Python 2's byte-string `upper()` does.
  Other characters are unchanged, and no locale is modelled.
- A segment of an address beyond `sys.maxint`, which Python 2 parses as a `long`, is not
  modelled: the model indexes with unbounded integers. In the first segment such a number
  fails as an `IndexError`, and the model fails there too. In a later segment,
  `Task.__getitem__` returns `None` for a `long`. The lookup then raises at the next
  segment, or returns `None` at the last one. `addsub`, `append`, `replace`, `do` and
  `pri` then raise on `None`, as in the model. But `del` finds `None` in no subtask list
  and rewrites the file with the tree unchanged, while the model reports the address as
  not found and saves nothing.
- `prioritized.sort(cmp=prisort)` is a library call. It is modelled as the stable
  insertion sort `SortByPriority` by rank (no priority first, then by letter), which is
  what a stable sort with that comparison yields. The library's algorithm itself is
  not modelled.
- `nonprioritized` is built with `t not in prioritized`, which compares tasks by
  identity. The model filters on `priority is None` instead; the two agree because
  each shown task is a distinct object.
- `Listings.FieldsMakeLine` is stated for tasks without both prefixes and with an
  upper-case priority. Those are the tasks whose stored line is made of these fields;
  `Codec.BothPrefixesKeepOnlyPriority` states the other case.
- `Codec.LineOf` follows tl.py:105 as written. The priority prefix replaces the date
  prefix, so a task with both prefixes is saved without its date. The round trip
  `Loading.LoadSaved` is proved for canonical forests only, which exclude that case.
- `Loading.LoadSaved` is also not stated for a task whose text holds a newline. `add`,
  `append` and `replace` store one when a shell argument contains it. The saved line
  then splits into more lines than there are tasks (`Codec.SplitLines`), and they read
  back as more tasks.
