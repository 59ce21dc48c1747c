/**
 * The editing commands of the program's main block (tl.py lines 307-342), on the tasks
 * as loaded. Each gives the tasks to be saved, or `None` where the program raises
 * (a missing argument, an address `lookup` cannot follow) and so saves nothing.
 */
module Commands {
  import opened Wrappers
  import opened Text
  import opened Seqs
  import opened Tasks
  import opened Codec
  import opened Addressing

  /** The commands that change the todo file. */
  datatype Command = Add | AddSub | Append | Replace | Delete | Do | Pri

  /** The node `args[0]` addresses; `None` when there is no argument or `lookup` raises. */
  function Target(ts: seq<Task>, args: seq<string>): (r: Option<seq<nat>>)
    ensures r.Some? ==> r.value != [] && ValidPath(ts, r.value)
  {
    if |args| == 0 then None else Resolve(ts, args[0])
  }

  /** `add`: the words, joined by spaces, are decoded into the last top-level task. */
  function AddTop(ts: seq<Task>, args: seq<string>): seq<Task> {
    AddAt(ts, [], Decode(JoinSpace(args)))
  }

  /** The task `addsub` makes from `words`: decoded, then one level below `parent`. */
  function SubTask(parent: Task, words: seq<string>): Task {
    Decode(JoinSpace(words)).(depth := parent.depth + 1)
  }

  /** `addsub`: the new task becomes the last subtask of the addressed one. */
  function AddSubAt(ts: seq<Task>, args: seq<string>): Option<seq<Task>> {
    match Target(ts, args)
    case None => None
    case Some(p) => Some(AddAt(ts, p, SubTask(NodeAt(ts, p), args[1..])))
  }

  /** `append`: a space and the remaining words go at the end of the text. */
  function AppendText(ts: seq<Task>, args: seq<string>): Option<seq<Task>> {
    match Target(ts, args)
    case None => None
    case Some(p) =>
      var n := NodeAt(ts, p);
      Some(ReplaceAt(ts, p, n.(text := n.text + " " + JoinSpace(args[1..]))))
  }

  /** `replace`: the remaining words become the text. */
  function ReplaceText(ts: seq<Task>, args: seq<string>): Option<seq<Task>> {
    match Target(ts, args)
    case None => None
    case Some(p) => Some(ReplaceAt(ts, p, NodeAt(ts, p).(text := JoinSpace(args[1..]))))
  }

  /** `del` / `rm`: the addressed task leaves the subtask list of its parent. */
  function DeleteTask(ts: seq<Task>, args: seq<string>): Option<seq<Task>> {
    match Target(ts, args)
    case None => None
    case Some(p) => Some(RemoveAt(ts, p))
  }

  /** `do` / `done`, with the current date passed in as `today`. */
  function MarkDone(ts: seq<Task>, args: seq<string>, today: string): Option<seq<Task>> {
    match Target(ts, args)
    case None => None
    case Some(p) => Some(ReplaceAt(ts, p, SetDone(NodeAt(ts, p), today)))
  }

  predicate NotFlagR(a: string) { a != "-R" }

  /**
   * The arguments of `pri` once every `-R` is taken out: the address and the upper-cased
   * first character of the next argument; `None` where the program raises.
   */
  function PriArgs(args: seq<string>): (r: Option<(string, char)>)
    ensures r.Some? <==> |Filter(args, NotFlagR)| >= 2 && Filter(args, NotFlagR)[1] != ""
    ensures r.Some? ==> r.value.0 != "-R" && r.value.0 in args
  {
    var rest := Filter(args, NotFlagR);
    if |rest| < 2 || rest[1] == "" then None
    else
      FilterMembers(args, NotFlagR, rest[0]);
      Some((rest[0], Upper(rest[1][0])))
  }

  /** `pri`: the addressed task gets the priority, and so does its subtree with `-R`. */
  function Prioritize(ts: seq<Task>, args: seq<string>): Option<seq<Task>> {
    match PriArgs(args)
    case None => None
    case Some((a, c)) =>
      match Resolve(ts, a)
      case None => None
      case Some(p) => Some(ReplaceAt(ts, p, SetPriority(NodeAt(ts, p), c, "-R" in args)))
  }

  /** One run of the program with an editing command: the tasks it saves, if any. */
  function Perform(ts: seq<Task>, c: Command, args: seq<string>, today: string): Option<seq<Task>> {
    match c
    case Add => Some(AddTop(ts, args))
    case AddSub => AddSubAt(ts, args)
    case Append => AppendText(ts, args)
    case Replace => ReplaceText(ts, args)
    case Delete => DeleteTask(ts, args)
    case Do => MarkDone(ts, args, today)
    case Pri => Prioritize(ts, args)
  }

  // ---------------------------------------------------------------- properties

  /** `add` puts the decoded task after all others; the rest of the listing is unchanged. */
  lemma AddTopEntries(ts: seq<Task>, args: seq<string>)
    ensures var u := Decode(JoinSpace(args));
      AddTop(ts, args) == ts + [u] && Entries(AddTop(ts, args)) == Entries(ts) + [u]
  {
    AddLast(ts, Decode(JoinSpace(args)));
  }

  lemma AddLast(ts: seq<Task>, u: Task)
    requires u.subtasks == []
    ensures AddAt(ts, [], u) == ts + [u] && Entries(AddAt(ts, [], u)) == Entries(ts) + [u]
  {
    AppendEntries(ts, [], [u]);
    EntriesSingle(u);
  }

  /** Adding `u` as the last child at `p`, in terms of children and of the listing. */
  lemma AddBelow(ts: seq<Task>, p: seq<nat>, u: Task)
    requires ValidPath(ts, p) && p != [] && u.subtasks == []
    ensures ValidPath(AddAt(ts, p, u), p) && ChildrenAt(AddAt(ts, p, u), p) == ChildrenAt(ts, p) + [u]
    ensures Entries(ts) == Before(ts, p) + Entries([NodeAt(ts, p)]) + After(ts, p)
    ensures Entries(AddAt(ts, p, u)) == Before(ts, p) + Entries([NodeAt(ts, p)]) + [u] + After(ts, p)
  {
    AppendKeepsPaths(ts, p, [u], p);
    AppendEntries(ts, p, [u]);
    SubtreeBlock(ts, p);
    EntriesSingle(u);
  }

  /**
   * `addsub` succeeds exactly when the address resolves; the new task, one level deeper
   * than its parent, becomes the parent's last child, and in the listing it comes right
   * after the parent's subtree with everything else where it was.
   */
  lemma AddSubEntries(ts: seq<Task>, args: seq<string>)
    ensures AddSubAt(ts, args).Some? <==> Target(ts, args).Some?
    ensures Target(ts, args).Some? ==>
      var p := Target(ts, args).value;
      var n := NodeAt(ts, p);
      var u := SubTask(n, args[1..]);
      var r := AddSubAt(ts, args).value;
      u.depth == n.depth + 1 && u.subtasks == [] &&
      ValidPath(r, p) && ChildrenAt(r, p) == ChildrenAt(ts, p) + [u] &&
      Entries(ts) == Before(ts, p) + Entries([n]) + After(ts, p) &&
      Entries(r) == Before(ts, p) + Entries([n]) + [u] + After(ts, p)
  {
    if Target(ts, args).Some? {
      var p := Target(ts, args).value;
      AddBelow(ts, p, SubTask(NodeAt(ts, p), args[1..]));
    }
  }

  /** `append` changes the addressed task's text and no other entry of the listing. */
  lemma AppendTextEntries(ts: seq<Task>, args: seq<string>)
    ensures AppendText(ts, args).Some? <==> Target(ts, args).Some?
    ensures Target(ts, args).Some? ==>
      var p := Target(ts, args).value;
      var n := NodeAt(ts, p);
      PreIndex(ts, p) < |Entries(ts)| &&
      Entries(AppendText(ts, args).value)
        == Entries(ts)[PreIndex(ts, p) := Entry(n).(text := n.text + " " + JoinSpace(args[1..]))]
  {
    if Target(ts, args).Some? {
      var p := Target(ts, args).value;
      var n := NodeAt(ts, p);
      ReplaceOneEntry(ts, p, n.(text := n.text + " " + JoinSpace(args[1..])));
    }
  }

  /** `replace` changes the addressed task's text and no other entry of the listing. */
  lemma ReplaceTextEntries(ts: seq<Task>, args: seq<string>)
    ensures ReplaceText(ts, args).Some? <==> Target(ts, args).Some?
    ensures Target(ts, args).Some? ==>
      var p := Target(ts, args).value;
      PreIndex(ts, p) < |Entries(ts)| &&
      Entries(ReplaceText(ts, args).value)
        == Entries(ts)[PreIndex(ts, p) := Entry(NodeAt(ts, p)).(text := JoinSpace(args[1..]))]
  {
    if Target(ts, args).Some? {
      var p := Target(ts, args).value;
      ReplaceOneEntry(ts, p, NodeAt(ts, p).(text := JoinSpace(args[1..])));
    }
  }

  /**
   * `del` takes the addressed task and its whole subtree out of the listing and out of
   * its parent's subtask list, whose other members keep their order.
   */
  lemma DeleteEntries(ts: seq<Task>, args: seq<string>)
    ensures DeleteTask(ts, args).Some? <==> Target(ts, args).Some?
    ensures Target(ts, args).Some? ==>
      RemovedFrom(ts, Target(ts, args).value, DeleteTask(ts, args).value)
  {
    if Target(ts, args).Some? {
      var p := Target(ts, args).value;
      assert DeleteTask(ts, args) == Some(RemoveAt(ts, p));
      RemoveAtRemoves(ts, p);
    }
  }

  /**
   * `do` gives the addressed task the date and changes nothing outside its subtree;
   * inside it, only completion dates change, and only to that date.
   */
  lemma MarkDoneEntries(ts: seq<Task>, args: seq<string>, today: string)
    ensures MarkDone(ts, args, today).Some? <==> Target(ts, args).Some?
    ensures Target(ts, args).Some? ==>
      var p := Target(ts, args).value;
      var n := NodeAt(ts, p);
      var E := Entries([SetDone(n, today)]);
      Entries(ts) == Before(ts, p) + Entries([n]) + After(ts, p) &&
      Entries(MarkDone(ts, args, today).value) == Before(ts, p) + E + After(ts, p) &&
      DatesSet(Entries([n]), E, today) && E[0].done == Some(today)
  {
    if Target(ts, args).Some? {
      var p := Target(ts, args).value;
      var n := NodeAt(ts, p);
      SubtreeBlock(ts, p);
      SpliceEntries(ts, p, [SetDone(n, today)]);
      SetDoneEntries(n, today);
    }
  }

  /** `pri` without `-R` changes the addressed task's priority and no other entry. */
  lemma PrioritizeOne(ts: seq<Task>, args: seq<string>)
    requires "-R" !in args
    ensures Prioritize(ts, args).Some? <==> PriArgs(args).Some? && Resolve(ts, PriArgs(args).value.0).Some?
    ensures Prioritize(ts, args).Some? ==>
      var p := Resolve(ts, PriArgs(args).value.0).value;
      PreIndex(ts, p) < |Entries(ts)| &&
      Entries(Prioritize(ts, args).value)
        == Entries(ts)[PreIndex(ts, p) := Entry(NodeAt(ts, p)).(priority := Some(PriArgs(args).value.1))]
  {
    if Prioritize(ts, args).Some? {
      var (a, c) := PriArgs(args).value;
      var p := Resolve(ts, a).value;
      ReplaceOneEntry(ts, p, SetPriority(NodeAt(ts, p), c, false));
    }
  }

  /**
   * `pri -R` gives the priority to every task of the addressed subtree, changes no other
   * field, and leaves the listing outside the subtree alone.
   */
  lemma PrioritizeTree(ts: seq<Task>, args: seq<string>)
    requires "-R" in args
    ensures Prioritize(ts, args).Some? <==> PriArgs(args).Some? && Resolve(ts, PriArgs(args).value.0).Some?
    ensures Prioritize(ts, args).Some? ==>
      var p := Resolve(ts, PriArgs(args).value.0).value;
      var n := NodeAt(ts, p);
      var E := Entries([SetPriority(n, PriArgs(args).value.1, true)]);
      Entries(ts) == Before(ts, p) + Entries([n]) + After(ts, p) &&
      Entries(Prioritize(ts, args).value) == Before(ts, p) + E + After(ts, p) &&
      AllPrioritized(Entries([n]), E, PriArgs(args).value.1)
  {
    if Prioritize(ts, args).Some? {
      var (a, c) := PriArgs(args).value;
      var p := Resolve(ts, a).value;
      var n := NodeAt(ts, p);
      SubtreeBlock(ts, p);
      SpliceEntries(ts, p, [SetPriority(n, c, true)]);
      SetPriorityRecursiveEntries(n, c);
    }
  }
}
