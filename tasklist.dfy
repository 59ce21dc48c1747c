/**
 * `TaskList` (tl.py lines 184-233): the forest of tasks the program keeps between
 * reading the todo file and writing it back, and the steps of one run on it.
 */
module TaskLists {
  import opened Wrappers
  import opened Text
  import opened Tasks
  import opened Codec
  import opened Addressing
  import opened Loading
  import opened Commands
  import opened Listings

  /**
   * The dotted address the loader builds from the counter stack reaches the path the
   * loader's placement uses, so the `add` inside the loop never fails.
   */
  lemma PlaceByAddress(s: LoadState, t: Task)
    requires Inv(s) && t.subtasks == []
    ensures var c := NextCount(s.count, s.lastdepth, t.depth);
      AddBy(s.forest, Address(c[..|c| - 1]), t) == Some(Place(s, t).forest) &&
      Place(s, t).count == c && Place(s, t).lastdepth == NextDepth(s.lastdepth, t.depth)
  {
    var k := Min(t.depth, |s.count|);
    NextCountShape(s, t.depth);
    var c := NextCount(s.count, s.lastdepth, t.depth);
    ButLast(s.count[..k], |ChildrenAt(s.forest, s.count[..k])| + 1, c);
    AddByAddress(s.forest, c[..|c| - 1], t);
  }

  /** One more line read: the loop state after it, from the state before it. */
  lemma RunOneMore(lines: seq<string>, i: nat)
    requires i < |lines|
    ensures Run(Start, lines[..i + 1]) == Step(Run(Start, lines[..i]), lines[i])
  {
    assert lines[..i + 1][..i] == lines[..i];
  }

  /** A line that is not blank is decoded after `rstrip` and placed. */
  lemma StepNonBlank(s: LoadState, raw: string)
    requires Inv(s) && Strip(RStrip(raw)) != ""
    ensures Step(s, raw) == Place(s, Decode(RStrip(raw)))
  {
  }

  /**
   * The counter stack after a line of depth `d`: one level deeper at most, the next
   * sibling at the same depth, or cut back to the line's depth.
   */
  method NextCounters(count0: seq<nat>, lastdepth0: int, d: nat) returns (count: seq<nat>, lastdepth: int)
    requires lastdepth0 == |count0| - 1
    ensures count == NextCount(count0, lastdepth0, d) && lastdepth == NextDepth(lastdepth0, d)
    ensures lastdepth == |count| - 1
  {
    count, lastdepth := count0, lastdepth0;
    if d > lastdepth {
      lastdepth := lastdepth + 1;
      count := count + [1];
    } else if d == lastdepth {
      count := count[|count| - 1 := count[|count| - 1] + 1];
    } else {
      lastdepth := d;
      count := count[..lastdepth + 1];
      count := count[|count| - 1 := count[|count| - 1] + 1];
    }
  }

  class TaskList {
    /** The top-level tasks; the list object itself is the root of the tree. */
    var tasks: seq<Task>

    constructor()
      ensures tasks == []
    {
      tasks := [];
    }

    /** `Task.add(task, subsection)` on the list: fails where the address does not lead anywhere. */
    method Add(u: Task, subsection: string) returns (ok: bool)
      modifies this
      ensures ok == AddBy(old(tasks), subsection, u).Some?
      ensures tasks == if ok then AddBy(old(tasks), subsection, u).value else old(tasks)
    {
      var r := AddBy(tasks, subsection, u);
      ok := r.Some?;
      if ok {
        tasks := r.value;
      }
    }

    /**
     * `load` over the lines of the file: blank lines are skipped, every other line is
     * decoded and added below the path the counter stack gives.
     */
    method Load(lines: seq<string>)
      requires tasks == []
      modifies this
      ensures tasks == LoadLines(lines)
    {
      var count: seq<nat> := [];
      var lastdepth: int := -1;
      var i := 0;
      while i < |lines|
        invariant 0 <= i <= |lines|
        invariant LoadState(tasks, count, lastdepth) == Run(Start, lines[..i])
      {
        RunOneMore(lines, i);
        var line := RStrip(lines[i]);
        if Strip(line) != "" {
          StepNonBlank(LoadState(tasks, count, lastdepth), lines[i]);
          count, lastdepth := LoadLine(line, count, lastdepth);
        }
        i := i + 1;
      }
      assert lines[..|lines|] == lines;
    }

    /**
     * The body of the `load` loop for a line that is not blank, after `rstrip`: the line
     * is decoded, the counter stack follows its depth, and the task is added at the
     * address of `count[:-1]`.
     */
    method LoadLine(line: string, count0: seq<nat>, lastdepth0: int)
      returns (count: seq<nat>, lastdepth: int)
      requires Inv(LoadState(tasks, count0, lastdepth0))
      modifies this
      ensures LoadState(tasks, count, lastdepth) == Place(LoadState(old(tasks), count0, lastdepth0), Decode(line))
    {
      ghost var s := LoadState(tasks, count0, lastdepth0);
      var newtask := NewTask(line);
      count, lastdepth := NextCounters(count0, lastdepth0, newtask.depth);
      PlaceByAddress(s, newtask);
      var ok := Add(newtask, Address(count[..|count| - 1]));
    }

    /** `setTasknum`: the `i`-th top-level task and its subtree are numbered from `i`. */
    method SetTasknum()
      modifies this
      ensures tasks == NumberForest(old(tasks))
    {
      var i := 0;
      while i < |tasks|
        invariant 0 <= i <= |tasks| == |old(tasks)|
        invariant forall k :: 0 <= k < i ==> tasks[k] == NumberTree(old(tasks)[k], NatToStr(k + 1))
        invariant forall k :: i <= k < |tasks| ==> tasks[k] == old(tasks)[k]
      {
        tasks := tasks[i := NumberTree(tasks[i], NatToStr(i + 1))];
        i := i + 1;
      }
    }

    /** `allTasks`: every task of the list in pre-order, each with its subtasks. */
    function AllTasks(): seq<Task>
      reads this
    {
      Flatten(tasks)
    }

    /** `str(tasklist)`: what `save` writes to the file. */
    function Saved(): string
      reads this
    {
      EncodeAll(tasks)
    }

    /**
     * One editing command after loading: the tasks change to what the command gives,
     * or stay as they are when the program stops with an error and saves nothing.
     */
    method Execute(c: Command, args: seq<string>, today: string) returns (saved: bool)
      modifies this
      ensures saved == Perform(old(tasks), c, args, today).Some?
      ensures tasks == if saved then Perform(old(tasks), c, args, today).value else old(tasks)
    {
      var r := Perform(tasks, c, args, today);
      saved := r.Some?;
      if saved {
        tasks := r.value;
      }
    }

    /**
     * `ls`: the query is made from the search words and the `-D` and `-p` options, the
     * tasks are selected from `allTasks()`, and the prioritized ones go first, sorted.
     */
    method Show(searches: seq<string>, withdone: bool, withpri: bool) returns (shown: seq<Task>)
      ensures shown == Listing(MakeQuery(searches, withdone, withpri), Flatten(tasks))
    {
      var q := MakeQuery(searches, withdone, withpri);
      var toshow := SelectTasks(q, AllTasks());
      shown := Arrange(toshow);
    }
  }
}
