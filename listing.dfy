/**
 * The `ls` command (tl.py lines 379-411): which tasks are shown and in what order, and
 * the fields `Task.__getitem__` hands to the output format (tl.py lines 151-176).
 */
module Listings {
  import opened Wrappers
  import opened Text
  import opened Seqs
  import opened Tasks
  import opened Codec
  import opened Addressing

  /**
   * What `ls` selects by: the search words every shown text must contain, whether done
   * tasks are shown (no `-D`), and the one priority to show ("" for any).
   */
  datatype Query = Query(searches: seq<string>, withdone: bool, prisearch: string)

  /**
   * With `-p`, a first search word of one character is the priority to show instead:
   * it is upper-cased and no longer searched for.
   */
  function MakeQuery(searches: seq<string>, withdone: bool, withpri: bool): (q: Query)
    ensures q.withdone == withdone
    ensures q.prisearch != "" <==> withpri && |searches| > 0 && |searches[0]| == 1
    ensures q.prisearch != "" ==> q.prisearch == [Upper(searches[0][0])] && q.searches == searches[1..]
    ensures q.prisearch == "" ==> q.searches == searches
  {
    if withpri && |searches| > 0 && |searches[0]| == 1 then
      Query(searches[1..], withdone, [Upper(searches[0][0])])
    else Query(searches, withdone, "")
  }

  /** A task is shown when it passes all three tests of the selection loop. */
  predicate Keep(q: Query, t: Task) {
    (forall k :: 0 <= k < |q.searches| ==> Contains(t.text, q.searches[k])) &&
    (q.withdone || t.done.None?) &&
    (q.prisearch == "" || (t.priority.Some? && [t.priority.value] == q.prisearch))
  }

  function Keeps(q: Query): Task -> bool {
    t => Keep(q, t)
  }

  /**
   * The selection loop over `allTasks()`: a search word missing from the text marks the
   * task to be skipped (the loop over the words goes on), then done tasks are dropped
   * unless shown, then tasks of another priority when one is asked for.
   */
  method SelectTasks(q: Query, all: seq<Task>) returns (toshow: seq<Task>)
    ensures toshow == Filter(all, Keeps(q))
  {
    toshow := [];
    var i := 0;
    while i < |all|
      invariant 0 <= i <= |all|
      invariant toshow == Filter(all[..i], Keeps(q))
    {
      var task := all[i];
      var skip := false;
      var j := 0;
      while j < |q.searches|
        invariant 0 <= j <= |q.searches|
        invariant skip <==> exists k :: 0 <= k < j && !Contains(task.text, q.searches[k])
      {
        if !Contains(task.text, q.searches[j]) {
          skip := true;
        }
        j := j + 1;
      }
      assert all[..i + 1] == all[..i] + [task];
      FilterSnoc(all[..i], task, Keeps(q));
      if skip {
      } else if !q.withdone && task.done.Some? {
      } else if q.prisearch != "" && !(task.priority.Some? && [task.priority.value] == q.prisearch) {
      } else {
        toshow := toshow + [task];
      }
      i := i + 1;
    }
    assert all[..|all|] == all;
  }

  // ------------------------------------------------------------------ sorting

  /** How `prisort` compares tasks: by priority, with no priority (Python's `None`) first. */
  function Rank(t: Task): int {
    if t.priority.None? then -1 else t.priority.value as int
  }

  predicate SortedByRank(s: seq<Task>) {
    forall i, j :: 0 <= i < j < |s| ==> Rank(s[i]) <= Rank(s[j])
  }

  function HasRank(k: int): Task -> bool {
    t => Rank(t) == k
  }

  /** `x` goes in after every task whose rank is not greater than its own. */
  function InsertByRank(x: Task, s: seq<Task>): (r: seq<Task>)
    ensures |r| == |s| + 1
  {
    if s == [] || Rank(s[|s| - 1]) <= Rank(x) then s + [x]
    else InsertByRank(x, s[..|s| - 1]) + [s[|s| - 1]]
  }

  /** Inserting adds `x` and loses nothing. */
  lemma {:induction false} InsertPermutes(x: Task, s: seq<Task>)
    ensures multiset(InsertByRank(x, s)) == multiset(s) + multiset{x}
    decreases |s|
  {
    if s != [] && Rank(s[|s| - 1]) > Rank(x) {
      InsertPermutes(x, s[..|s| - 1]);
      assert s == s[..|s| - 1] + [s[|s| - 1]];
    }
  }

  /** `list.sort(cmp=prisort)`, which is stable: an insertion sort from the left. */
  function SortByPriority(s: seq<Task>): (r: seq<Task>)
    ensures |r| == |s|
  {
    if s == [] then [] else InsertByRank(s[|s| - 1], SortByPriority(s[..|s| - 1]))
  }

  /** The sort is a permutation. */
  lemma {:induction false} SortPermutes(s: seq<Task>)
    ensures multiset(SortByPriority(s)) == multiset(s)
  {
    if s != [] {
      SortPermutes(s[..|s| - 1]);
      InsertPermutes(s[|s| - 1], SortByPriority(s[..|s| - 1]));
      assert s == s[..|s| - 1] + [s[|s| - 1]];
    }
  }

  /** No task of `s` ranks above `b`. */
  predicate RankedBelow(s: seq<Task>, b: int) {
    forall i :: 0 <= i < |s| ==> Rank(s[i]) <= b
  }

  lemma SortedSnoc(s: seq<Task>, y: Task)
    requires SortedByRank(s) && RankedBelow(s, Rank(y))
    ensures SortedByRank(s + [y])
  {
  }

  /** Inserting a task of rank at most `b` among such tasks gives such tasks. */
  lemma {:induction false} InsertBelow(x: Task, s: seq<Task>, b: int)
    requires Rank(x) <= b && RankedBelow(s, b)
    ensures RankedBelow(InsertByRank(x, s), b)
    decreases |s|
  {
    if s != [] && Rank(s[|s| - 1]) > Rank(x) {
      InsertBelow(x, s[..|s| - 1], b);
    }
  }

  /** Inserting into a sorted list keeps it sorted. */
  lemma {:induction false} InsertSorted(x: Task, s: seq<Task>)
    requires SortedByRank(s)
    ensures SortedByRank(InsertByRank(x, s))
    decreases |s|
  {
    if s == [] || Rank(s[|s| - 1]) <= Rank(x) {
      SortedSnoc(s, x);
    } else {
      var init, last := s[..|s| - 1], s[|s| - 1];
      assert SortedByRank(init) && RankedBelow(init, Rank(last));
      InsertSorted(x, init);
      InsertBelow(x, init, Rank(last));
      SortedSnoc(InsertByRank(x, init), last);
    }
  }

  /** The sort puts the tasks in order of rank. */
  lemma {:induction false} SortSorted(s: seq<Task>)
    ensures SortedByRank(SortByPriority(s))
  {
    if s != [] {
      SortSorted(s[..|s| - 1]);
      InsertSorted(s[|s| - 1], SortByPriority(s[..|s| - 1]));
    }
  }

  /** Inserting appends `x` to the tasks of its own rank, which keep their order. */
  lemma {:induction false} InsertStable(x: Task, s: seq<Task>, k: int)
    ensures Filter(InsertByRank(x, s), HasRank(k)) == Filter(s, HasRank(k)) + Filter([x], HasRank(k))
    decreases |s|
  {
    var H := HasRank(k);
    if s == [] || Rank(s[|s| - 1]) <= Rank(x) {
      FilterConcat(s, [x], H);
    } else {
      var init, last := s[..|s| - 1], s[|s| - 1];
      var r0 := InsertByRank(x, init);
      assert InsertByRank(x, s) == r0 + [last];
      InsertStable(x, init, k);
      assert s == init + [last];
      PassLast(x, init, last, r0, H, k);
    }
  }

  /** The last task, of a higher rank than `x`, stays behind `x` once both are filtered by rank. */
  lemma PassLast(x: Task, init: seq<Task>, last: Task, r0: seq<Task>, H: Task -> bool, k: int)
    requires H == HasRank(k) && Rank(last) > Rank(x)
    requires Filter(r0, H) == Filter(init, H) + Filter([x], H)
    ensures Filter(r0 + [last], H) == Filter(init + [last], H) + Filter([x], H)
  {
    FilterSnoc(r0, last, H);
    FilterSnoc(init, last, H);
    FilterOne(x, H);
    FilterOne(last, H);
    Commute(Filter(init, H), Filter([x], H), Filter([last], H));
  }

  /** Two parts of which one is empty can be swapped. */
  lemma Commute<T>(A: seq<T>, X: seq<T>, L: seq<T>)
    requires X == [] || L == []
    ensures A + X + L == A + L + X
  {
  }

  /** The sort is stable: the tasks of each rank keep their relative order. */
  lemma {:induction false} SortStable(s: seq<Task>, k: int)
    ensures Filter(SortByPriority(s), HasRank(k)) == Filter(s, HasRank(k))
  {
    if s != [] {
      var init, last := s[..|s| - 1], s[|s| - 1];
      var H := HasRank(k);
      SortStable(init, k);
      assert SortByPriority(s) == InsertByRank(last, SortByPriority(init));
      InsertStable(last, SortByPriority(init), k);
      assert s == init + [last];
      FilterConcat(init, [last], H);
    }
  }

  // ---------------------------------------------------------------- the output

  predicate IsPrioritized(t: Task) { t.priority.Some? }

  predicate IsUnprioritized(t: Task) { t.priority.None? }

  /** The selected tasks with a priority, sorted, then those without one. */
  function Arrange(toshow: seq<Task>): seq<Task> {
    SortByPriority(Filter(toshow, IsPrioritized)) + Filter(toshow, IsUnprioritized)
  }

  /** What `ls` prints, one task per line, from the pre-order listing `all`. */
  function Listing(q: Query, all: seq<Task>): seq<Task> {
    Arrange(Filter(all, Keeps(q)))
  }

  lemma {:induction false} PartitionMultiset(s: seq<Task>)
    ensures multiset(Filter(s, IsPrioritized)) + multiset(Filter(s, IsUnprioritized)) == multiset(s)
  {
    if s != [] {
      var init, last := s[..|s| - 1], s[|s| - 1];
      PartitionMultiset(init);
      assert s == init + [last];
    }
  }

  /** Among the prioritized tasks, those of a letter are the tasks of that letter. */
  lemma {:induction false} RankWithin(s: seq<Task>, k: int)
    requires k >= 0
    ensures Filter(Filter(s, IsPrioritized), HasRank(k)) == Filter(s, HasRank(k))
  {
    if s != [] {
      var init, last := s[..|s| - 1], s[|s| - 1];
      var H := HasRank(k);
      RankWithin(init, k);
      assert s == init + [last];
      FilterSnoc(init, last, IsPrioritized);
      FilterSnoc(init, last, H);
      var P := Filter(init, IsPrioritized);
      if IsPrioritized(last) {
        assert Filter(s, IsPrioritized) == P + [last];
        FilterSnoc(P, last, H);
      } else {
        assert Filter(s, IsPrioritized) == P;
        assert !H(last);
      }
    }
  }

  /** The output is a rearrangement of the selected tasks: none lost, none repeated. */
  lemma ArrangePermutation(toshow: seq<Task>)
    ensures multiset(Arrange(toshow)) == multiset(toshow)
  {
    PartitionMultiset(toshow);
    SortPermutes(Filter(toshow, IsPrioritized));
  }

  /** The sorted part holds only prioritized tasks, in order of letter, each letter stable. */
  lemma SortedPart(toshow: seq<Task>, k: int)
    requires k >= 0
    ensures var P := SortByPriority(Filter(toshow, IsPrioritized));
      (forall i :: 0 <= i < |P| ==> P[i].priority.Some?) && SortedByRank(P) &&
      Filter(P, HasRank(k)) == Filter(toshow, HasRank(k))
  {
    var P := Filter(toshow, IsPrioritized);
    SortSorted(P);
    SortStable(P, k);
    RankWithin(toshow, k);
    SortPermutes(P);
    forall i | 0 <= i < |SortByPriority(P)| ensures SortByPriority(P)[i].priority.Some? {
      var t := SortByPriority(P)[i];
      assert t in multiset(SortByPriority(P));
      FilterMembers(toshow, IsPrioritized, t);
    }
  }

  /**
   * The output order: first the prioritized tasks, sorted by letter, those of one letter
   * in their pre-order; then the other tasks, in pre-order.
   */
  lemma ArrangeOrder(toshow: seq<Task>)
    ensures var n := |Filter(toshow, IsPrioritized)|;
      var r := Arrange(toshow);
      n <= |r| &&
      (forall i :: 0 <= i < n ==> r[i].priority.Some?) &&
      SortedByRank(r[..n]) &&
      (forall k :: k >= 0 ==> Filter(r[..n], HasRank(k)) == Filter(toshow, HasRank(k))) &&
      r[n..] == Filter(toshow, IsUnprioritized)
  {
    var S := SortByPriority(Filter(toshow, IsPrioritized));
    var U := Filter(toshow, IsUnprioritized);
    assert Arrange(toshow)[..|S|] == S && Arrange(toshow)[|S|..] == U;
    SortedPart(toshow, 0);
    forall k | k >= 0 ensures Filter(S, HasRank(k)) == Filter(toshow, HasRank(k)) {
      SortedPart(toshow, k);
    }
  }

  /**
   * What the options and search words of `ls` ask of a task: it contains every search
   * word, it is not done unless done tasks are shown, and with `-p` and a first word of
   * one character, it has that priority, upper-cased, and that word is not searched for.
   */
  lemma QueryKeeps(searches: seq<string>, withdone: bool, withpri: bool, t: Task)
    ensures var byPri := withpri && |searches| > 0 && |searches[0]| == 1;
      var words := if byPri then searches[1..] else searches;
      Keep(MakeQuery(searches, withdone, withpri), t) <==>
        (forall k :: 0 <= k < |words| ==> Contains(t.text, words[k])) &&
        (withdone || t.done.None?) &&
        (byPri ==> t.priority == Some(Upper(searches[0][0])))
  {
  }

  /**
   * `ls -p c w1 w2 ...` lists exactly the tasks of priority `C` whose text contains
   * every one of the words (and, with `-D`, that are not done).
   */
  lemma PriorityListing(searches: seq<string>, withdone: bool, all: seq<Task>, t: Task)
    requires |searches| > 0 && |searches[0]| == 1
    ensures t in Listing(MakeQuery(searches, withdone, true), all) <==>
      t in all && t.priority == Some(Upper(searches[0][0])) &&
      (forall k :: 1 <= k < |searches| ==> Contains(t.text, searches[k])) &&
      (withdone || t.done.None?)
  {
    var q := MakeQuery(searches, withdone, true);
    ListingMembers(q, all, t);
    QueryKeeps(searches, withdone, true, t);
    assert (forall k :: 1 <= k < |searches| ==> Contains(t.text, searches[k])) <==>
      (forall k :: 0 <= k < |searches[1..]| ==> Contains(t.text, searches[1..][k]));
  }

  /** A task is listed exactly when it is in the pre-order listing and passes the query. */
  lemma ListingMembers(q: Query, all: seq<Task>, t: Task)
    ensures t in Listing(q, all) <==> t in all && Keep(q, t)
  {
    var kept := Filter(all, Keeps(q));
    ArrangePermutation(kept);
    FilterMembers(all, Keeps(q), t);
    assert t in Listing(q, all) <==> t in multiset(Listing(q, all));
  }

  // ------------------------------------------------------------ output fields

  /** The terminal colours the listing uses. */
  datatype Color = Default | BrightRed | BrightBlue

  /** `PRIORITY_COLOR`: priorities A and B have a colour; the `None` entry is the default. */
  const PriorityColor: map<Option<char>, Color> :=
    map[None := Default, Some('A') := BrightRed, Some('B') := BrightBlue]

  /** `task['color']`: the colour of the priority, the default one when it has none. */
  function ColorOf(t: Task): (c: Color)
    ensures c != Default <==> t.priority == Some('A') || t.priority == Some('B')
  {
    if t.priority in PriorityColor then PriorityColor[t.priority] else PriorityColor[None]
  }

  /** `task['priority']`: the letter in parentheses, or nothing. */
  function PriorityField(t: Task): string {
    if t.priority.Some? then "(" + [t.priority.value] + ")" else ""
  }

  /** `task['done']`: `x` and the date, or nothing. */
  function DoneField(t: Task): string {
    if t.done.Some? then "x " + t.done.value else ""
  }

  /** `task['indent']`: one space per level. */
  function IndentField(t: Task): string {
    Spaces(t.depth)
  }

  /** `task['tasknum']`: the address, or -1 before numbering. */
  function TasknumField(t: Task): string {
    if t.tasknum.Some? then t.tasknum.value else "-1"
  }

  /** After `setTasknum`, the `tasknum` field of every task is its dotted address. */
  lemma NumberedField(ts: seq<Task>, p: seq<nat>)
    requires ValidPath(ts, p) && p != []
    ensures ValidPath(NumberForest(ts), p) && TasknumField(NodeAt(NumberForest(ts), p)) == Address(p)
  {
    NumberedAt(ts, p);
  }

  /**
   * The fields are cut from the line the file stores: a task without both prefixes,
   * whose priority letter is already upper case, is written as its priority field or its
   * done field and a space, then its indent and its text.
   */
  lemma FieldsMakeLine(t: Task)
    requires t.done.None? || t.priority.None?
    requires t.priority.Some? ==> Upper(t.priority.value) == t.priority.value
    ensures LineOf(t) == (if t.priority.Some? then PriorityField(t) + " "
                          else if t.done.Some? then DoneField(t) + " " else "") + IndentField(t) + t.text
  {
  }
}
