/**
 * The task tree: one `Task` per entry of the list, each owning its ordered subtasks
 * (tl.py `Task`), and the structural operations the program performs on it.
 *
 * A position in the tree is a path of 1-based child indices, as in the dotted
 * addresses: `[2, 1]` is the first subtask of the second top-level task, and the
 * empty path stands for the top-level list itself (the `TaskList` root).
 * The program changes nodes in place; here every change yields the new forest.
 */
module Tasks {
  import opened Wrappers

  /**
   * A task line and its subtasks. `done` is the completion date, `priority` the letter,
   * `depth` the count of leading spaces on its line, `tasknum` the dotted address set by
   * `setTasknum` (`None` stands for the -1 the program stores before numbering).
   */
  datatype Task = Task(
    done: Option<string>,
    priority: Option<char>,
    depth: nat,
    text: string,
    subtasks: seq<Task>,
    tasknum: Option<string>)

  /** `Task.allTasks`: the task itself, then the pre-order listing of its subtasks. */
  function AllTasks(t: Task): (r: seq<Task>)
    ensures |r| >= 1 && r[0] == t
  {
    [t] + Flatten(t.subtasks)
  }

  /** `TaskList.allTasks`: the pre-order listing of a forest, without the root. */
  function Flatten(ts: seq<Task>): seq<Task>
  {
    if ts == [] then [] else AllTasks(ts[0]) + Flatten(ts[1..])
  }

  /** A node's own fields, without its subtasks. */
  function Entry(t: Task): Task { t.(subtasks := []) }

  /** The pre-order list of the nodes' own fields: what a forest holds, line by line. */
  function Entries(ts: seq<Task>): (r: seq<Task>)
    ensures ts != [] ==> |r| >= 1 && r[0] == Entry(ts[0])
  {
    if ts == [] then [] else [Entry(ts[0])] + Entries(ts[0].subtasks) + Entries(ts[1..])
  }

  lemma {:induction false} FlattenConcat(a: seq<Task>, b: seq<Task>)
    ensures Flatten(a + b) == Flatten(a) + Flatten(b)
  {
    if a != [] {
      assert (a + b)[0] == a[0] && (a + b)[1..] == a[1..] + b;
      FlattenConcat(a[1..], b);
    } else {
      assert a + b == b;
    }
  }

  lemma {:induction false} EntriesConcat(a: seq<Task>, b: seq<Task>)
    ensures Entries(a + b) == Entries(a) + Entries(b)
  {
    if a != [] {
      assert (a + b)[0] == a[0] && (a + b)[1..] == a[1..] + b;
      EntriesConcat(a[1..], b);
    } else {
      assert a + b == b;
    }
  }

  /** `Entries` is the pre-order listing `Flatten` with every node's subtasks dropped. */
  lemma {:induction false} EntriesAreFlatten(ts: seq<Task>)
    ensures |Entries(ts)| == |Flatten(ts)|
    ensures forall k :: 0 <= k < |Flatten(ts)| ==> Entries(ts)[k] == Entry(Flatten(ts)[k])
  {
    if ts != [] {
      EntriesAreFlatten(ts[0].subtasks);
      EntriesAreFlatten(ts[1..]);
      assert Flatten(ts) == [ts[0]] + Flatten(ts[0].subtasks) + Flatten(ts[1..]);
    }
  }

  /** Entries of a forest split around its `i`-th tree. */
  lemma {:induction false} EntriesAround(ts: seq<Task>, i: nat)
    requires i < |ts|
    ensures Entries(ts) == Entries(ts[..i]) + [Entry(ts[i])] + Entries(ts[i].subtasks) + Entries(ts[i + 1..])
  {
    var rest := ts[i..];
    assert ts == ts[..i] + rest;
    EntriesConcat(ts[..i], rest);
    assert rest != [] && rest[0] == ts[i] && rest[1..] == ts[i + 1..];
    var A, R := Entries(ts[..i]), Entries(rest);
    assert R == [Entry(ts[i])] + Entries(ts[i].subtasks) + Entries(ts[i + 1..]);
    Assoc(A, [Entry(ts[i])], Entries(ts[i].subtasks), Entries(ts[i + 1..]));
  }

  lemma Assoc<T>(A: seq<T>, B: seq<T>, C: seq<T>, D: seq<T>)
    ensures A + (B + C + D) == A + B + C + D
  {
  }

  /** Entries of a forest in which the `i`-th tree has been replaced by `t`. */
  lemma {:induction false} EntriesUpdate(ts: seq<Task>, i: nat, t: Task)
    requires i < |ts|
    ensures Entries(ts[i := t]) == Entries(ts[..i]) + [Entry(t)] + Entries(t.subtasks) + Entries(ts[i + 1..])
  {
    var ts' := ts[i := t];
    EntriesAround(ts', i);
    assert ts'[..i] == ts[..i] && ts'[i + 1..] == ts[i + 1..];
  }

  lemma EntriesSingle(t: Task)
    ensures Entries([t]) == [Entry(t)] + Entries(t.subtasks)
  {
    assert [t][1..] == [];
  }

  // ------------------------------------------------------------ addresses

  /** The tree with every address taken off, as the file stores it. */
  function Unnumbered(t: Task): (r: Task)
    ensures r.tasknum == None && Entry(r) == Entry(t).(tasknum := None)
  {
    t.(tasknum := None, subtasks := UnnumberedAll(t.subtasks))
  }

  function UnnumberedAll(ts: seq<Task>): (r: seq<Task>)
    ensures |r| == |ts| && forall i :: 0 <= i < |ts| ==> r[i] == Unnumbered(ts[i])
  {
    if ts == [] then [] else [Unnumbered(ts[0])] + UnnumberedAll(ts[1..])
  }

  /** The entries with their addresses taken off, one by one. */
  function ClearAddresses(es: seq<Task>): (r: seq<Task>)
    ensures |r| == |es| && forall k :: 0 <= k < |es| ==> r[k] == es[k].(tasknum := None)
  {
    seq(|es|, k requires 0 <= k < |es| => es[k].(tasknum := None))
  }

  lemma ClearConcat(a: seq<Task>, b: seq<Task>, c: seq<Task>)
    ensures ClearAddresses(a + b + c) == ClearAddresses(a) + ClearAddresses(b) + ClearAddresses(c)
  {
  }

  /** Taking the addresses off the tree takes them off every entry and changes nothing else. */
  lemma {:induction false} UnnumberedEntries(ts: seq<Task>)
    ensures Entries(UnnumberedAll(ts)) == ClearAddresses(Entries(ts))
  {
    if ts != [] {
      var u := UnnumberedAll(ts);
      UnnumberedEntries(ts[0].subtasks);
      UnnumberedEntries(ts[1..]);
      assert u[1..] == UnnumberedAll(ts[1..]);
      assert u[0].subtasks == UnnumberedAll(ts[0].subtasks);
      assert Entries(u) == [Entry(u[0])] + Entries(u[0].subtasks) + Entries(u[1..]);
      assert [Entry(u[0])] == ClearAddresses([Entry(ts[0])]);
      ClearConcat([Entry(ts[0])], Entries(ts[0].subtasks), Entries(ts[1..]));
    }
  }

  // ---------------------------------------------------------------- paths

  /** `p` leads from the forest `ts` to a node (or is empty: the forest itself). */
  predicate ValidPath(ts: seq<Task>, p: seq<nat>)
  {
    p == [] || (1 <= p[0] <= |ts| && ValidPath(ts[p[0] - 1].subtasks, p[1..]))
  }

  /** The children list at `p`: the subtasks of the node there, or the top level for `[]`. */
  function ChildrenAt(ts: seq<Task>, p: seq<nat>): seq<Task>
    requires ValidPath(ts, p)
  {
    if p == [] then ts else ChildrenAt(ts[p[0] - 1].subtasks, p[1..])
  }

  /** The node a non-empty path leads to. */
  function NodeAt(ts: seq<Task>, p: seq<nat>): (t: Task)
    requires ValidPath(ts, p) && p != []
  {
    if |p| == 1 then ts[p[0] - 1] else NodeAt(ts[p[0] - 1].subtasks, p[1..])
  }

  /** Extending a path by one index: valid iff the index is within the children there. */
  lemma {:induction false} PathSnoc(ts: seq<Task>, q: seq<nat>, j: nat)
    requires ValidPath(ts, q)
    ensures ValidPath(ts, q + [j]) <==> 1 <= j <= |ChildrenAt(ts, q)|
    ensures ValidPath(ts, q + [j]) ==>
      NodeAt(ts, q + [j]) == ChildrenAt(ts, q)[j - 1] &&
      ChildrenAt(ts, q + [j]) == ChildrenAt(ts, q)[j - 1].subtasks
  {
    if q != [] {
      assert (q + [j])[0] == q[0] && (q + [j])[1..] == q[1..] + [j];
      PathSnoc(ts[q[0] - 1].subtasks, q[1..], j);
    } else {
      assert q + [j] == [j];
    }
  }

  /** Every prefix of a valid path is valid. */
  lemma {:induction false} PathPrefix(ts: seq<Task>, p: seq<nat>, k: nat)
    requires ValidPath(ts, p) && k <= |p|
    ensures ValidPath(ts, p[..k])
  {
    if k > 0 {
      PathPrefix(ts[p[0] - 1].subtasks, p[1..], k - 1);
      assert p[..k][0] == p[0] && p[..k][1..] == p[1..][..k - 1];
    }
  }

  /** A non-empty valid path is its parent's path plus a position among the parent's children. */
  lemma PathParent(ts: seq<Task>, p: seq<nat>)
    requires ValidPath(ts, p) && p != []
    ensures ValidPath(ts, p[..|p| - 1])
    ensures 1 <= p[|p| - 1] <= |ChildrenAt(ts, p[..|p| - 1])|
    ensures NodeAt(ts, p) == ChildrenAt(ts, p[..|p| - 1])[p[|p| - 1] - 1]
  {
    PathPrefix(ts, p, |p| - 1);
    assert p == p[..|p| - 1] + [p[|p| - 1]];
    PathSnoc(ts, p[..|p| - 1], p[|p| - 1]);
  }

  /** The node at `p` has the subtasks listed at `p`. */
  lemma {:induction false} NodeChildren(ts: seq<Task>, p: seq<nat>)
    requires ValidPath(ts, p) && p != []
    ensures NodeAt(ts, p).subtasks == ChildrenAt(ts, p)
  {
    if |p| > 1 {
      NodeChildren(ts[p[0] - 1].subtasks, p[1..]);
    }
  }

  // ------------------------------------------------------------ appending

  /** Appends `us` to the children at `q` (the top level when `q` is empty). */
  function AppendAt(ts: seq<Task>, q: seq<nat>, us: seq<Task>): (r: seq<Task>)
    requires ValidPath(ts, q)
    ensures |r| == |ts| + (if q == [] then |us| else 0)
  {
    if q == [] then ts + us
    else
      var i := q[0] - 1;
      ts[i := ts[i].(subtasks := AppendAt(ts[i].subtasks, q[1..], us))]
  }

  /**
   * `Task.add(task, subsection)`: `u` becomes the last child of the node at `q`, or the
   * last top-level task when `q` is empty.
   */
  function AddAt(ts: seq<Task>, q: seq<nat>, u: Task): seq<Task>
    requires ValidPath(ts, q)
  {
    AppendAt(ts, q, [u])
  }

  /** Adding below a path goes into the child its first number picks. */
  lemma AddAtStep(ts: seq<Task>, p: seq<nat>, u: Task)
    requires ValidPath(ts, p) && p != []
    ensures var i := p[0] - 1;
      AddAt(ts, p, u) == ts[i := ts[i].(subtasks := AddAt(ts[i].subtasks, p[1..], u))]
  {
  }

  /**
   * Appending at `q` keeps every path valid and leaves every node's fields alone. It
   * extends the children list at `q` by `us`, keeps the length of the lists on the way
   * down to `q`, and leaves every other children list as it was.
   */
  lemma {:induction false} AppendKeepsPaths(ts: seq<Task>, q: seq<nat>, us: seq<Task>, r: seq<nat>)
    requires ValidPath(ts, q) && ValidPath(ts, r)
    ensures ValidPath(AppendAt(ts, q, us), r)
    ensures r == q ==> ChildrenAt(AppendAt(ts, q, us), r) == ChildrenAt(ts, r) + us
    ensures !(|r| <= |q| && r == q[..|r|]) ==> ChildrenAt(AppendAt(ts, q, us), r) == ChildrenAt(ts, r)
    ensures |r| < |q| && r == q[..|r|] ==> |ChildrenAt(AppendAt(ts, q, us), r)| == |ChildrenAt(ts, r)|
    ensures r != [] ==> Entry(NodeAt(AppendAt(ts, q, us), r)) == Entry(NodeAt(ts, r))
  {
    if q == [] && r != [] {
      assert (ts + us)[r[0] - 1] == ts[r[0] - 1];
    } else if q != [] && r != [] {
      var i := q[0] - 1;
      var ts' := AppendAt(ts, q, us);
      if r[0] - 1 == i {
        AppendKeepsPaths(ts[i].subtasks, q[1..], us, r[1..]);
        assert r == q <==> r[1..] == q[1..];
        if |r| <= |q| {
          assert r == q[..|r|] <==> r[1..] == q[1..][..|r| - 1];
        } else {
          assert r[..|q|] == q <==> r[1..][..|q| - 1] == q[1..];
        }
      } else {
        assert ts'[r[0] - 1] == ts[r[0] - 1];
        if |r| <= |q| { assert r[0] == r[..|r|][0]; } else { assert r[0] == r[..|q|][0]; }
      }
    }
  }

  /** Appending twice at the same place appends the concatenation. */
  lemma {:induction false} AppendAppend(ts: seq<Task>, q: seq<nat>, a: seq<Task>, b: seq<Task>)
    requires ValidPath(ts, q)
    ensures ValidPath(AppendAt(ts, q, a), q)
    ensures AppendAt(AppendAt(ts, q, a), q, b) == AppendAt(ts, q, a + b)
  {
    AppendKeepsPaths(ts, q, a, q);
    if q != [] {
      AppendAppend(ts[q[0] - 1].subtasks, q[1..], a, b);
    }
  }

  /**
   * Adding `u` at `q` and then appending `cs` below it is the same as adding `u`
   * with `cs` already attached: the way a tree is rebuilt one line at a time.
   */
  lemma {:induction false} AddThenBelow(ts: seq<Task>, q: seq<nat>, u: Task, cs: seq<Task>)
    requires ValidPath(ts, q)
    ensures ValidPath(AddAt(ts, q, u), q + [|ChildrenAt(ts, q)| + 1])
    ensures AppendAt(AddAt(ts, q, u), q + [|ChildrenAt(ts, q)| + 1], cs)
         == AddAt(ts, q, u.(subtasks := u.subtasks + cs))
  {
    var n := |ChildrenAt(ts, q)|;
    AppendKeepsPaths(ts, q, [u], q);
    PathSnoc(AddAt(ts, q, u), q, n + 1);
    if q == [] {
      assert [n + 1][1..] == [];
    } else {
      var i := q[0] - 1;
      assert (q + [n + 1])[0] == q[0] && (q + [n + 1])[1..] == q[1..] + [n + 1];
      AddThenBelow(ts[i].subtasks, q[1..], u, cs);
    }
  }

  // ---------------------------------------------------- pre-order positions

  /** The entries listed before the node at `p` in `Entries(ts)`. */
  function Before(ts: seq<Task>, p: seq<nat>): seq<Task>
    requires ValidPath(ts, p) && p != []
  {
    var i := p[0] - 1;
    if |p| == 1 then Entries(ts[..i])
    else Entries(ts[..i]) + [Entry(ts[i])] + Before(ts[i].subtasks, p[1..])
  }

  /** The entries listed after the whole subtree at `p` in `Entries(ts)`. */
  function After(ts: seq<Task>, p: seq<nat>): seq<Task>
    requires ValidPath(ts, p) && p != []
  {
    var i := p[0] - 1;
    if |p| == 1 then Entries(ts[i + 1..])
    else After(ts[i].subtasks, p[1..]) + Entries(ts[i + 1..])
  }

  /** Where the node at `p` stands in `Entries(ts)`: the number of entries before it. */
  function PreIndex(ts: seq<Task>, p: seq<nat>): nat
    requires ValidPath(ts, p) && p != []
  {
    |Before(ts, p)|
  }

  /**
   * The subtree at `p` occupies one contiguous block of the pre-order listing, the
   * node's own entry first.
   */
  lemma {:induction false} SubtreeBlock(ts: seq<Task>, p: seq<nat>)
    requires ValidPath(ts, p) && p != []
    ensures Entries(ts) == Before(ts, p) + Entries([NodeAt(ts, p)]) + After(ts, p)
    ensures Entries(ts)[PreIndex(ts, p)] == Entry(NodeAt(ts, p))
  {
    var i := p[0] - 1;
    var A, e, C, D := Entries(ts[..i]), Entry(ts[i]), Entries(ts[i].subtasks), Entries(ts[i + 1..]);
    assert Entries(ts) == A + [e] + C + D by { EntriesAround(ts, i); }
    if |p| > 1 {
      var cs, p' := ts[i].subtasks, p[1..];
      SubtreeBlock(cs, p');
      assert NodeAt(ts, p) == NodeAt(cs, p');
      Regroup(Entries(ts), A, e, C, D, Before(cs, p'), Entries([NodeAt(cs, p')]), After(cs, p'));
    } else {
      assert Entries([ts[i]]) == [e] + C by { EntriesSingle(ts[i]); }
      Regroup(Entries(ts), A, e, C, D, [], C, []);
    }
  }

  /** Sequence arithmetic for the recursive case of the block lemmas. */
  lemma Regroup<T>(E: seq<T>, A: seq<T>, e: T, C: seq<T>, D: seq<T>, B: seq<T>, N: seq<T>, F: seq<T>)
    requires E == A + [e] + C + D && C == B + N + F
    ensures E == (A + [e] + B) + N + (F + D)
    ensures |N| > 0 ==> E[|A + [e] + B|] == N[0]
    ensures B == [] && F == [] ==> E == A + ([e] + C) + D
  {
  }

  // ------------------------------------------------- replacing and removing

  /** Replaces the node at `p` (with its subtree) by the trees `us`, keeping its siblings. */
  function SpliceAt(ts: seq<Task>, p: seq<nat>, us: seq<Task>): seq<Task>
    requires ValidPath(ts, p) && p != []
  {
    var i := p[0] - 1;
    if |p| == 1 then ts[..i] + us + ts[i + 1..]
    else ts[i := ts[i].(subtasks := SpliceAt(ts[i].subtasks, p[1..], us))]
  }

  /** The `del`/`rm` command: the node at `p` and its subtree leave their parent's list. */
  function RemoveAt(ts: seq<Task>, p: seq<nat>): seq<Task>
    requires ValidPath(ts, p) && p != []
  {
    SpliceAt(ts, p, [])
  }

  /** The node at `p` becomes `u`; used for the edits the program makes in place. */
  function ReplaceAt(ts: seq<Task>, p: seq<nat>, u: Task): seq<Task>
    requires ValidPath(ts, p) && p != []
  {
    SpliceAt(ts, p, [u])
  }

  /**
   * Splicing at `p` changes the pre-order listing exactly by swapping the block of the
   * old subtree for the entries of `us`; every other node keeps its fields and order.
   */
  lemma {:induction false} SpliceEntries(ts: seq<Task>, p: seq<nat>, us: seq<Task>)
    requires ValidPath(ts, p) && p != []
    ensures Entries(SpliceAt(ts, p, us)) == Before(ts, p) + Entries(us) + After(ts, p)
  {
    var i := p[0] - 1;
    var A, e, D := Entries(ts[..i]), Entry(ts[i]), Entries(ts[i + 1..]);
    if |p| == 1 {
      EntriesConcat(ts[..i] + us, ts[i + 1..]);
      EntriesConcat(ts[..i], us);
    } else {
      var cs, p' := ts[i].subtasks, p[1..];
      var t' := ts[i].(subtasks := SpliceAt(cs, p', us));
      SpliceEntries(cs, p', us);
      assert SpliceAt(ts, p, us) == ts[i := t'];
      EntriesUpdate(ts, i, t');
      assert Entry(t') == e;
      Swap(Entries(ts[i := t']), A, e, Entries(t'.subtasks), D, Before(cs, p'), Entries(us), After(cs, p'));
    }
  }

  /** Sequence arithmetic for the recursive case of `SpliceEntries` and `AppendEntries`. */
  lemma Swap<T>(X: seq<T>, A: seq<T>, e: T, Y: seq<T>, D: seq<T>, B: seq<T>, U: seq<T>, F: seq<T>)
    requires X == A + [e] + Y + D && Y == B + U + F
    ensures X == (A + [e] + B) + U + (F + D)
  {
  }

  /**
   * The children list that held the spliced node: the node's slot now holds `us`,
   * its siblings before and after keep their order.
   */
  lemma {:induction false} SpliceSiblings(ts: seq<Task>, p: seq<nat>, us: seq<Task>)
    requires ValidPath(ts, p) && p != []
    ensures ValidPath(ts, p[..|p| - 1]) && 1 <= p[|p| - 1] <= |ChildrenAt(ts, p[..|p| - 1])|
    ensures ValidPath(SpliceAt(ts, p, us), p[..|p| - 1])
    ensures ChildrenAt(SpliceAt(ts, p, us), p[..|p| - 1])
         == ChildrenAt(ts, p[..|p| - 1])[..p[|p| - 1] - 1] + us + ChildrenAt(ts, p[..|p| - 1])[p[|p| - 1]..]
  {
    PathParent(ts, p);
    if |p| > 1 {
      var i := p[0] - 1;
      SpliceSiblings(ts[i].subtasks, p[1..], us);
      assert p[..|p| - 1][0] == p[0] && p[..|p| - 1][1..] == p[1..][..|p| - 2];
    }
  }

  /** Sequence arithmetic for the recursive case of `AppendEntries`. */
  lemma Insert<T>(X: seq<T>, A: seq<T>, e: T, Y: seq<T>, D: seq<T>, B: seq<T>, N: seq<T>, U: seq<T>, F: seq<T>)
    requires X == A + [e] + Y + D && Y == B + N + U + F
    ensures X == (A + [e] + B) + N + U + (F + D)
  {
  }

  /** Sequence arithmetic for the base case of `AppendEntries`. */
  lemma InsertBelow<T>(X: seq<T>, A: seq<T>, e: T, Y: seq<T>, D: seq<T>, N: seq<T>, U: seq<T>)
    requires X == A + [e] + Y + D && Y == N + U
    ensures X == A + ([e] + N) + U + D
  {
  }

  /**
   * `r` is `ts` without the node at `p`: its whole subtree leaves the pre-order listing,
   * which otherwise stays as it was, and it leaves its parent's children, the others
   * keeping their order.
   */
  predicate RemovedFrom(ts: seq<Task>, p: seq<nat>, r: seq<Task>)
    requires ValidPath(ts, p) && p != []
  {
    var parent, j := p[..|p| - 1], p[|p| - 1];
    Entries(ts) == Before(ts, p) + Entries([NodeAt(ts, p)]) + After(ts, p) &&
    Entries(r) == Before(ts, p) + After(ts, p) &&
    ValidPath(ts, parent) && 1 <= j <= |ChildrenAt(ts, parent)| && ValidPath(r, parent) &&
    ChildrenAt(r, parent) == ChildrenAt(ts, parent)[..j - 1] + ChildrenAt(ts, parent)[j..]
  }

  lemma RemoveAtRemoves(ts: seq<Task>, p: seq<nat>)
    requires ValidPath(ts, p) && p != []
    ensures RemovedFrom(ts, p, RemoveAt(ts, p))
  {
    RemoveTakesSubtree(ts, p);
    RemoveSiblings(ts, p);
  }

  /** Removing the node at `p` drops it from its parent's children, the others keeping their order. */
  lemma RemoveSiblings(ts: seq<Task>, p: seq<nat>)
    requires ValidPath(ts, p) && p != []
    ensures var parent, j := p[..|p| - 1], p[|p| - 1];
      ValidPath(ts, parent) && 1 <= j <= |ChildrenAt(ts, parent)| &&
      ValidPath(RemoveAt(ts, p), parent) &&
      ChildrenAt(RemoveAt(ts, p), parent) == ChildrenAt(ts, parent)[..j - 1] + ChildrenAt(ts, parent)[j..]
  {
    var parent, j := p[..|p| - 1], p[|p| - 1];
    SpliceSiblings(ts, p, []);
    var cs := ChildrenAt(ts, parent);
    assert cs[..j - 1] + [] + cs[j..] == cs[..j - 1] + cs[j..];
  }

  /** `del` takes out the addressed subtree and nothing else, in pre-order terms. */
  lemma RemoveTakesSubtree(ts: seq<Task>, p: seq<nat>)
    requires ValidPath(ts, p) && p != []
    ensures Entries(ts) == Before(ts, p) + Entries([NodeAt(ts, p)]) + After(ts, p)
    ensures Entries(RemoveAt(ts, p)) == Before(ts, p) + After(ts, p)
    ensures |Entries(RemoveAt(ts, p))| == |Entries(ts)| - |Entries([NodeAt(ts, p)])|
  {
    SubtreeBlock(ts, p);
    SpliceEntries(ts, p, []);
  }

  /**
   * Putting `u` in place of the node at `p`, with the same subtasks, changes exactly
   * one entry of the pre-order listing: the node's own, at its position.
   */
  lemma ReplaceOneEntry(ts: seq<Task>, p: seq<nat>, u: Task)
    requires ValidPath(ts, p) && p != [] && u.subtasks == NodeAt(ts, p).subtasks
    ensures PreIndex(ts, p) < |Entries(ts)|
    ensures Entries(ReplaceAt(ts, p, u)) == Entries(ts)[PreIndex(ts, p) := Entry(u)]
  {
    var n := NodeAt(ts, p);
    NodeBlock(ts, p);
    ReplaceBlock(ts, p, u);
    UpdateMiddle(Before(ts, p), Entry(n), Entry(u), Entries(n.subtasks), After(ts, p));
  }

  /** The node at `p`'s own entry, then its descendants', between the rest. */
  lemma NodeBlock(ts: seq<Task>, p: seq<nat>)
    requires ValidPath(ts, p) && p != []
    ensures var n := NodeAt(ts, p);
      Entries(ts) == Before(ts, p) + [Entry(n)] + Entries(n.subtasks) + After(ts, p)
  {
    SubtreeBlock(ts, p);
    EntriesSingle(NodeAt(ts, p));
  }

  /** Replacing the node at `p` by `u` puts `u`'s entries in the block. */
  lemma ReplaceBlock(ts: seq<Task>, p: seq<nat>, u: Task)
    requires ValidPath(ts, p) && p != []
    ensures Entries(ReplaceAt(ts, p, u)) == Before(ts, p) + [Entry(u)] + Entries(u.subtasks) + After(ts, p)
  {
    SpliceEntries(ts, p, [u]);
    EntriesSingle(u);
  }

  lemma UpdateMiddle<T>(A: seq<T>, x: T, y: T, C: seq<T>, D: seq<T>)
    ensures |A| < |A + [x] + C + D|
    ensures (A + [x] + C + D)[|A| := y] == A + [y] + C + D
  {
  }

  /** Appending at `q` inserts the new entries right after the subtree at `q`. */
  lemma {:induction false} AppendEntries(ts: seq<Task>, q: seq<nat>, us: seq<Task>)
    requires ValidPath(ts, q)
    ensures q == [] ==> Entries(AppendAt(ts, q, us)) == Entries(ts) + Entries(us)
    ensures q != [] ==>
      Entries(AppendAt(ts, q, us)) == Before(ts, q) + Entries([NodeAt(ts, q)]) + Entries(us) + After(ts, q)
  {
    if q == [] {
      EntriesConcat(ts, us);
    } else {
      var i := q[0] - 1;
      var A, e, D := Entries(ts[..i]), Entry(ts[i]), Entries(ts[i + 1..]);
      var cs, q' := ts[i].subtasks, q[1..];
      var t' := ts[i].(subtasks := AppendAt(cs, q', us));
      AppendEntries(cs, q', us);
      assert AppendAt(ts, q, us) == ts[i := t'];
      EntriesUpdate(ts, i, t');
      assert Entry(t') == e;
      if |q| == 1 {
        EntriesSingle(ts[i]);
        InsertBelow(Entries(ts[i := t']), A, e, Entries(t'.subtasks), D, Entries(cs), Entries(us));
      } else {
        assert NodeAt(ts, q) == NodeAt(cs, q');
        Insert(Entries(ts[i := t']), A, e, Entries(t'.subtasks), D,
               Before(cs, q'), Entries([NodeAt(cs, q')]), Entries(us), After(cs, q'));
      }
    }
  }

  // ------------------------------------------------------ done and priority

  /** Python's `not s.done`: no date, or an empty one. */
  predicate NotDone(t: Task) { t.done.None? || t.done == Some("") }

  /**
   * `Task.setDone`, with the date passed in: the node gets `date`; a subtask not yet
   * done is marked the same way, recursively; a subtask already done is left as it is.
   */
  function SetDone(t: Task, date: string): (r: Task)
    ensures r.done == Some(date)
    ensures r.(done := t.done, subtasks := t.subtasks) == t
    ensures |r.subtasks| == |t.subtasks|
    ensures forall i :: 0 <= i < |t.subtasks| && !NotDone(t.subtasks[i]) ==> r.subtasks[i] == t.subtasks[i]
    ensures forall i :: 0 <= i < |t.subtasks| && NotDone(t.subtasks[i]) ==> r.subtasks[i].done == Some(date)
  {
    t.(done := Some(date),
       subtasks := seq(|t.subtasks|, i requires 0 <= i < |t.subtasks| =>
         if NotDone(t.subtasks[i]) then SetDone(t.subtasks[i], date) else t.subtasks[i]))
  }

  /**
   * `E'` is `E` with some completion dates set to `date`: same length, every other
   * field equal, and every date either kept or `date`.
   */
  predicate DatesSet(E: seq<Task>, E': seq<Task>, date: string)
  {
    |E'| == |E| &&
    forall k :: 0 <= k < |E| ==>
      E'[k] == E[k].(done := E'[k].done) && (E'[k].done == E[k].done || E'[k].done == Some(date))
  }

  lemma {:induction false} DatesSetConcat(a: seq<Task>, a': seq<Task>, b: seq<Task>, b': seq<Task>, date: string)
    requires DatesSet(a, a', date) && DatesSet(b, b', date)
    ensures DatesSet(a + b, a' + b', date)
  {
    forall k | 0 <= k < |a + b|
      ensures (a' + b')[k] == (a + b)[k].(done := (a' + b')[k].done)
      ensures (a' + b')[k].done == (a + b)[k].done || (a' + b')[k].done == Some(date)
    {
      if k >= |a| { assert (a + b)[k] == b[k - |a|] && (a' + b')[k] == b'[k - |a|]; }
    }
  }

  /**
   * `setDone` touches no field but `done`, gives the node itself `date`, and never
   * clears or rewrites a date to anything but `date`.
   */
  lemma {:induction false} SetDoneEntries(t: Task, date: string)
    ensures DatesSet(Entries([t]), Entries([SetDone(t, date)]), date)
    ensures Entries([SetDone(t, date)])[0].done == Some(date)
    decreases t, 1
  {
    var r := SetDone(t, date);
    SetDoneChildrenEntries(t.subtasks, r.subtasks, date);
    assert Entries([t]) == [Entry(t)] + Entries(t.subtasks);
    assert Entries([r]) == [Entry(r)] + Entries(r.subtasks);
    DatesSetConcat([Entry(t)], [Entry(r)], Entries(t.subtasks), Entries(r.subtasks), date);
  }

  lemma {:induction false} SetDoneChildrenEntries(cs: seq<Task>, rs: seq<Task>, date: string)
    requires |rs| == |cs|
    requires forall i :: 0 <= i < |cs| ==> rs[i] == if NotDone(cs[i]) then SetDone(cs[i], date) else cs[i]
    ensures DatesSet(Entries(cs), Entries(rs), date)
    decreases cs, 0
  {
    if cs != [] {
      SetDoneChildrenEntries(cs[1..], rs[1..], date);
      if NotDone(cs[0]) {
        SetDoneEntries(cs[0], date);
      }
      assert cs == [cs[0]] + cs[1..] && rs == [rs[0]] + rs[1..];
      EntriesConcat([cs[0]], cs[1..]);
      EntriesConcat([rs[0]], rs[1..]);
      DatesSetConcat(Entries([cs[0]]), Entries([rs[0]]), Entries(cs[1..]), Entries(rs[1..]), date);
    }
  }

  /** Marking a task done twice with the same date changes nothing the second time. */
  lemma {:induction false} SetDoneIdempotent(t: Task, date: string)
    ensures SetDone(SetDone(t, date), date) == SetDone(t, date)
    decreases t
  {
    var r := SetDone(t, date);
    var r2 := SetDone(r, date);
    forall i | 0 <= i < |t.subtasks| ensures r2.subtasks[i] == r.subtasks[i] {
      if NotDone(t.subtasks[i]) && NotDone(r.subtasks[i]) {
        SetDoneIdempotent(t.subtasks[i], date);
      }
    }
    assert r2.subtasks == r.subtasks;
  }

  /**
   * `Task.setPriority(p, recursive)`: the node gets `p`; with `recursive` every subtask
   * gets it too, without looking at what it had.
   */
  function SetPriority(t: Task, p: char, recursive: bool): (r: Task)
    ensures r.priority == Some(p)
    ensures r.(priority := t.priority, subtasks := t.subtasks) == t
    ensures !recursive ==> r.subtasks == t.subtasks
  {
    t.(priority := Some(p),
       subtasks := if recursive then
         seq(|t.subtasks|, i requires 0 <= i < |t.subtasks| => SetPriority(t.subtasks[i], p, true))
       else t.subtasks)
  }

  /** `E'` is `E` with every priority replaced by `p` and nothing else changed. */
  predicate AllPrioritized(E: seq<Task>, E': seq<Task>, p: char)
  {
    |E'| == |E| && forall k :: 0 <= k < |E| ==> E'[k] == E[k].(priority := Some(p))
  }

  lemma AllPrioritizedConcat(A: seq<Task>, A': seq<Task>, B: seq<Task>, B': seq<Task>, p: char)
    requires AllPrioritized(A, A', p) && AllPrioritized(B, B', p)
    ensures AllPrioritized(A + B, A' + B', p)
  {
    forall k | 0 <= k < |A + B| ensures (A' + B')[k] == (A + B)[k].(priority := Some(p)) {
      if k >= |A| {
        assert (A' + B')[k] == B'[k - |A|] && (A + B)[k] == B[k - |A|];
      }
    }
  }

  /** `pri -R`: every node of the subtree now has priority `p`, every other field is kept. */
  lemma {:induction false} SetPriorityRecursiveEntries(t: Task, p: char)
    ensures AllPrioritized(Entries([t]), Entries([SetPriority(t, p, true)]), p)
    decreases t, 1
  {
    var r := SetPriority(t, p, true);
    SetPriorityChildrenEntries(t.subtasks, r.subtasks, p);
    EntriesSingle(t);
    EntriesSingle(r);
    assert Entry(r) == Entry(t).(priority := Some(p));
    AllPrioritizedConcat([Entry(t)], [Entry(r)], Entries(t.subtasks), Entries(r.subtasks), p);
  }

  lemma {:induction false} SetPriorityChildrenEntries(cs: seq<Task>, rs: seq<Task>, p: char)
    requires |rs| == |cs|
    requires forall i :: 0 <= i < |cs| ==> rs[i] == SetPriority(cs[i], p, true)
    ensures AllPrioritized(Entries(cs), Entries(rs), p)
    decreases cs, 0
  {
    if cs != [] {
      SetPriorityChildrenEntries(cs[1..], rs[1..], p);
      SetPriorityRecursiveEntries(cs[0], p);
      assert cs == [cs[0]] + cs[1..] && rs == [rs[0]] + rs[1..];
      EntriesConcat([cs[0]], cs[1..]);
      EntriesConcat([rs[0]], rs[1..]);
      AllPrioritizedConcat(Entries([cs[0]]), Entries([rs[0]]), Entries(cs[1..]), Entries(rs[1..]), p);
    }
  }

  /** Setting the same priority again changes nothing. */
  lemma {:induction false} SetPriorityIdempotent(t: Task, p: char, recursive: bool)
    ensures SetPriority(SetPriority(t, p, recursive), p, recursive) == SetPriority(t, p, recursive)
    decreases t
  {
    var r := SetPriority(t, p, recursive);
    var r2 := SetPriority(r, p, recursive);
    if recursive {
      forall i | 0 <= i < |t.subtasks| ensures r2.subtasks[i] == r.subtasks[i] {
        SetPriorityIdempotent(t.subtasks[i], p, true);
      }
      assert r2.subtasks == r.subtasks;
    }
  }
}
