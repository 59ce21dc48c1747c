/**
 * Rebuilding the tree from the lines of the todo file (tl.py `TaskList.load`).
 *
 * The loop keeps `count`, one sibling counter per level along the path to the task read
 * last, and `lastdepth`. A deeper line goes one level down, whatever its depth; an
 * equally deep line is the next sibling; a shallower line cuts the stack back to its
 * depth. The new task is then added below the path `count[:-1]`.
 */
module Loading {
  import opened Wrappers
  import opened Text
  import opened Tasks
  import opened Codec

  /** The variables of the `load` loop: the tasks read so far, `count` and `lastdepth`. */
  datatype LoadState = LoadState(forest: seq<Task>, count: seq<nat>, lastdepth: int)

  /** The state before the first line: no tasks, an empty stack, `lastdepth` -1. */
  const Start := LoadState([], [], -1)

  /**
   * `c` is the right edge of `ts`: its first number is the count of top-level tasks,
   * the next the count of the last task's subtasks, and so on down to a task that has
   * none. This is the path to the task read last.
   */
  predicate Edge(ts: seq<Task>, c: seq<nat>) {
    if c == [] then ts == []
    else |ts| >= 1 && c[0] == |ts| && Edge(ts[|ts| - 1].subtasks, c[1..])
  }

  /** What the loop keeps true: `|count| == lastdepth + 1`, and `count` is the right edge. */
  predicate Inv(s: LoadState) {
    s.lastdepth == |s.count| - 1 && Edge(s.forest, s.count)
  }

  /**
   * Every prefix of the right edge is a valid path, and the number following it in `c`
   * is the child count there; the whole edge ends at a node with no children.
   */
  lemma {:induction false} EdgePrefix(ts: seq<Task>, c: seq<nat>, k: nat)
    requires Edge(ts, c) && k <= |c|
    ensures ValidPath(ts, c[..k])
    ensures k < |c| ==> c[k] == |ChildrenAt(ts, c[..k])|
    ensures k == |c| ==> ChildrenAt(ts, c[..k]) == []
  {
    if k > 0 {
      EdgePrefix(ts[|ts| - 1].subtasks, c[1..], k - 1);
      assert c[..k][0] == c[0] && c[..k][1..] == c[1..][..k - 1];
      if k < |c| {
        assert c[k] == c[1..][k - 1];
      }
    } else {
      assert c[..0] == [];
    }
  }

  /**
   * Adding a task without subtasks below the `k`-long prefix of the right edge makes the
   * new right edge that prefix followed by the new child count.
   */
  lemma {:induction false} AddOnEdge(ts: seq<Task>, c: seq<nat>, k: nat, u: Task)
    requires Edge(ts, c) && k <= |c| && u.subtasks == []
    ensures ValidPath(ts, c[..k])
    ensures Edge(AddAt(ts, c[..k], u), c[..k] + [|ChildrenAt(ts, c[..k])| + 1])
  {
    EdgePrefix(ts, c, k);
    var q := c[..k];
    var n := |ChildrenAt(ts, q)|;
    var c' := q + [n + 1];
    var ts' := AddAt(ts, q, u);
    if k == 0 {
      assert q == [] && c' == [|ts| + 1];
      assert ts' == ts + [u];
      assert c'[1..] == [];
    } else {
      var i := |ts| - 1;
      var q' := c[1..][..k - 1];
      AddOnEdge(ts[i].subtasks, c[1..], k - 1, u);
      assert q == [c[0]] + q';
      assert c'[0] == |ts| && c'[1..] == q' + [n + 1];
      assert ts'[i] == ts[i].(subtasks := AddAt(ts[i].subtasks, q', u));
    }
  }

  /** `min(a, b)`. */
  function Min(a: nat, b: nat): nat { if a <= b then a else b }

  /** The counter stack after a line of depth `d` (tl.py lines 211-219). */
  function NextCount(count: seq<nat>, lastdepth: int, d: nat): (c: seq<nat>)
    requires lastdepth == |count| - 1
    ensures c != []
  {
    if d > lastdepth then count + [1]
    else if d == lastdepth then count[|count| - 1 := count[|count| - 1] + 1]
    else
      var c := count[..d + 1];
      c[|c| - 1 := c[|c| - 1] + 1]
  }

  /** `lastdepth` after a line of depth `d`: one level down at most. */
  function NextDepth(lastdepth: int, d: nat): int {
    if d > lastdepth then lastdepth + 1 else d
  }

  /**
   * Whatever the depth `d`, the new stack is the first `min(d, |count|)` counters
   * followed by the child count there plus one.
   */
  lemma NextCountShape(s: LoadState, d: nat)
    requires Inv(s)
    ensures var k := Min(d, |s.count|);
      ValidPath(s.forest, s.count[..k]) &&
      NextCount(s.count, s.lastdepth, d) == s.count[..k] + [|ChildrenAt(s.forest, s.count[..k])| + 1]
  {
    var k := Min(d, |s.count|);
    EdgePrefix(s.forest, s.count, k);
    if d > s.lastdepth {
      assert s.count[..k] == s.count;
    } else if d == s.lastdepth {
      assert s.count == s.count[..k] + [s.count[k]];
    } else {
      var c := s.count[..d + 1];
      assert c[..|c| - 1] == s.count[..k];
      assert c == c[..|c| - 1] + [s.count[k]];
    }
  }

  /** `line.strip() == ''` after `rstrip`: a line the loader skips. */
  predicate Blank(line: string) {
    Strip(RStrip(line)) == ""
  }

  /** The loader skips exactly the lines made of whitespace only. */
  lemma BlankIff(line: string)
    ensures Blank(line) <==> AllSpace(line)
  {
    StripOfRStrip(line);
    StripEmptyIff(line);
  }

  lemma ButLast<T>(q: seq<T>, x: T, c: seq<T>)
    requires c == q + [x]
    ensures c != [] && c[..|c| - 1] == q
  {
  }

  /**
   * Where a task of depth `d` goes: the stack is cut to `min(d, |count|)` counters and
   * the task is added there, as the next child. On every state the loop reaches that
   * path exists (`PushInv`); the guard only makes the function total.
   */
  function Push(s: LoadState, t: Task): (r: LoadState)
  {
    var k := Min(t.depth, |s.count|);
    var q := s.count[..k];
    if ValidPath(s.forest, q) then
      LoadState(AddAt(s.forest, q, t), q + [|ChildrenAt(s.forest, q)| + 1], k)
    else s
  }

  /** Pushing a task that has no subtasks keeps the loop invariant. */
  lemma PushInv(s: LoadState, t: Task)
    requires Inv(s) && t.subtasks == []
    ensures Inv(Push(s, t))
  {
    AddOnEdge(s.forest, s.count, Min(t.depth, |s.count|), t);
  }

  /**
   * The body of the `load` loop after decoding (tl.py lines 211-221): the counter stack
   * is updated by the depth of `t` and `t` is added below the path `count[:-1]`.
   */
  function Place(s: LoadState, t: Task): (r: LoadState)
    requires Inv(s) && t.subtasks == []
    ensures Inv(r)
  {
    var count := NextCount(s.count, s.lastdepth, t.depth);
    var k := Min(t.depth, |s.count|);
    NextCountShape(s, t.depth);
    ButLast(s.count[..k], |ChildrenAt(s.forest, s.count[..k])| + 1, count);
    AddOnEdge(s.forest, s.count, k, t);
    LoadState(AddAt(s.forest, count[..|count| - 1], t), count, NextDepth(s.lastdepth, t.depth))
  }

  /**
   * Whatever branch the depth takes, the loop body cuts the stack to `min(depth, |count|)`
   * counters and adds the task there as the next child.
   */
  lemma PlaceIsPush(s: LoadState, t: Task)
    requires Inv(s) && t.subtasks == []
    ensures Place(s, t) == Push(s, t)
  {
    var k := Min(t.depth, |s.count|);
    NextCountShape(s, t.depth);
    var count := NextCount(s.count, s.lastdepth, t.depth);
    ButLast(s.count[..k], |ChildrenAt(s.forest, s.count[..k])| + 1, count);
  }

  /**
   * One iteration of the `load` loop: a blank line changes nothing; any other line is
   * decoded after `rstrip` and placed.
   */
  function Step(s: LoadState, line: string): (r: LoadState)
    requires Inv(s)
    ensures Inv(r)
    ensures Blank(line) ==> r == s
  {
    var l := RStrip(line);
    if Strip(l) == "" then s else Place(s, Decode(l))
  }

  /** The loop run over `lines` from state `s`, one line after another. */
  function Run(s: LoadState, lines: seq<string>): (r: LoadState)
    requires Inv(s)
    ensures Inv(r)
  {
    if lines == [] then s else Step(Run(s, lines[..|lines| - 1]), lines[|lines| - 1])
  }

  /** `TaskList.load` on a fresh list, over the lines of the file. */
  function LoadLines(lines: seq<string>): seq<Task> {
    Run(Start, lines).forest
  }

  // ------------------------------------------- decoding, then building

  /** Tasks as they come off the decoder: none has subtasks yet. */
  predicate Flat(ts: seq<Task>) {
    forall i :: 0 <= i < |ts| ==> ts[i].subtasks == []
  }

  /** The tasks the non-blank lines decode to, in input order. */
  function Decoded(lines: seq<string>): (r: seq<Task>)
    ensures Flat(r)
  {
    if lines == [] then [] else Decoded(lines[..|lines| - 1]) + DecodedLine(lines[|lines| - 1])
  }

  /** What one line contributes: nothing when blank, else its decoded task. */
  function DecodedLine(line: string): (r: seq<Task>)
    ensures Flat(r)
  {
    if Blank(line) then []
    else
      var t := Decode(RStrip(line));
      assert t.subtasks == [];
      [t]
  }

  /** The pushes alone, over tasks already decoded. */
  function Build(s: LoadState, ts: seq<Task>): (r: LoadState)
  {
    if ts == [] then s else Push(Build(s, ts[..|ts| - 1]), ts[|ts| - 1])
  }

  lemma {:induction false} BuildInv(s: LoadState, ts: seq<Task>)
    requires Inv(s) && Flat(ts)
    ensures Inv(Build(s, ts))
  {
    if ts != [] {
      BuildInv(s, ts[..|ts| - 1]);
      PushInv(Build(s, ts[..|ts| - 1]), ts[|ts| - 1]);
    }
  }

  lemma Snoc<T>(Y: seq<T>, X: seq<T>, E: seq<T>, D: seq<T>, x: seq<T>)
    requires Y == X + x && X == E + D
    ensures Y == E + (D + x)
  {
  }

  lemma {:induction false} BuildConcat(s: LoadState, a: seq<Task>, b: seq<Task>)
    requires Inv(s) && Flat(a) && Flat(b)
    ensures Flat(a + b)
    ensures Build(s, a + b) == Build(Build(s, a), b)
  {
    if b != [] {
      var n := |b|;
      BuildConcat(s, a, b[..n - 1]);
      assert (a + b)[..|a + b| - 1] == a + b[..n - 1];
      assert (a + b)[|a + b| - 1] == b[n - 1];
    } else {
      assert a + b == a;
    }
  }

  /** Reading lines is decoding the non-blank ones and pushing the results in order. */
  lemma {:induction false} RunIsBuild(s: LoadState, lines: seq<string>)
    requires Inv(s)
    ensures Run(s, lines) == Build(s, Decoded(lines))
  {
    if lines != [] {
      var init, last := lines[..|lines| - 1], lines[|lines| - 1];
      RunIsBuild(s, init);
      StepBuild(s, Decoded(init), last);
    }
  }

  /** One more line: stepping after building is building one more decoded task. */
  lemma StepBuild(s: LoadState, D: seq<Task>, line: string)
    requires Inv(s) && Flat(D)
    ensures Flat(D + DecodedLine(line)) && Inv(Build(s, D))
    ensures Step(Build(s, D), line) == Build(s, D + DecodedLine(line))
  {
    BuildInv(s, D);
    var s' := Build(s, D);
    var x := DecodedLine(line);
    BuildConcat(s, D, x);
    if x != [] {
      var t := x[0];
      PlaceIsPush(s', t);
      assert x[..0] == [];
      assert Build(s', x) == Push(s', t);
    } else {
      assert D + [] == D;
    }
  }

  // ------------------------------------------------------- lines in order

  /** Nothing follows the subtree of a node on the right edge. */
  lemma {:induction false} EdgeAfter(ts: seq<Task>, c: seq<nat>, k: nat)
    requires Edge(ts, c) && 1 <= k <= |c|
    ensures ValidPath(ts, c[..k]) && After(ts, c[..k]) == []
  {
    EdgePrefix(ts, c, k);
    var i := |ts| - 1;
    assert c[..k][0] == |ts|;
    assert ts[i + 1..] == [];
    if k > 1 {
      EdgeAfter(ts[i].subtasks, c[1..], k - 1);
      assert c[..k][1..] == c[1..][..k - 1];
    }
  }

  lemma AppendNothing<T>(A: seq<T>, N: seq<T>, U: seq<T>, X: seq<T>)
    requires X == A + N + U + []
    ensures X == A + N + [] + U
  {
  }

  /** Each pushed task lands at the end of the pre-order listing. */
  lemma PushEntries(s: LoadState, t: Task)
    requires Inv(s) && t.subtasks == []
    ensures Entries(Push(s, t).forest) == Entries(s.forest) + [t]
  {
    var k := Min(t.depth, |s.count|);
    var q := s.count[..k];
    var f := s.forest;
    EdgePrefix(f, s.count, k);
    assert Entries([t]) == [t] by {
      EntriesSingle(t);
      assert Entry(t) == t;
    }
    AppendEntries(f, q, [t]);
    if q != [] {
      EdgeAfter(f, s.count, k);
      SubtreeBlock(f, q);
      AppendNothing(Before(f, q), Entries([NodeAt(f, q)]), [t], Entries(AppendAt(f, q, [t])));
    }
  }

  /** The built forest, listed in pre-order, is the pushed tasks in order. */
  lemma {:induction false} BuildEntries(s: LoadState, ts: seq<Task>)
    requires Inv(s) && Flat(ts)
    ensures Entries(Build(s, ts).forest) == Entries(s.forest) + ts
  {
    if ts != [] {
      var n := |ts|;
      var init := ts[..n - 1];
      var s' := Build(s, init);
      BuildInv(s, init);
      BuildEntries(s, init);
      PushEntries(s', ts[n - 1]);
      SplitLast(ts);
      Snoc(Entries(Build(s, ts).forest), Entries(s'.forest), Entries(s.forest), init, [ts[n - 1]]);
    }
  }

  /** The loaded tasks, listed in pre-order, are the non-blank lines decoded, in order. */
  lemma LoadEntries(lines: seq<string>)
    ensures Entries(LoadLines(lines)) == Decoded(lines)
  {
    RunIsBuild(Start, lines);
    BuildEntries(Start, Decoded(lines));
  }

  // ------------------------------------------------------------ round trip

  /**
   * A tree that survives saving and loading: every line is canonical and every task's
   * depth is its nesting level, one space per level as `addsub` writes it.
   */
  predicate CanonicalTree(t: Task, level: nat) {
    LineCanonical(t) && t.depth == level &&
    forall i :: 0 <= i < |t.subtasks| ==> CanonicalTree(t.subtasks[i], level + 1)
  }

  predicate CanonicalForest(ts: seq<Task>, level: nat) {
    forall i :: 0 <= i < |ts| ==> CanonicalTree(ts[i], level)
  }

  /** Every entry of a forest is a node's fields without its subtasks. */
  lemma {:induction false} EntriesFlat(ts: seq<Task>)
    ensures Flat(Entries(ts))
  {
    if ts != [] {
      EntriesFlat(ts[0].subtasks);
      EntriesFlat(ts[1..]);
    }
  }

  /** Every line of a canonical forest is canonical. */
  lemma {:induction false} EntriesCanonical(ts: seq<Task>, level: nat)
    requires CanonicalForest(ts, level)
    ensures forall k :: 0 <= k < |Entries(ts)| ==> LineCanonical(Entries(ts)[k])
  {
    if ts != [] {
      assert CanonicalTree(ts[0], level);
      EntriesCanonical(ts[0].subtasks, level + 1);
      assert CanonicalForest(ts[1..], level) by {
        forall i | 0 <= i < |ts[1..]| ensures CanonicalTree(ts[1..][i], level) {
          assert ts[1..][i] == ts[i + 1];
        }
      }
      EntriesCanonical(ts[1..], level);
    }
  }

  /** Decoding lines that each read back as the matching task gives those tasks. */
  lemma {:induction false} DecodedEach(lines: seq<string>, ts: seq<Task>)
    requires |lines| == |ts|
    requires forall k :: 0 <= k < |lines| ==> !Blank(lines[k]) && Decode(RStrip(lines[k])) == ts[k]
    ensures Decoded(lines) == ts
  {
    if lines != [] {
      var n := |lines|;
      DecodedEach(lines[..n - 1], ts[..n - 1]);
      SplitLast(ts);
    }
  }

  /** The saved lines of a canonical forest decode to its entries, without their addresses. */
  lemma DecodedLines(ts: seq<Task>)
    requires CanonicalForest(ts, 0)
    ensures Decoded(Lines(ts)) == ClearAddresses(Entries(ts))
  {
    LinesAreEntries(ts);
    EntriesFlat(ts);
    EntriesCanonical(ts, 0);
    var es := Entries(ts);
    var cs := ClearAddresses(es);
    forall k | 0 <= k < |Lines(ts)|
      ensures !Blank(Lines(ts)[k]) && Decode(RStrip(Lines(ts)[k])) == cs[k]
    {
      DecodeLineOf(es[k]);
      assert Entry(es[k]) == es[k];
    }
    DecodedEach(Lines(ts), cs);
  }

  lemma SplitLast<T>(ts: seq<T>)
    requires ts != []
    ensures ts == ts[..|ts| - 1] + [ts[|ts| - 1]]
  {
  }

  lemma BuildOne(s: LoadState, t: Task)
    requires Inv(s) && t.subtasks == []
    ensures Flat([t]) && Build(s, [t]) == Push(s, t)
  {
    assert [t][..0] == [];
  }

  /** Building a tree's entries pushes its own task, then builds its subtrees. */
  lemma BuildTree(s: LoadState, c: Task)
    requires Inv(s)
    ensures Flat(Entries([c])) && Flat(Entries(c.subtasks))
    ensures Build(s, Entries([c])) == Build(Push(s, Entry(c)), Entries(c.subtasks))
  {
    EntriesSingle(c);
    EntriesFlat([c]);
    EntriesFlat(c.subtasks);
    BuildOne(s, Entry(c));
    BuildConcat(s, [Entry(c)], Entries(c.subtasks));
  }

  /** Building a forest's entries builds its first tree, then the others. */
  lemma BuildForest(s: LoadState, cs: seq<Task>)
    requires Inv(s) && cs != []
    ensures Flat(Entries(cs)) && Flat(Entries([cs[0]])) && Flat(Entries(cs[1..]))
    ensures Build(s, Entries(cs)) == Build(Build(s, Entries([cs[0]])), Entries(cs[1..]))
  {
    assert [cs[0]] + cs[1..] == cs;
    EntriesConcat([cs[0]], cs[1..]);
    EntriesFlat(cs);
    EntriesFlat([cs[0]]);
    EntriesFlat(cs[1..]);
    BuildConcat(s, Entries([cs[0]]), Entries(cs[1..]));
  }

  /** The first line of a tree: its own task, added below the stack prefix. */
  lemma TreeHead(s: LoadState, c: Task, level: nat) returns (s1: LoadState)
    requires Inv(s) && |s.count| >= level && c.depth == level
    ensures ValidPath(s.forest, s.count[..level])
    ensures s1 == Push(s, Entry(c)) && Inv(s1)
    ensures s1.forest == AddAt(s.forest, s.count[..level], Entry(c))
    ensures s1.count == s.count[..level] + [|ChildrenAt(s.forest, s.count[..level])| + 1]
  {
    EdgePrefix(s.forest, s.count, level);
    assert Min(c.depth, |s.count|) == level;
    PushInv(s, Entry(c));
    s1 := Push(s, Entry(c));
  }

  /** Building the entries of one canonical tree adds that tree below the stack prefix. */
  lemma {:induction false} TreeLoad(s: LoadState, c: Task, level: nat) returns (r: LoadState)
    requires Inv(s) && |s.count| >= level && CanonicalTree(c, level)
    ensures ValidPath(s.forest, s.count[..level]) && Flat(Entries([c]))
    ensures Inv(r) && r == Build(s, Entries([c]))
    ensures r.forest == AddAt(s.forest, s.count[..level], c)
    ensures |r.count| >= level && r.count[..level] == s.count[..level]
    decreases c, 1
  {
    var q := s.count[..level];
    var s1 := TreeHead(s, c, level);
    assert s1.count[..level + 1] == s1.count by {
      ButLast(q, |ChildrenAt(s.forest, q)| + 1, s1.count);
    }
    assert CanonicalForest(c.subtasks, level + 1);
    r := ForestLoad(s1, c.subtasks, level + 1);
    BuildTree(s, c);
    TreeTail(s, c, level, s1, r);
  }

  /** The subtrees, loaded after the tree's own line, end up below it. */
  lemma TreeTail(s: LoadState, c: Task, level: nat, s1: LoadState, r: LoadState)
    requires |s.count| >= level && ValidPath(s.forest, s.count[..level])
    requires s1.forest == AddAt(s.forest, s.count[..level], Entry(c))
    requires s1.count == s.count[..level] + [|ChildrenAt(s.forest, s.count[..level])| + 1]
    requires s1.count[..level + 1] == s1.count && ValidPath(s1.forest, s1.count)
    requires c.subtasks == [] ==> r == s1
    requires c.subtasks != [] ==> r.forest == AppendAt(s1.forest, s1.count, c.subtasks)
    requires |r.count| >= level + 1 && r.count[..level + 1] == s1.count
    ensures r.forest == AddAt(s.forest, s.count[..level], c)
    ensures r.count[..level] == s.count[..level]
  {
    var q := s.count[..level];
    var e := Entry(c);
    ButLast(q, |ChildrenAt(s.forest, q)| + 1, s1.count);
    if c.subtasks == [] {
      assert e == c;
    } else {
      AddThenBelow(s.forest, q, e, c.subtasks);
      assert e.(subtasks := e.subtasks + c.subtasks) == c;
    }
    Prefix(r.count, s1.count, level);
  }

  /** A prefix of a prefix. */
  lemma Prefix<T>(r: seq<T>, p: seq<T>, n: nat)
    requires n < |p| <= |r| && r[..|p|] == p
    ensures r[..n] == p[..n]
  {
    assert r[..n] == r[..|p|][..n];
  }

  /** Building the entries of canonical trees appends them, in order, below the prefix. */
  lemma {:induction false} ForestLoad(s: LoadState, cs: seq<Task>, level: nat) returns (r: LoadState)
    requires Inv(s) && |s.count| >= level && CanonicalForest(cs, level)
    ensures ValidPath(s.forest, s.count[..level]) && Flat(Entries(cs))
    ensures Inv(r) && r == Build(s, Entries(cs))
    ensures cs == [] ==> r == s
    ensures cs != [] ==> r.forest == AppendAt(s.forest, s.count[..level], cs)
    ensures |r.count| >= level && r.count[..level] == s.count[..level]
    decreases cs, 0
  {
    EdgePrefix(s.forest, s.count, level);
    EntriesFlat(cs);
    if cs == [] {
      r := s;
    } else {
      var q := s.count[..level];
      var head, tail := cs[0], cs[1..];
      var s1 := TreeLoad(s, head, level);
      BuildForest(s, cs);
      CanonicalTail(cs, level);
      r := ForestLoad(s1, tail, level);
      Uncons(cs);
      if tail != [] {
        AppendAppend(s.forest, q, [head], tail);
      }
    }
  }

  lemma CanonicalTail(cs: seq<Task>, level: nat)
    requires cs != [] && CanonicalForest(cs, level)
    ensures CanonicalForest(cs[1..], level)
  {
    forall i | 0 <= i < |cs| - 1 ensures CanonicalTree(cs[1..][i], level) {
      assert cs[1..][i] == cs[i + 1];
    }
  }

  lemma Uncons<T>(s: seq<T>)
    requires s != []
    ensures s == [s[0]] + s[1..]
    ensures s[1..] == [] ==> s == [s[0]]
  {
  }

  /** Taking the addresses off keeps a forest canonical. */
  lemma {:induction false} CanonicalUnnumbered(ts: seq<Task>, level: nat)
    requires CanonicalForest(ts, level)
    ensures CanonicalForest(UnnumberedAll(ts), level)
    decreases ts
  {
    forall i | 0 <= i < |ts| ensures CanonicalTree(UnnumberedAll(ts)[i], level) {
      var t := ts[i];
      assert CanonicalForest(t.subtasks, level + 1);
      CanonicalUnnumbered(t.subtasks, level + 1);
    }
  }

  /** Iterating over the saved text of a canonical forest yields its lines. */
  lemma SplitSaved(ts: seq<Task>)
    requires CanonicalForest(ts, 0)
    ensures SplitLines(EncodeAll(ts)) == Lines(ts)
  {
    EncodeAllIsLines(ts);
    LinesAreEntries(ts);
    EntriesCanonical(ts, 0);
    var es := Entries(ts);
    forall k | 0 <= k < |Lines(ts)| ensures Terminated(Lines(ts)[k]) {
      LineOfTerminated(es[k]);
    }
    SplitConcat(Lines(ts));
  }

  /**
   * Saving a canonical forest and loading the saved file gives the same forest back,
   * without the addresses `setTasknum` gave it: loading leaves every address unset.
   */
  lemma LoadSaved(ts: seq<Task>)
    requires CanonicalForest(ts, 0)
    ensures LoadLines(SplitLines(EncodeAll(ts))) == UnnumberedAll(ts)
  {
    var u := UnnumberedAll(ts);
    SplitSaved(ts);
    RunIsBuild(Start, Lines(ts));
    DecodedLines(ts);
    UnnumberedEntries(ts);
    CanonicalUnnumbered(ts, 0);
    var r := ForestLoad(Start, u, 0);
    assert Start.count[..0] == [];
    if u != [] {
      assert AppendAt([], [], u) == u;
    }
  }

  /**
   * A file whose every line is non-blank and already written as the program writes it,
   * newline included, is saved again unchanged, whatever its indentation.
   */
  lemma ResaveNormalized(s: string)
    requires forall k :: 0 <= k < |SplitLines(s)| ==>
      !Blank(SplitLines(s)[k]) && LineOf(Decode(RStrip(SplitLines(s)[k]))) + "\n" == SplitLines(s)[k]
    ensures EncodeAll(LoadLines(SplitLines(s))) == s
  {
    var ls := SplitLines(s);
    var es := seq(|ls|, k requires 0 <= k < |ls| => Decode(RStrip(ls[k])));
    DecodedEach(ls, es);
    LoadEntries(ls);
    var ts := LoadLines(ls);
    EncodeAllIsLines(ts);
    LinesAreEntries(ts);
    assert Lines(ts) == ls;
    ConcatSplitLines(s);
  }
}
