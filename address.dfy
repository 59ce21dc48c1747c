/**
 * Dotted task addresses (tl.py `setTasknum`, `str2sub`, `TaskList.lookup`, `Task.add`):
 * the address of the `j`-th subtask of the task at address `n` is `n.j`, counting from 1.
 * Looking an address up indexes Python lists with `i - 1`, so the negative-index rule
 * applies: a segment `0` picks the last child, a segment `-1` the one before it.
 */
module Addressing {
  import opened Wrappers
  import opened Text
  import opened Tasks

  /**
   * Python's `xs[i]` on a list of length `n`: a negative `i` counts from the end; an
   * index outside `-n..n-1` raises `IndexError`, here `None`.
   */
  function PyIndex(n: nat, i: int): (r: Option<nat>)
    ensures r.Some? <==> -(n as int) <= i < n
    ensures r.Some? ==> r.value < n && r.value as int == (if i < 0 then n + i else i)
  {
    if 0 <= i < n then Some(i) else if -(n as int) <= i < 0 then Some(n + i) else None
  }

  /** The dotted address of path `p`, as `setTasknum` writes it and `load` joins it. */
  function Address(p: seq<nat>): string {
    if p == [] then ""
    else if |p| == 1 then NatToStr(p[0])
    else Address(p[..|p| - 1]) + "." + NatToStr(p[|p| - 1])
  }

  /** Read from the front, an address is its first number, a dot, and the rest's address. */
  lemma {:induction false} AddressCons(p: seq<nat>)
    requires |p| >= 2
    ensures Address(p) == NatToStr(p[0]) + "." + Address(p[1..])
    decreases |p|
  {
    var n := |p|;
    if n > 2 {
      AddressCons(p[..n - 1]);
      assert p[..n - 1][1..] == p[1..][..n - 2];
      assert p[..n - 1][0] == p[0];
    } else {
      assert p[..1] == [p[0]] && p[1..] == [p[1]];
    }
  }

  /**
   * A conversion applied to every element, as a list comprehension whose conversion may
   * raise: one failing element makes the whole conversion fail.
   */
  function MapAll<A, B>(xs: seq<A>, f: A -> Option<B>): (r: Option<seq<B>>)
    ensures r.Some? ==> |r.value| == |xs|
  {
    if xs == [] then Some([])
    else
      match MapAll(xs[..|xs| - 1], f)
      case None => None
      case Some(vs) =>
        match f(xs[|xs| - 1])
        case None => None
        case Some(v) => Some(vs + [v])
  }

  /** The conversion succeeds with `vs` when every element converts to its entry of `vs`. */
  lemma {:induction false} MapAllOf<A, B>(xs: seq<A>, f: A -> Option<B>, vs: seq<B>)
    requires |vs| == |xs|
    requires forall k :: 0 <= k < |xs| ==> f(xs[k]) == Some(vs[k])
    ensures MapAll(xs, f) == Some(vs)
  {
    if xs != [] {
      var n := |xs|;
      MapAllOf(xs[..n - 1], f, vs[..n - 1]);
      assert f(xs[n - 1]) == Some(vs[n - 1]);
      assert vs[..n - 1] + [vs[n - 1]] == vs;
    }
  }

  /** One failing element makes the whole conversion fail. */
  lemma {:induction false} MapAllFails<A, B>(xs: seq<A>, f: A -> Option<B>, k: int)
    requires 0 <= k < |xs| && f(xs[k]).None?
    ensures MapAll(xs, f).None?
  {
    var n := |xs|;
    if k < n - 1 {
      MapAllFails(xs[..n - 1], f, k);
    }
  }

  /** `str2sub`: the dotted string as a list of integers. */
  function Str2Sub(s: string): Option<seq<int>> {
    MapAll(SplitDots(s), ParseInt)
  }

  /** Splitting an address yields its numbers back. */
  lemma {:induction false} SplitAddress(p: seq<nat>)
    requires p != []
    ensures |SplitDots(Address(p))| == |p|
    ensures forall k :: 0 <= k < |p| ==> SplitDots(Address(p))[k] == NatToStr(p[k])
    decreases |p|
  {
    var n := |p|;
    if n == 1 {
      DigitsDotFree(NatToStr(p[0]));
      FirstSegDotFree(NatToStr(p[0]), "");
      assert SplitDots(Address(p)) == [NatToStr(p[0])];
    } else {
      var init, last := Address(p[..n - 1]), NatToStr(p[n - 1]);
      SplitAddress(p[..n - 1]);
      DigitsDotFree(last);
      assert Address(p) == init + "." + last;
      SplitDotsSnoc(init, last);
      var A := SplitDots(init);
      forall k | 0 <= k < n ensures SplitDots(Address(p))[k] == NatToStr(p[k]) {
        if k < n - 1 {
          assert SplitDots(Address(p))[k] == A[k] == NatToStr(p[..n - 1][k]);
        }
      }
    }
  }

  /** `str2sub` inverts the address of every non-empty path. */
  lemma Str2SubAddress(p: seq<nat>)
    requires p != []
    ensures Str2Sub(Address(p)) == Some(p)
  {
    SplitAddress(p);
    var segs := SplitDots(Address(p));
    forall k | 0 <= k < |segs| ensures ParseInt(segs[k]) == Some(p[k] as int) {
      ParseIntOfNat(p[k]);
    }
    MapAllOf(segs, ParseInt, p);
  }

  /** Different paths get different addresses. */
  lemma AddressInjective(p: seq<nat>, q: seq<nat>)
    requires p != [] && q != [] && Address(p) == Address(q)
    ensures p == q
  {
    Str2SubAddress(p);
    Str2SubAddress(q);
  }

  /**
   * The walk of `lookup`: each number `i` picks child `i - 1` of the current list with
   * Python's indexing; the result is the 1-based path actually taken.
   */
  function Walk(ts: seq<Task>, ids: seq<int>): (r: Option<seq<nat>>)
    ensures r.Some? ==> |r.value| == |ids| && ValidPath(ts, r.value)
  {
    if ids == [] then Some([])
    else
      match PyIndex(|ts|, ids[0] - 1)
      case None => None
      case Some(j) =>
        match Walk(ts[j].subtasks, ids[1..])
        case None => None
        case Some(rest) => Some([j + 1] + rest)
  }

  /** The path `lookup(s)` reaches, or `None` where the program raises. */
  function Resolve(ts: seq<Task>, s: string): (r: Option<seq<nat>>)
    ensures r.Some? ==> r.value != [] && ValidPath(ts, r.value)
  {
    match Str2Sub(s)
    case None => None
    case Some(ids) => Walk(ts, ids)
  }

  /** `TaskList.lookup(s)`: the task at address `s`. */
  function Lookup(ts: seq<Task>, s: string): Option<Task> {
    match Resolve(ts, s)
    case None => None
    case Some(p) => Some(NodeAt(ts, p))
  }

  /** On an in-range path the walk takes exactly that path. */
  lemma {:induction false} WalkValid(ts: seq<Task>, p: seq<nat>)
    requires ValidPath(ts, p)
    ensures Walk(ts, p) == Some(p)
  {
    if p != [] {
      WalkValid(ts[p[0] - 1].subtasks, p[1..]);
      assert [p[0]] + p[1..] == p;
    }
  }

  /** Looking up the address of a node finds that node. */
  lemma LookupAddress(ts: seq<Task>, p: seq<nat>)
    requires ValidPath(ts, p) && p != []
    ensures Resolve(ts, Address(p)) == Some(p)
    ensures Lookup(ts, Address(p)) == Some(NodeAt(ts, p))
  {
    Str2SubAddress(p);
    WalkValid(ts, p);
  }

  /**
   * Python's negative indexing in `lookup`: a segment `i` in `-n+1..0` picks child
   * `n + i` of a list of `n` (so `0` is the last one); beyond either end the walk fails.
   */
  lemma NonPositiveSegment(ts: seq<Task>, i: int)
    requires -|ts| < i <= 0
    ensures Walk(ts, [i]) == Some([|ts| + i])
  {
    var j: nat := |ts| + i - 1;
    assert PyIndex(|ts|, i - 1) == Some(j);
    assert [i][1..] == [];
    assert Walk(ts[j].subtasks, []) == Some([]);
    var x: seq<nat> := [j + 1];
    assert x + [] == x;
    assert Walk(ts, [i]) == Some(x + []);
  }

  lemma SegmentOutOfRange(ts: seq<Task>, i: int)
    requires i > |ts| || i <= -|ts|
    ensures Walk(ts, [i]) == None
  {
  }

  /**
   * `Task.add(task, subsection)`: with an empty address the task becomes the last one
   * of the list; otherwise the first number picks a child (Python indexing) and the
   * rest of the address is followed below it.
   */
  function AddBy(ts: seq<Task>, sub: string, u: Task): (r: Option<seq<Task>>)
    ensures r.Some? ==> |r.value| == |ts| + (if sub == [] then 1 else 0)
    decreases |sub|
  {
    if |sub| < 1 then Some(ts + [u])
    else
      match ParseInt(FirstSeg(sub))
      case None => None
      case Some(i) =>
        match PyIndex(|ts|, i - 1)
        case None => None
        case Some(j) =>
          match AddBy(ts[j].subtasks, AfterFirstSeg(sub), u)
          case None => None
          case Some(cs) => Some(ts[j := ts[j].(subtasks := cs)])
  }

  /** An address splits at its first dot into the first number and the rest's address. */
  lemma AddressSplit(p: seq<nat>)
    requires p != []
    ensures FirstSeg(Address(p)) == NatToStr(p[0])
    ensures AfterFirstSeg(Address(p)) == Address(p[1..])
  {
    var head := NatToStr(p[0]);
    DigitsDotFree(head);
    if |p| == 1 {
      FirstSegDotFree(head, "");
    } else {
      AddressCons(p);
      FirstSegDotFree(head, Address(p[1..]));
      assert Address(p)[|head| + 1..] == Address(p[1..]);
    }
  }

  /** One step of `Task.add` down an address whose first number is a valid child. */
  lemma AddByStep(ts: seq<Task>, sub: string, u: Task, n: nat, rest: string, cs: seq<Task>)
    requires 1 <= n <= |ts| && sub != []
    requires FirstSeg(sub) == NatToStr(n) && AfterFirstSeg(sub) == rest
    requires AddBy(ts[n - 1].subtasks, rest, u) == Some(cs)
    ensures AddBy(ts, sub, u) == Some(ts[n - 1 := ts[n - 1].(subtasks := cs)])
  {
    ParseIntOfNat(n);
  }

  /** Adding through the address of a path adds at that path. */
  lemma {:induction false} AddByAddress(ts: seq<Task>, p: seq<nat>, u: Task)
    requires ValidPath(ts, p)
    ensures AddBy(ts, Address(p), u) == Some(AddAt(ts, p, u))
  {
    if p != [] {
      var cs := ts[p[0] - 1].subtasks;
      AddressSplit(p);
      AddByAddress(cs, p[1..], u);
      AddByStep(ts, Address(p), u, p[0], Address(p[1..]), AddAt(cs, p[1..], u));
      AddAtStep(ts, p, u);
    }
  }

  // ------------------------------------------------------------- numbering

  /** `Task.setTasknum(n)`: the task gets `n`, its `j`-th subtask `n.j`, recursively. */
  function NumberTree(t: Task, n: string): (r: Task)
    ensures r.tasknum == Some(n) && |r.subtasks| == |t.subtasks|
    ensures r.(tasknum := t.tasknum, subtasks := t.subtasks) == t
  {
    t.(tasknum := Some(n),
       subtasks := seq(|t.subtasks|, i requires 0 <= i < |t.subtasks| =>
         NumberTree(t.subtasks[i], n + "." + NatToStr(i + 1))))
  }

  /** `TaskList.setTasknum()`: the `i`-th task gets `str(i)`. */
  function NumberForest(ts: seq<Task>): (r: seq<Task>)
    ensures |r| == |ts|
  {
    seq(|ts|, i requires 0 <= i < |ts| => NumberTree(ts[i], NatToStr(i + 1)))
  }

  /**
   * Below a task numbered with the address of `p0`, the node reached by `q` keeps its
   * place and fields and is numbered with the address of `p0 + q`.
   */
  lemma {:induction false} NumberedBelow(t: Task, p0: seq<nat>, q: seq<nat>)
    requires p0 != []
    ensures ValidPath(NumberTree(t, Address(p0)).subtasks, q) <==> ValidPath(t.subtasks, q)
    ensures ValidPath(t.subtasks, q) ==>
      |ChildrenAt(NumberTree(t, Address(p0)).subtasks, q)| == |ChildrenAt(t.subtasks, q)|
    ensures ValidPath(t.subtasks, q) && q != [] ==>
      var m := NodeAt(NumberTree(t, Address(p0)).subtasks, q);
      var o := NodeAt(t.subtasks, q);
      m.tasknum == Some(Address(p0 + q)) && m.(tasknum := o.tasknum, subtasks := o.subtasks) == o
  {
    var r := NumberTree(t, Address(p0));
    if q != [] && 1 <= q[0] <= |t.subtasks| {
      var j := q[0];
      var c := t.subtasks[j - 1];
      assert (p0 + [j])[..|p0|] == p0;
      assert Address(p0 + [j]) == Address(p0) + "." + NatToStr(j);
      assert r.subtasks[j - 1] == NumberTree(c, Address(p0 + [j]));
      NumberedBelow(c, p0 + [j], q[1..]);
      assert p0 + [j] + q[1..] == p0 + q;
      if |q| == 1 {
        assert p0 + [j] == p0 + q;
      }
    }
  }

  /**
   * After `setTasknum`, exactly the old paths are valid, every node keeps its fields
   * and child count, and the node at `p` carries the address of `p`.
   */
  lemma NumberedAt(ts: seq<Task>, p: seq<nat>)
    ensures ValidPath(NumberForest(ts), p) <==> ValidPath(ts, p)
    ensures ValidPath(ts, p) ==> |ChildrenAt(NumberForest(ts), p)| == |ChildrenAt(ts, p)|
    ensures ValidPath(ts, p) && p != [] ==>
      var m := NodeAt(NumberForest(ts), p);
      var o := NodeAt(ts, p);
      m.tasknum == Some(Address(p)) && m.(tasknum := o.tasknum, subtasks := o.subtasks) == o
  {
    if p != [] && 1 <= p[0] <= |ts| {
      var i := p[0];
      assert Address([i]) == NatToStr(i);
      assert NumberForest(ts)[i - 1] == NumberTree(ts[i - 1], Address([i]));
      NumberedBelow(ts[i - 1], [i], p[1..]);
      assert [i] + p[1..] == p;
    }
  }

  /** The addresses `setTasknum` hands out are pairwise distinct. */
  lemma NumbersDistinct(ts: seq<Task>, p: seq<nat>, q: seq<nat>)
    requires ValidPath(ts, p) && ValidPath(ts, q) && p != [] && q != [] && p != q
    ensures ValidPath(NumberForest(ts), p) && ValidPath(NumberForest(ts), q)
    ensures NodeAt(NumberForest(ts), p).tasknum != NodeAt(NumberForest(ts), q).tasknum
  {
    NumberedAt(ts, p);
    NumberedAt(ts, q);
    if Address(p) == Address(q) {
      AddressInjective(p, q);
    }
  }

  /** Looking up the number a task was given finds that task. */
  lemma LookupNumbered(ts: seq<Task>, p: seq<nat>)
    requires ValidPath(ts, p) && p != []
    ensures ValidPath(NumberForest(ts), p)
    ensures NodeAt(NumberForest(ts), p).tasknum.Some?
    ensures Lookup(NumberForest(ts), NodeAt(NumberForest(ts), p).tasknum.value)
         == Some(NodeAt(NumberForest(ts), p))
  {
    NumberedAt(ts, p);
    LookupAddress(NumberForest(ts), p);
  }
}
