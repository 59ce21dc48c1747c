/**
 * The line format of the todo file (tl.py `Task.__init__`, `_depth`, `__str__`):
 * an optional `x YYYY-MM-DD ` completion prefix, an optional `(L) ` priority prefix,
 * one space per nesting level, then the task text.
 */
module Codec {
  import opened Wrappers
  import opened Text
  import opened Tasks

  /** Ten characters of the form `DDDD-DD-DD`, what `\d\d\d\d-\d\d-\d\d` accepts. */
  predicate IsDate(d: string) {
    |d| == 10 &&
    IsDigit(d[0]) && IsDigit(d[1]) && IsDigit(d[2]) && IsDigit(d[3]) && d[4] == '-' &&
    IsDigit(d[5]) && IsDigit(d[6]) && d[7] == '-' && IsDigit(d[8]) && IsDigit(d[9])
  }

  /** The completion pattern `x (\d\d\d\d-\d\d-\d\d) ` matches at the start of `s`. */
  predicate DoneAt(s: string) {
    |s| >= 13 && s[0] == 'x' && s[1] == ' ' && IsDate(s[2..12]) && s[12] == ' '
  }

  /** The priority pattern `\(([A-Za-z])\) ` matches at the start of `s`. */
  predicate PrioAt(s: string) {
    |s| >= 4 && s[0] == '(' && IsLetter(s[1]) && s[2] == ')' && s[3] == ' '
  }

  /** The number of space characters `s` starts with. */
  function LeadingSpaces(s: string): (n: nat)
    ensures n <= |s|
    ensures forall i :: 0 <= i < n ==> s[i] == ' '
    ensures n < |s| ==> s[n] != ' '
  {
    if s != [] && s[0] == ' ' then 1 + LeadingSpaces(s[1..]) else 0
  }

  /**
   * `Task._depth`: the position of the first non-space character, or 0 when the line
   * holds nothing but spaces.
   */
  function Depth(s: string): (d: nat)
    ensures d <= |s|
  {
    var n := LeadingSpaces(s);
    if n == |s| then 0 else n
  }

  /** The depth is the index of the first non-space, or 0 for a line of spaces only. */
  lemma DepthMeaning(s: string)
    ensures var d := Depth(s);
      (forall i :: 0 <= i < d ==> s[i] == ' ') &&
      ((d < |s| && s[d] != ' ') || (d == 0 && forall i :: 0 <= i < |s| ==> s[i] == ' '))
  {
  }

  /** `_depth` as the program runs it: a scan that stops at the first non-space. */
  method CountDepth(s: string) returns (d: nat)
    ensures d == Depth(s)
  {
    var i := 0;
    while i < |s|
      invariant i <= |s|
      invariant forall j :: 0 <= j < i ==> s[j] == ' '
    {
      if s[i] != ' ' {
        return i;
      }
      i := i + 1;
    }
    return 0;
  }

  /** How many characters the recognised prefixes of a decoded line took up. */
  function PrefixLength(t: Task): nat {
    (if t.done.Some? then 13 else 0) + (if t.priority.Some? then 4 else 0)
  }

  /**
   * `Task(line)`: the completion prefix is recognised first and takes exactly 13
   * characters, then the priority prefix takes exactly 4 and its letter is upper-cased;
   * a prefix that does not match is left where it is. What remains gives the depth
   * (its leading spaces) and the text (itself, stripped).
   */
  function Decode(line: string): (t: Task)
    ensures t.subtasks == [] && t.tasknum == None
  {
    var done := if DoneAt(line) then Some(line[2..12]) else None;
    var s := if DoneAt(line) then line[13..] else line;
    var priority := if PrioAt(s) then Some(Upper(s[1])) else None;
    var rest := if PrioAt(s) then s[4..] else s;
    Task(done, priority, Depth(rest), Strip(rest), [], None)
  }

  /**
   * Decoding is positional: the completion prefix takes exactly 13 characters and gives
   * the date, the priority prefix after it exactly 4 and gives the upper-cased letter;
   * the rest of the line gives the depth and, stripped, the text.
   */
  lemma DecodeFields(line: string)
    ensures var t := Decode(line);
      (t.done.Some? <==> DoneAt(line)) &&
      (t.done.Some? ==> t.done.value == line[2..12]) &&
      (var s := line[if t.done.Some? then 13 else 0..];
       (t.priority.Some? <==> PrioAt(s)) && (t.priority.Some? ==> t.priority.value == Upper(s[1]))) &&
      PrefixLength(t) <= |line| &&
      t.depth == Depth(line[PrefixLength(t)..]) &&
      t.text == Strip(line[PrefixLength(t)..])
  {
    var t := Decode(line);
    var s := if DoneAt(line) then line[13..] else line;
    assert t.done.Some? <==> DoneAt(line);
    assert t.priority.Some? <==> PrioAt(s);
    var rest := if PrioAt(s) then s[4..] else s;
    assert line[PrefixLength(t)..] == rest by {
      if DoneAt(line) && PrioAt(s) {
        assert line[17..] == line[13..][4..];
      } else if !DoneAt(line) && !PrioAt(s) {
        assert line[0..] == line;
      }
    }
  }

  /** `Task.__init__` as it runs: the line is cut down step by step, then scanned. */
  method NewTask(line: string) returns (t: Task)
    ensures t == Decode(line)
  {
    var taskline := line;
    var done: Option<string> := None;
    if DoneAt(taskline) {
      done := Some(taskline[2..12]);
      taskline := taskline[3 + 10..];
    }
    var priority: Option<char> := None;
    if PrioAt(taskline) {
      priority := Some(Upper(taskline[1]));
      taskline := taskline[4..];
    }
    var depth := CountDepth(taskline);
    t := Task(done, priority, depth, Strip(taskline), [], None);
  }

  // -------------------------------------------------------------- encoding

  /**
   * The line `__str__` writes for one task, without its newline. The priority prefix
   * is assigned over the completion prefix instead of after it, so a task with both
   * loses its date on output (see `BothPrefixesKeepOnlyPriority`).
   */
  function LineOf(t: Task): string {
    var s0 := if t.done.Some? then "x " + t.done.value + " " else "";
    var s1 := if t.priority.Some? then "(" + [Upper(t.priority.value)] + ") " else s0;
    s1 + Spaces(t.depth) + t.text
  }

  /** `Task.__str__`: the task's line and newline, then each subtask in order. */
  function Encode(t: Task): string {
    LineOf(t) + "\n" + EncodeAll(t.subtasks)
  }

  /** `TaskList.__str__`: the tasks written one after another. */
  function EncodeAll(ts: seq<Task>): string {
    if ts == [] then "" else Encode(ts[0]) + EncodeAll(ts[1..])
  }

  /** The lines of one task's output, each with its newline: the task's, then its subtasks'. */
  function TreeLines(t: Task): seq<string> {
    [LineOf(t) + "\n"] + Lines(t.subtasks)
  }

  /** The lines of a forest's output, as iterating over the saved file yields them. */
  function Lines(ts: seq<Task>): seq<string> {
    if ts == [] then [] else TreeLines(ts[0]) + Lines(ts[1..])
  }

  function Concat(ls: seq<string>): string {
    if ls == [] then "" else ls[0] + Concat(ls[1..])
  }

  lemma {:induction false} ConcatAppend(a: seq<string>, b: seq<string>)
    ensures Concat(a + b) == Concat(a) + Concat(b)
  {
    if a != [] {
      assert (a + b)[0] == a[0] && (a + b)[1..] == a[1..] + b;
      ConcatAppend(a[1..], b);
    } else {
      assert a + b == b;
    }
  }

  /** The saved text is exactly its lines, concatenated. */
  lemma {:induction false} EncodeIsLines(t: Task)
    ensures Encode(t) == Concat(TreeLines(t))
    decreases t, 1
  {
    EncodeAllIsLines(t.subtasks);
    ConcatAppend([LineOf(t) + "\n"], Lines(t.subtasks));
    assert Concat([LineOf(t) + "\n"]) == LineOf(t) + "\n" + Concat([]);
  }

  lemma {:induction false} EncodeAllIsLines(ts: seq<Task>)
    ensures EncodeAll(ts) == Concat(Lines(ts))
    decreases ts, 0
  {
    if ts != [] {
      EncodeIsLines(ts[0]);
      EncodeAllIsLines(ts[1..]);
      ConcatAppend(TreeLines(ts[0]), Lines(ts[1..]));
    }
  }

  /** Each task's own line, newline-terminated, in order. */
  function LinesOf(es: seq<Task>): (r: seq<string>)
    ensures |r| == |es| && forall k :: 0 <= k < |es| ==> r[k] == LineOf(es[k]) + "\n"
  {
    if es == [] then [] else [LineOf(es[0]) + "\n"] + LinesOf(es[1..])
  }

  lemma LinesOfConcat(a: seq<Task>, b: seq<Task>)
    ensures LinesOf(a + b) == LinesOf(a) + LinesOf(b)
  {
    assert forall k :: 0 <= k < |a + b| ==> (a + b)[k] == if k < |a| then a[k] else b[k - |a|];
  }

  /** The output has one line per node, in pre-order, each the node's own line. */
  lemma {:induction false} LinesAreEntries(ts: seq<Task>)
    ensures Lines(ts) == LinesOf(Entries(ts))
  {
    if ts != [] {
      var t := ts[0];
      LinesAreEntries(t.subtasks);
      LinesAreEntries(ts[1..]);
      var E1, E2 := Entries(t.subtasks), Entries(ts[1..]);
      assert LineOf(Entry(t)) == LineOf(t);
      assert LinesOf([Entry(t)]) == [LineOf(t) + "\n"];
      LinesOfConcat([Entry(t)], E1);
      LinesOfConcat([Entry(t)] + E1, E2);
    }
  }

  // ------------------------------------------------------------ reading the file back

  /** The length of the first line of a non-empty text: up to its first newline, or all of it. */
  function LineLength(s: string): (n: nat)
    requires s != []
    ensures 0 < n <= |s|
    ensures n == |s| || s[n - 1] == '\n'
    ensures forall k :: 0 <= k < n - 1 ==> s[k] != '\n'
  {
    if s[0] == '\n' || |s| == 1 then 1 else 1 + LineLength(s[1..])
  }

  /**
   * The lines `for line in file(...)` yields: each runs up to and including a newline,
   * and what follows the last newline, if anything, is one more line.
   */
  function SplitLines(s: string): seq<string>
    decreases |s|
  {
    if s == [] then [] else var n := LineLength(s); [s[..n]] + SplitLines(s[n..])
  }

  /** The lines of a text, joined again, are the text. */
  lemma {:induction false} ConcatSplitLines(s: string)
    ensures Concat(SplitLines(s)) == s
    decreases |s|
  {
    if s != [] {
      var n := LineLength(s);
      var rest := SplitLines(s[n..]);
      assert SplitLines(s) == [s[..n]] + rest;
      ConcatCons(s[..n], rest);
      ConcatSplitLines(s[n..]);
      assert s[..n] + s[n..] == s;
    }
  }

  lemma ConcatCons(l: string, ls: seq<string>)
    ensures Concat([l] + ls) == l + Concat(ls)
  {
    assert ([l] + ls)[1..] == ls;
  }

  /** A line as the file iteration yields it before the end: one newline, at its end. */
  predicate Terminated(l: string) {
    l != [] && l[|l| - 1] == '\n' && forall k :: 0 <= k < |l| - 1 ==> l[k] != '\n'
  }

  lemma SplitLinesCons(l: string, rest: string)
    requires Terminated(l)
    ensures SplitLines(l + rest) == [l] + SplitLines(rest)
  {
    var s := l + rest;
    assert s[|l| - 1] == '\n';
    assert forall k :: 0 <= k < |l| - 1 ==> s[k] == l[k];
    assert LineLength(s) == |l|;
    assert s[..|l|] == l && s[|l|..] == rest;
  }

  /** Joining terminated lines and iterating over the result yields those lines. */
  lemma {:induction false} SplitConcat(ls: seq<string>)
    requires forall k :: 0 <= k < |ls| ==> Terminated(ls[k])
    ensures SplitLines(Concat(ls)) == ls
  {
    if ls != [] {
      SplitConcat(ls[1..]);
      SplitLinesCons(ls[0], Concat(ls[1..]));
    }
  }

  /** The line written for a canonical task holds no newline but the one that ends it. */
  lemma LineOfTerminated(t: Task)
    requires LineCanonical(t)
    ensures Terminated(LineOf(t) + "\n")
  {
    var s0 := if t.done.Some? then "x " + t.done.value + " " else "";
    var s1 := if t.priority.Some? then "(" + [Upper(t.priority.value)] + ") " else s0;
    assert forall k :: 0 <= k < |s1| ==> s1[k] != '\n';
    var l := s1 + Spaces(t.depth) + t.text;
    assert l == LineOf(t);
    forall k | 0 <= k < |l| ensures l[k] != '\n' {
      if k >= |s1| + t.depth {
        assert l[k] == t.text[k - |s1| - t.depth];
      }
    }
  }

  // ------------------------------------------------------------ round trip

  /**
   * A task whose line decodes back to itself, but for its address: a well-formed date,
   * an upper-case letter as priority, not both, and a non-empty stripped text without a
   * newline that, on an unindented line, does not itself look like the prefix that is
   * absent.
   */
  predicate LineCanonical(t: Task) {
    !(t.done.Some? && t.priority.Some?) &&
    '\n' !in t.text &&
    (t.done.Some? ==> IsDate(t.done.value)) &&
    (t.priority.Some? ==> IsLetter(t.priority.value) && Upper(t.priority.value) == t.priority.value) &&
    t.text != [] && !IsSpace(t.text[0]) && !IsSpace(t.text[|t.text| - 1]) &&
    (t.depth == 0 && t.priority.None? ==> !PrioAt(t.text)) &&
    (t.depth == 0 && t.priority.None? && t.done.None? ==> !DoneAt(t.text))
  }

  /** A line no prefix pattern can match: it starts with a space. */
  lemma IndentedHasNoPrefix(d: nat, text: string)
    requires d > 0
    ensures !DoneAt(Spaces(d) + text) && !PrioAt(Spaces(d) + text)
  {
    assert (Spaces(d) + text)[0] == ' ';
  }

  /** Depth and text of `d` spaces followed by a stripped text. */
  lemma IndentedBody(d: nat, text: string)
    requires text != [] && !IsSpace(text[0]) && !IsSpace(text[|text| - 1])
    ensures Depth(Spaces(d) + text) == d
    ensures Strip(Spaces(d) + text) == text
  {
    var s := Spaces(d) + text;
    assert s[d] == text[0];
    StripIndented(d, text);
  }

  lemma LastOf<T>(a: seq<T>, b: seq<T>)
    requires b != []
    ensures (a + b)[|a + b| - 1] == b[|b| - 1]
  {
  }

  /** Reading a line that carries a completion prefix. */
  lemma DecodeDoneLine(date: string, body: string)
    requires IsDate(date) && !PrioAt(body)
    ensures Decode("x " + date + " " + body) == Task(Some(date), None, Depth(body), Strip(body), [], None)
  {
    var line := "x " + date + " " + body;
    assert line[2..12] == date && line[13..] == body;
    assert DoneAt(line);
  }

  /** Reading a line that carries a priority prefix. */
  lemma DecodePrioLine(c: char, body: string)
    requires IsLetter(c)
    ensures Decode("(" + [c] + ") " + body) == Task(None, Some(Upper(c)), Depth(body), Strip(body), [], None)
  {
    var line := "(" + [c] + ") " + body;
    assert line[0] == '(' && line[1] == c && line[4..] == body;
    assert PrioAt(line);
  }

  /** Reading a line without prefixes. */
  lemma DecodePlainLine(body: string)
    requires !DoneAt(body) && !PrioAt(body)
    ensures Decode(body) == Task(None, None, Depth(body), Strip(body), [], None)
  {
  }

  /**
   * One line written out and read back (after the `rstrip` the loader applies) is the
   * task's own entry again, without its address, and it is not a blank line.
   */
  lemma DecodeLineOf(t: Task)
    requires LineCanonical(t)
    ensures RStrip(LineOf(t) + "\n") == LineOf(t)
    ensures Strip(LineOf(t)) != []
    ensures Decode(LineOf(t)) == Entry(t).(tasknum := None)
  {
    var line := LineOf(t);
    DecodeCanonical(t);
    LineEnd(t);
    RStripNewline(line);
    RStripKeeps(line);
    StripEmptyIff(line);
  }

  lemma DecodeCanonical(t: Task)
    requires LineCanonical(t)
    ensures Decode(LineOf(t)) == Entry(t).(tasknum := None)
  {
    var body := Spaces(t.depth) + t.text;
    IndentedBody(t.depth, t.text);
    assert (t.priority.None? ==> !PrioAt(body)) && (t.priority.None? && t.done.None? ==> !DoneAt(body)) by {
      if t.depth > 0 {
        IndentedHasNoPrefix(t.depth, t.text);
      } else {
        assert body == t.text;
      }
    }
    if t.done.Some? {
      DoneLine(t);
      DecodeDoneLine(t.done.value, body);
    } else if t.priority.Some? {
      PrioLine(t);
      DecodePrioLine(t.priority.value, body);
    } else {
      PlainLine(t);
      DecodePlainLine(body);
    }
  }

  lemma DoneLine(t: Task)
    requires t.done.Some? && t.priority.None?
    ensures LineOf(t) == "x " + t.done.value + " " + (Spaces(t.depth) + t.text)
  {
  }

  lemma PrioLine(t: Task)
    requires t.priority.Some? && Upper(t.priority.value) == t.priority.value
    ensures LineOf(t) == "(" + [t.priority.value] + ") " + (Spaces(t.depth) + t.text)
  {
  }

  lemma PlainLine(t: Task)
    requires t.done.None? && t.priority.None?
    ensures LineOf(t) == Spaces(t.depth) + t.text
  {
    assert "" + Spaces(t.depth) == Spaces(t.depth);
  }

  /** A written line ends in the last character of the task's text. */
  lemma LineEnd(t: Task)
    requires t.text != []
    ensures LineOf(t) != [] && LineOf(t)[|LineOf(t)| - 1] == t.text[|t.text| - 1]
  {
    {
      var s0 := if t.done.Some? then "x " + t.done.value + " " else "";
      var s1 := if t.priority.Some? then "(" + [Upper(t.priority.value)] + ") " else s0;
      LastOf(s1 + Spaces(t.depth), t.text);
    }
  }

  /**
   * The quirk of `__str__`: with both a date and a priority set, the written line
   * starts with the priority prefix and reading it back yields no date.
   */
  lemma BothPrefixesKeepOnlyPriority(t: Task)
    requires t.done.Some? && t.priority.Some?
    ensures LineOf(t)[..4] == "(" + [Upper(t.priority.value)] + ") "
    ensures Decode(LineOf(t)).done == None
  {
    assert LineOf(t)[0] == '(';
  }
}
