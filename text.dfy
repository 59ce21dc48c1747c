/**
 * String helpers with the meaning the Python 2 program gives them on byte strings:
 * `strip`/`rstrip`, `find`, `upper`, `int` on one dotted segment, `split('.')`, `str(n)`.
 */
module Text {
  import opened Wrappers

  /** The characters `str.strip()` removes: space, tab, newline, carriage return, VT, FF. */
  predicate IsSpace(c: char) {
    c == ' ' || c == '\t' || c == '\n' || c == '\r' || c == '\U{b}' || c == '\U{c}'
  }

  predicate AllSpace(s: string) {
    forall i :: 0 <= i < |s| ==> IsSpace(s[i])
  }

  /** `n` space characters, as Python's `" " * n`. */
  function Spaces(n: nat): (r: string)
    ensures |r| == n && forall i :: 0 <= i < n ==> r[i] == ' '
  {
    seq(n, _ => ' ')
  }

  /** `s.rstrip()`: drops the trailing whitespace and nothing else. */
  function RStrip(s: string): (r: string)
    ensures |r| <= |s| && r == s[..|r|]
    ensures forall i :: |r| <= i < |s| ==> IsSpace(s[i])
    ensures r == [] || !IsSpace(r[|r| - 1])
  {
    if s != [] && IsSpace(s[|s| - 1]) then RStrip(s[..|s| - 1]) else s
  }

  /** `s.lstrip()`: drops the leading whitespace and nothing else. */
  function LStrip(s: string): (r: string)
    ensures |r| <= |s| && r == s[|s| - |r|..]
    ensures forall i :: 0 <= i < |s| - |r| ==> IsSpace(s[i])
    ensures r == [] || !IsSpace(r[0])
  {
    if s != [] && IsSpace(s[0]) then LStrip(s[1..]) else s
  }

  /** `s.strip()`. */
  function Strip(s: string): string {
    LStrip(RStrip(s))
  }

  /** A string strips to nothing exactly when it is all whitespace. */
  lemma StripEmptyIff(s: string)
    ensures Strip(s) == [] <==> AllSpace(s)
  {
    var r := RStrip(s);
    if Strip(s) == [] {
      assert AllSpace(r);
      forall i | 0 <= i < |s| ensures IsSpace(s[i]) {
        if i < |r| { assert s[i] == r[i]; }
      }
    } else {
      var l := Strip(s);
      var j := |r| - |l|;
      assert l[0] == r[j] == s[j];
    }
  }

  /** Stripping `rstrip`ped text is the same as stripping the original. */
  lemma StripOfRStrip(s: string)
    ensures Strip(RStrip(s)) == Strip(s)
  {
    var r := RStrip(s);
    assert RStrip(r) == r;
  }

  /** Indenting already-stripped, non-empty text and stripping it gives the text back. */
  lemma {:induction false} StripIndented(n: nat, t: string)
    requires t != [] && !IsSpace(t[0]) && !IsSpace(t[|t| - 1])
    ensures Strip(Spaces(n) + t) == t
    ensures RStrip(Spaces(n) + t) == Spaces(n) + t
  {
    var s := Spaces(n) + t;
    assert s[|s| - 1] == t[|t| - 1];
    RStripKeeps(s);
    if n > 0 {
      assert s[0] == ' ';
      assert s[1..] == Spaces(n - 1) + t;
      StripIndented(n - 1, t);
      assert LStrip(s) == LStrip(s[1..]);
    } else {
      assert s == t;
    }
  }

  /** `text.find(s) != -1`: `s` occurs in `text` at some position. */
  predicate Contains(text: string, s: string) {
    exists i | 0 <= i <= |text| :: OccursAt(text, s, i)
  }

  /** `s` occurs in `text` starting at position `i`. */
  predicate OccursAt(text: string, s: string, i: int) {
    0 <= i <= |text| - |s| && text[i..i + |s|] == s
  }

  /** `c.upper()` on one byte: only the ASCII letters change. */
  function Upper(c: char): (r: char)
    ensures 'a' <= c <= 'z' ==> r as int == c as int - 32
    ensures !('a' <= c <= 'z') ==> r == c
  {
    if 'a' <= c <= 'z' then (c as int - 32) as char else c
  }

  predicate IsDigit(c: char) { '0' <= c <= '9' }

  predicate IsLetter(c: char) { 'a' <= c <= 'z' || 'A' <= c <= 'Z' }

  predicate AllDigits(s: string) {
    forall i :: 0 <= i < |s| ==> IsDigit(s[i])
  }

  function DigitChar(d: nat): (c: char)
    requires d < 10
    ensures IsDigit(c)
  {
    ('0' as int + d) as char
  }

  /** `str(n)` for a natural number: its decimal digits, most significant first. */
  function NatToStr(n: nat): (r: string)
    ensures r != [] && AllDigits(r)
    decreases n
  {
    if n < 10 then [DigitChar(n)] else NatToStr(n / 10) + [DigitChar(n % 10)]
  }

  /** The value of a string of decimal digits (leading zeros allowed, as `int("007")`). */
  function DigitsValue(s: string): nat
    requires AllDigits(s)
  {
    if s == [] then 0 else DigitsValue(s[..|s| - 1]) * 10 + (s[|s| - 1] as int - '0' as int)
  }

  /** `int(s)` on one address segment; a segment that is not all digits raises, here `None`. */
  function ParseNat(s: string): (r: Option<nat>)
    ensures r.Some? <==> s != [] && AllDigits(s)
  {
    if s != [] && AllDigits(s) then Some(DigitsValue(s)) else None
  }

  /** `int(str(n)) == n`. */
  lemma {:induction false} ParseNatToStr(n: nat)
    ensures ParseNat(NatToStr(n)) == Some(n)
    decreases n
  {
    var s := NatToStr(n);
    if n >= 10 {
      ParseNatToStr(n / 10);
      assert s[..|s| - 1] == NatToStr(n / 10);
      assert s[|s| - 1] as int - '0' as int == n % 10;
    } else {
      assert s == [DigitChar(n)] && s[..0] == [];
      assert DigitsValue(s) == DigitsValue([]) * 10 + (s[0] as int - '0' as int);
    }
  }

  /** `str` is injective on the naturals. */
  lemma NatToStrInjective(i: nat, j: nat)
    requires NatToStr(i) == NatToStr(j)
    ensures i == j
  {
    ParseNatToStr(i);
    ParseNatToStr(j);
  }

  /** The text before the first `.` (all of `s` when it has none). */
  function FirstSeg(s: string): (r: string)
    ensures |r| <= |s| && r == s[..|r|] && '.' !in r
    ensures |r| < |s| ==> s[|r|] == '.'
  {
    if s == [] || s[0] == '.' then [] else [s[0]] + FirstSeg(s[1..])
  }

  /** `s.split('.')`: always at least one segment, none containing a dot. */
  function SplitDots(s: string): (r: seq<string>)
    ensures |r| >= 1
    ensures forall i :: 0 <= i < |r| ==> '.' !in r[i]
    decreases |s|
  {
    var h := FirstSeg(s);
    if |h| == |s| then [s] else [h] + SplitDots(s[|h| + 1..])
  }

  lemma {:induction false} FirstSegDotFree(x: string, y: string)
    requires '.' !in x
    ensures FirstSeg(x) == x
    ensures FirstSeg(x + "." + y) == x
  {
    if x != [] {
      assert (x + "." + y)[1..] == x[1..] + "." + y;
      FirstSegDotFree(x[1..], y);
    } else {
      assert (x + "." + y)[0] == '.';
    }
  }

  lemma {:induction false} FirstSegExtend(x: string, z: string)
    requires '.' in x
    ensures FirstSeg(x + z) == FirstSeg(x)
  {
    if x[0] != '.' {
      assert (x + z)[1..] == x[1..] + z;
      assert x[0] == (x + z)[0];
      assert '.' in x[1..] by {
        var k :| 0 <= k < |x| && x[k] == '.';
        assert x[1..][k - 1] == '.';
      }
      FirstSegExtend(x[1..], z);
    }
  }

  /** Splitting `x + "." + y`, with `y` dot-free, splits `x` and then yields `y`. */
  lemma {:induction false} SplitDotsSnoc(x: string, y: string)
    requires '.' !in y
    ensures SplitDots(x + "." + y) == SplitDots(x) + [y]
    decreases |x|
  {
    var s := x + "." + y;
    if '.' !in x {
      FirstSegDotFree(x, y);
      FirstSegDotFree(y, "");
      assert s[|x| + 1..] == y;
    } else {
      var h := FirstSeg(x);
      FirstSegExtend(x, "." + y);
      assert x + ("." + y) == s;
      assert |h| < |x|;
      var x' := x[|h| + 1..];
      assert s[|h| + 1..] == x' + "." + y;
      SplitDotsSnoc(x', y);
    }
  }

  /** A string that ends in a non-space is its own `rstrip()`. */
  lemma RStripKeeps(s: string)
    requires s != [] && !IsSpace(s[|s| - 1])
    ensures RStrip(s) == s
  {
  }

  /** The newline the file iteration leaves on each line is what `rstrip()` removes first. */
  lemma RStripNewline(s: string)
    ensures RStrip(s + "\n") == RStrip(s)
  {
    assert (s + "\n")[..|s|] == s;
  }

  /**
   * `int(s)` in Python 2: surrounding whitespace is ignored, then one optional sign, more
   * whitespace, which the C conversion underneath skips, and one or more decimal digits;
   * anything else raises, here `None`.
   */
  function ParseInt(s: string): (r: Option<int>)
    ensures r.Some? ==> Strip(s) != []
  {
    var t := Strip(s);
    if t != [] && (t[0] == '-' || t[0] == '+') then
      match ParseNat(LStrip(t[1..]))
      case Some(n) => Some(if t[0] == '-' then 0 - n else n)
      case None => None
    else
      match ParseNat(t)
      case Some(n) => Some(n)
      case None => None
  }

  /** `int(str(n)) == n`, through the whitespace and sign handling of `int`. */
  lemma ParseIntOfNat(n: nat)
    ensures ParseInt(NatToStr(n)) == Some(n)
  {
    var s := NatToStr(n);
    assert Strip(s) == s by {
      assert IsDigit(s[0]) && IsDigit(s[|s| - 1]);
      StripIndented(0, s);
      assert Spaces(0) + s == s;
    }
    assert IsDigit(s[0]);
    ParseNatToStr(n);
  }

  /** A digit string never holds a dot. */
  lemma DigitsDotFree(s: string)
    requires AllDigits(s)
    ensures '.' !in s
  {
  }

  /** What `'.'.join(s.split('.', 1)[1:])` leaves: the text after the first dot, or nothing. */
  function AfterFirstSeg(s: string): (r: string)
    ensures |r| < |s| || s == []
  {
    var h := FirstSeg(s);
    if |h| < |s| then s[|h| + 1..] else ""
  }

  /** `' '.join(ws)`. */
  function JoinSpace(ws: seq<string>): (r: string)
    ensures ws == [] ==> r == ""
    ensures |ws| == 1 ==> r == ws[0]
  {
    if ws == [] then "" else if |ws| == 1 then ws[0] else ws[0] + " " + JoinSpace(ws[1..])
  }
}
