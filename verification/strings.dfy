/** Strings as `seq<char>` and the handful of Python/JavaScript string
    operations the pipeline relies on: substring containment (`in`),
    `str.strip`, `str.replace`, `split(c)[0]`, `rsplit(c, 1)`, ASCII
    lower-casing, decimal rendering and `padStart`. */
module Strings {
  import opened Wrappers

  /** `sub` occurs in `s` starting at position `i`. */
  predicate OccursAt(s: string, sub: string, i: int) {
    0 <= i && i + |sub| <= |s| && s[i..i + |sub|] == sub
  }

  /** Python's `sub in s`: the empty string occurs in every string. */
  predicate Contains(s: string, sub: string) {
    exists i :: 0 <= i <= |s| - |sub| && OccursAt(s, sub, i)
  }

  lemma ContainsEmpty(s: string)
    ensures Contains(s, "")
  {
    assert OccursAt(s, "", 0);
  }

  /** A string containing `sub` at `i` still contains it inside a longer text. */
  lemma ContainsWithin(pre: string, s: string, post: string, sub: string)
    requires Contains(s, sub)
    ensures Contains(pre + s + post, sub)
  {
    var i :| 0 <= i <= |s| - |sub| && OccursAt(s, sub, i);
    var t := pre + s + post;
    assert t[|pre| + i..|pre| + i + |sub|] == s[i..i + |sub|];
    assert OccursAt(t, sub, |pre| + i);
  }

  /** A single character of `sub` cannot be absent from a text containing `sub`. */
  lemma ContainsChar(s: string, sub: string, k: nat)
    requires Contains(s, sub) && k < |sub|
    ensures sub[k] in s
  {
    var i :| 0 <= i <= |s| - |sub| && OccursAt(s, sub, i);
    assert s[i + k] == sub[k];
  }

  // ---------------------------------------------------------------------
  // Whitespace and str.strip()

  /** The characters Python's `str.isspace` accepts, hence those `str.strip()`
      removes when called without arguments. */
  predicate IsSpace(c: char) {
    c == ' ' || c == '\t' || c == '\n' || c == '\r' || c == '\U{0B}' || c == '\U{0C}'
    || ('\U{1C}' <= c <= '\U{1F}') || c == '\U{85}' || c == '\U{A0}' || c == '\U{1680}'
    || ('\U{2000}' <= c <= '\U{200A}') || c == '\U{2028}' || c == '\U{2029}'
    || c == '\U{202F}' || c == '\U{205F}' || c == '\U{3000}'
  }

  /** Number of leading whitespace characters. */
  function LeadingSpaces(s: string): (k: nat)
    ensures k <= |s|
    ensures forall i :: 0 <= i < k ==> IsSpace(s[i])
    ensures k < |s| ==> !IsSpace(s[k])
  {
    if |s| == 0 || !IsSpace(s[0]) then 0 else 1 + LeadingSpaces(s[1..])
  }

  /** Number of trailing whitespace characters. */
  function TrailingSpaces(s: string): (k: nat)
    ensures k <= |s|
    ensures forall i :: |s| - k <= i < |s| ==> IsSpace(s[i])
    ensures k < |s| ==> !IsSpace(s[|s| - k - 1])
  {
    if |s| == 0 || !IsSpace(s[|s| - 1]) then 0 else 1 + TrailingSpaces(s[..|s| - 1])
  }

  /** Python's `s.strip()`: the longest infix of `s` that neither starts nor
      ends with whitespace, everything cut away being whitespace. */
  function Strip(s: string): (r: string)
    ensures |r| <= |s|
    ensures |r| > 0 ==> !IsSpace(r[0]) && !IsSpace(r[|r| - 1])
    ensures exists i :: OccursAt(s, r, i)
                        && (forall k :: 0 <= k < i ==> IsSpace(s[k]))
                        && (forall k :: i + |r| <= k < |s| ==> IsSpace(s[k]))
  {
    var a := LeadingSpaces(s);
    var t := s[a..];
    var b := TrailingSpaces(t);
    var r := t[..|t| - b];
    assert OccursAt(s, r, a) by {
      assert s[a..a + |r|] == r;
    }
    assert forall k :: a + |r| <= k < |s| ==> s[k] == t[k - a];
    assert |r| > 0 ==> r[0] == s[a] && r[|r| - 1] == t[|t| - b - 1];
    r
  }

  /** Stripping only cuts characters away, so one absent from `s` stays absent. */
  lemma StripKeepsAbsence(s: string, c: char)
    requires c !in s
    ensures c !in Strip(s)
  {
    var r := Strip(s);
    var i :| OccursAt(s, r, i);
    forall k | 0 <= k < |r| ensures r[k] != c {
      assert r[k] == s[i + k];
    }
  }

  /** A string with no surrounding whitespace is its own strip. */
  lemma StripStripped(s: string)
    requires |s| == 0 || (!IsSpace(s[0]) && !IsSpace(s[|s| - 1]))
    ensures Strip(s) == s
  {
    if |s| > 0 {
      assert LeadingSpaces(s) == 0;
      assert TrailingSpaces(s) == 0;
    }
  }

  /** `Strip` is idempotent. */
  lemma StripIdempotent(s: string)
    ensures Strip(Strip(s)) == Strip(s)
  {
    StripStripped(Strip(s));
  }

  /** Strings that are empty or all whitespace, i.e. falsy after `strip()`. */
  predicate IsBlank(s: string) {
    forall i :: 0 <= i < |s| ==> IsSpace(s[i])
  }

  lemma BlankIffStripEmpty(s: string)
    ensures IsBlank(s) <==> Strip(s) == ""
  {
    if IsBlank(s) {
      assert LeadingSpaces(s) == |s|;
    }
  }

  // ---------------------------------------------------------------------
  // str.replace

  /** Python's `s.replace(a, b)` for one-character `a` and `b`. */
  function ReplaceChar(s: string, a: char, b: char): (r: string)
    ensures |r| == |s|
    ensures forall i :: 0 <= i < |s| ==> r[i] == (if s[i] == a then b else s[i])
  {
    seq(|s|, i requires 0 <= i < |s| => if s[i] == a then b else s[i])
  }

  /** `s` with every space deleted. */
  function DropSpaces(s: string): (r: string)
    ensures ' ' !in r && |r| <= |s|
  {
    if |s| == 0 then ""
    else (if s[0] == ' ' then "" else [s[0]]) + DropSpaces(s[1..])
  }

  /** Python's `s.replace("  ", " ")`: a single left-to-right pass replacing
      non-overlapping pairs of spaces, so three spaces become two.  Only
      spaces are removed: the other characters stay, in order. */
  function CollapseDoubleSpaces(s: string): (r: string)
    ensures |r| <= |s|
  {
    if |s| >= 2 && s[0] == ' ' && s[1] == ' ' then " " + CollapseDoubleSpaces(s[2..])
    else if |s| == 0 then ""
    else [s[0]] + CollapseDoubleSpaces(s[1..])
  }

  /** `DropSpaces` on a first character and the rest. */
  lemma DropSpacesCons(c: char, x: string)
    ensures DropSpaces([c] + x) == (if c == ' ' then "" else [c]) + DropSpaces(x)
  {
    assert ([c] + x)[1..] == x;
  }

  /** Only spaces are removed: the other characters stay, in order. */
  lemma {:induction false} CollapseKeepsText(s: string)
    ensures DropSpaces(CollapseDoubleSpaces(s)) == DropSpaces(s)
  {
    if |s| >= 2 && s[0] == ' ' && s[1] == ' ' {
      var t := s[2..];
      CollapseKeepsText(t);
      DropSpacesCons(' ', CollapseDoubleSpaces(t));
      assert DropSpaces(s) == DropSpaces(t) by {
        assert s[1..] == [' '] + t;
        DropSpacesCons(' ', t);
      }
    } else if |s| > 0 {
      var t := s[1..];
      CollapseKeepsText(t);
      DropSpacesCons(s[0], CollapseDoubleSpaces(t));
    }
  }

  /** Only spaces are removed: every other character keeps its count. */
  lemma {:induction false} CollapseKeepsCounts(s: string, c: char)
    requires c != ' '
    ensures multiset(CollapseDoubleSpaces(s))[c] == multiset(s)[c]
  {
    if |s| >= 2 && s[0] == ' ' && s[1] == ' ' {
      var t := s[2..];
      CollapseKeepsCounts(t, c);
      assert s == [' '] + ([' '] + t);
      CountCons(' ', [' '] + t, c);
      CountCons(' ', t, c);
      CountCons(' ', CollapseDoubleSpaces(t), c);
    } else if |s| > 0 {
      var t := s[1..];
      CollapseKeepsCounts(t, c);
      assert s == [s[0]] + t;
      CountCons(s[0], t, c);
      CountCons(s[0], CollapseDoubleSpaces(t), c);
    }
  }

  /** The count of `c` in a sequence with a first element. */
  lemma CountCons(a: char, x: string, c: char)
    ensures multiset([a] + x)[c] == (if a == c then 1 else 0) + multiset(x)[c]
  {
    assert multiset([a] + x) == multiset{a} + multiset(x);
  }

  /** `n` spaces. */
  function Spaces(n: nat): (r: string)
    ensures |r| == n
  {
    if n == 0 then "" else " " + Spaces(n - 1)
  }

  /** A run of `2k` spaces, ended by the end of the text or by another
      character, becomes a run of `k` spaces. */
  lemma {:induction false} CollapseEvenRun(k: nat, rest: string)
    requires |rest| == 0 || rest[0] != ' '
    ensures CollapseDoubleSpaces(Spaces(2 * k) + rest) == Spaces(k) + CollapseDoubleSpaces(rest)
  {
    if k == 0 {
      assert Spaces(0) + rest == rest;
    } else {
      var tail := CollapseDoubleSpaces(rest);
      CollapseEvenRun(k - 1, rest);
      SpacesCons(2 * k - 2, rest);
      CollapsePair(Spaces(2 * k - 2) + rest);
      SpacesCons(k - 1, tail);
    }
  }

  /** A run of `2k + 1` spaces, ended by the end of the text or by another
      character, becomes a run of `k + 1` spaces: one pass leaves the odd
      space alone. */
  lemma {:induction false} CollapseOddRun(k: nat, rest: string)
    requires |rest| == 0 || rest[0] != ' '
    ensures CollapseDoubleSpaces(Spaces(2 * k + 1) + rest) == Spaces(k + 1) + CollapseDoubleSpaces(rest)
  {
    var tail := CollapseDoubleSpaces(rest);
    if k == 0 {
      SpacesCons(0, rest);
      assert Spaces(0) + rest == rest;
      CollapseSingle(rest);
      SpacesCons(0, tail);
      assert Spaces(0) + tail == tail;
    } else {
      CollapseOddRun(k - 1, rest);
      SpacesCons(2 * k - 1, rest);
      CollapsePair(Spaces(2 * k - 1) + rest);
      SpacesCons(k, tail);
    }
  }

  /** The pass restarts after every non-space: collapsing a text that splits
      after a non-space character is collapsing each part. */
  lemma {:induction false} CollapseConcat(a: string, b: string)
    requires |a| == 0 || a[|a| - 1] != ' '
    ensures CollapseDoubleSpaces(a + b) == CollapseDoubleSpaces(a) + CollapseDoubleSpaces(b)
  {
    if |a| > 0 {
      var n := if |a| >= 2 && a[0] == ' ' && a[1] == ' ' then 2 else 1;
      CollapseConcat(a[n..], b);
      ConcatStep(a, b, n);
    } else {
      assert a + b == b;
    }
  }

  /** The step of `CollapseConcat`: the pass consumes the first `n`
      characters of `a` alone, whatever follows `a`. */
  lemma ConcatStep(a: string, b: string, n: nat)
    requires 0 < n <= |a| && a[|a| - 1] != ' '
    requires n == if |a| >= 2 && a[0] == ' ' && a[1] == ' ' then 2 else 1
    requires CollapseDoubleSpaces(a[n..] + b) == CollapseDoubleSpaces(a[n..]) + CollapseDoubleSpaces(b)
    ensures CollapseDoubleSpaces(a + b) == CollapseDoubleSpaces(a) + CollapseDoubleSpaces(b)
  {
    var h := if n == 2 then " " else [a[0]];
    SameFront(a, b);
    UnfoldFront(a + b, n, h);
    UnfoldFront(a, n, h);
    AppendAssoc(h, CollapseDoubleSpaces(a[n..]), CollapseDoubleSpaces(b));
  }

  /** Appending to a text that ends in a non-space does not change how the
      pass starts on it. */
  lemma SameFront(a: string, b: string)
    requires 0 < |a| && a[|a| - 1] != ' '
    ensures (a + b)[0] == a[0]
    ensures (|a + b| >= 2 && (a + b)[0] == ' ' && (a + b)[1] == ' ') == (|a| >= 2 && a[0] == ' ' && a[1] == ' ')
    ensures (a + b)[1..] == a[1..] + b
    ensures |a| >= 2 ==> (a + b)[2..] == a[2..] + b
  {
    if |a| >= 2 { assert (a + b)[1] == a[1]; }
  }

  /** One step of the pass: the first `n` characters become `h`. */
  lemma UnfoldFront(s: string, n: nat, h: string)
    requires 0 < n <= |s|
    requires n == if |s| >= 2 && s[0] == ' ' && s[1] == ' ' then 2 else 1
    requires h == if n == 2 then " " else [s[0]]
    ensures CollapseDoubleSpaces(s) == h + CollapseDoubleSpaces(s[n..])
  {
  }

  /** Concatenation is associative. */
  lemma AppendAssoc(x: string, y: string, z: string)
    ensures x + (y + z) == x + y + z
  {
  }

  /** A first character that does not start a pair of spaces is kept. */
  lemma CollapseHead(c: char, x: string)
    requires c != ' ' || |x| == 0 || x[0] != ' '
    ensures CollapseDoubleSpaces([c] + x) == [c] + CollapseDoubleSpaces(x)
  {
    assert ([c] + x)[1..] == x;
  }

  /** A run of spaces anywhere in the text, between a non-space (or the
      start) and a non-space (or the end): `2k` spaces become `k` and
      `2k + 1` spaces become `k + 1`, and the text on either side is
      collapsed on its own. */
  lemma CollapseRun(pre: string, k: nat, rest: string)
    requires |pre| == 0 || pre[|pre| - 1] != ' '
    requires |rest| == 0 || rest[0] != ' '
    ensures CollapseDoubleSpaces(pre + Spaces(2 * k) + rest)
            == CollapseDoubleSpaces(pre) + Spaces(k) + CollapseDoubleSpaces(rest)
    ensures CollapseDoubleSpaces(pre + Spaces(2 * k + 1) + rest)
            == CollapseDoubleSpaces(pre) + Spaces(k + 1) + CollapseDoubleSpaces(rest)
  {
    CollapseEvenRun(k, rest);
    RunAfter(pre, Spaces(2 * k), rest, Spaces(k));
    CollapseOddRun(k, rest);
    RunAfter(pre, Spaces(2 * k + 1), rest, Spaces(k + 1));
  }

  /** One case of `CollapseRun`: a run that collapses to `out` when it
      starts the text collapses to `out` after `pre` as well. */
  lemma RunAfter(pre: string, run: string, rest: string, out: string)
    requires |pre| == 0 || pre[|pre| - 1] != ' '
    requires CollapseDoubleSpaces(run + rest) == out + CollapseDoubleSpaces(rest)
    ensures CollapseDoubleSpaces(pre + run + rest)
            == CollapseDoubleSpaces(pre) + out + CollapseDoubleSpaces(rest)
  {
    AppendAssoc(pre, run, rest);
    CollapseConcat(pre, run + rest);
    AppendAssoc(CollapseDoubleSpaces(pre), out, CollapseDoubleSpaces(rest));
  }

  /** Peeling spaces off the front of a run. */
  lemma SpacesCons(n: nat, x: string)
    ensures Spaces(n + 1) + x == " " + (Spaces(n) + x)
    ensures Spaces(n + 2) + x == "  " + (Spaces(n) + x)
  {
    assert Spaces(n + 2) == " " + (" " + Spaces(n));
  }

  /** Two leading spaces become one. */
  lemma CollapsePair(x: string)
    ensures CollapseDoubleSpaces("  " + x) == " " + CollapseDoubleSpaces(x)
  {
    assert ("  " + x)[2..] == x;
  }

  /** A lone leading space stays. */
  lemma CollapseSingle(x: string)
    requires |x| == 0 || x[0] != ' '
    ensures CollapseDoubleSpaces(" " + x) == " " + CollapseDoubleSpaces(x)
  {
    assert (" " + x)[1..] == x;
  }

  /** Only spaces are removed, so a character absent from `s` stays absent. */
  lemma CollapseKeepsAbsence(s: string, c: char)
    requires c != ' ' && c !in s
    ensures c !in CollapseDoubleSpaces(s)
  {
    var r := CollapseDoubleSpaces(s);
    CollapseKeepsCounts(s, c);
    assert multiset(s)[c] == 0;
    assert multiset(r)[c] == 0;
  }

  /** Text without two adjacent spaces passes through unchanged. */
  lemma {:induction false} CollapseNoDoubleSpaces(s: string)
    requires forall i :: 0 <= i < |s| - 1 ==> !(s[i] == ' ' && s[i + 1] == ' ')
    ensures CollapseDoubleSpaces(s) == s
  {
    if |s| > 0 {
      CollapseNoDoubleSpaces(s[1..]);
      assert s == [s[0]] + s[1..];
    }
  }

  /** One pass only: a run of three spaces becomes two, not one. */
  lemma CollapseThreeSpaces()
    ensures CollapseDoubleSpaces("a   b") == "a  b"
  {
    assert "a   b"[1..] == "   b";
    assert "   b"[2..] == " b";
    assert " b"[1..] == "b";
    assert "b"[1..] == "";
  }

  // ---------------------------------------------------------------------
  // split / rsplit

  /** Python's `s.split(c)[0]`: the text before the first `c`, or all of `s`. */
  function BeforeFirst(s: string, c: char): (r: string)
    ensures c !in r
    ensures |r| <= |s| && r == s[..|r|]
    ensures |r| < |s| ==> s[|r|] == c
  {
    if |s| == 0 then ""
    else if s[0] == c then ""
    else [s[0]] + BeforeFirst(s[1..], c)
  }

  /** `s.split(c)`: the pieces between the occurrences of `c`, empty
      pieces included. */
  function Split(s: string, c: char): (r: seq<string>)
    ensures |r| >= 1
    ensures forall k :: 0 <= k < |r| ==> c !in r[k]
    ensures |r| == 1 <==> c !in s
    decreases |s|
  {
    var head := BeforeFirst(s, c);
    if |head| == |s| then
      assert head == s;
      [s]
    else
      assert c in s;
      [head] + Split(s[|head| + 1..], c)
  }

  /** `c.join(parts)`. */
  function Join(parts: seq<string>, c: char): string
    requires |parts| >= 1
  {
    if |parts| == 1 then parts[0] else parts[0] + [c] + Join(parts[1..], c)
  }

  /** Joining the pieces with the separator gives the text back. */
  lemma {:induction false} SplitJoin(s: string, c: char)
    ensures Join(Split(s, c), c) == s
    decreases |s|
  {
    if c in s {
      var head, rest := AtFirst(s, c);
      SplitJoin(rest, c);
      SplitJoinStep(head, c, rest);
    } else {
      assert BeforeFirst(s, c) == s;
    }
  }

  /** A text holding `c` is the text before its first `c`, that `c`, and the rest. */
  lemma AtFirst(s: string, c: char) returns (head: string, rest: string)
    requires c in s
    ensures s == head + [c] + rest && c !in head
  {
    head := BeforeFirst(s, c);
    rest := s[|head| + 1..];
    assert s[..|head| + 1] == head + [c];
    assert s == s[..|head| + 1] + rest;
  }

  /** The step of `SplitJoin`: a piece, the separator and a text whose pieces
      join back to it. */
  lemma SplitJoinStep(head: string, c: char, rest: string)
    requires c !in head && Join(Split(rest, c), c) == rest
    ensures Join(Split(head + [c] + rest, c), c) == head + [c] + rest
  {
    SplitFirst(head, c, rest);
    JoinCons(head, Split(rest, c), c);
  }

  /** Joining a first piece in front of the others. */
  lemma JoinCons(head: string, tail: seq<string>, c: char)
    requires |tail| >= 1
    ensures Join([head] + tail, c) == head + [c] + Join(tail, c)
  {
    assert ([head] + tail)[1..] == tail;
  }

  /** Splitting at the first separator. */
  lemma SplitFirst(a: string, c: char, b: string)
    requires c !in a
    ensures Split(a + [c] + b, c) == [a] + Split(b, c)
  {
    var s := a + [c] + b;
    BeforeFirstOf(a, c, b);
    assert s[|a| + 1..] == b;
  }

  /** The text before the first separator is everything before it. */
  lemma {:induction false} BeforeFirstOf(a: string, c: char, b: string)
    requires c !in a
    ensures BeforeFirst(a + [c] + b, c) == a
  {
    if |a| > 0 {
      assert (a + [c] + b)[1..] == a[1..] + [c] + b;
      BeforeFirstOf(a[1..], c, b);
    }
  }

  /** Position of the last `c` in `s`, as used by `s.rsplit(c, 1)`. */
  function LastIndexOf(s: string, c: char): (r: Option<nat>)
    ensures r.Some? ==> r.value < |s| && s[r.value] == c
                        && forall j :: r.value < j < |s| ==> s[j] != c
    ensures r.None? <==> c !in s
  {
    if |s| == 0 then None
    else if s[|s| - 1] == c then Some(|s| - 1)
    else
      assert s == s[..|s| - 1] + [s[|s| - 1]];
      LastIndexOf(s[..|s| - 1], c)
  }

  // ---------------------------------------------------------------------
  // Case

  function LowerChar(c: char): char {
    if 'A' <= c <= 'Z' then (c as int + 32) as char else c
  }

  /** `str.lower()` restricted to the ASCII letters. */
  function AsciiLower(s: string): (r: string)
    ensures |r| == |s|
    ensures forall i :: 0 <= i < |s| ==> r[i] == LowerChar(s[i])
  {
    seq(|s|, i requires 0 <= i < |s| => LowerChar(s[i]))
  }

  // ---------------------------------------------------------------------
  // Decimal numerals

  predicate IsDigit(c: char) {
    '0' <= c <= '9'
  }

  predicate AllDigits(s: string) {
    forall i :: 0 <= i < |s| ==> IsDigit(s[i])
  }

  function DigitChar(d: nat): (c: char)
    requires d < 10
    ensures IsDigit(c) && c as int - '0' as int == d
  {
    ('0' as int + d) as char
  }

  /** Value of a decimal numeral (leading zeros allowed, as `int()` does). */
  function DigitsValue(s: string): nat
    requires AllDigits(s)
  {
    if |s| == 0 then 0
    else DigitsValue(s[..|s| - 1]) * 10 + (s[|s| - 1] as int - '0' as int)
  }

  function Pow10(k: nat): (r: nat)
    ensures r >= 1
  {
    if k == 0 then 1 else 10 * Pow10(k - 1)
  }

  /** Leading zeros do not change the value of a numeral. */
  lemma {:induction false} LeadingZerosValue(z: string, s: string)
    requires forall i :: 0 <= i < |z| ==> z[i] == '0'
    requires AllDigits(s)
    ensures AllDigits(z + s) && DigitsValue(z + s) == DigitsValue(s)
    decreases |s|, |z|
  {
    var w := z + s;
    if |s| > 0 {
      assert w[..|w| - 1] == z + s[..|s| - 1];
      LeadingZerosValue(z, s[..|s| - 1]);
    } else if |z| > 0 {
      assert w == z;
      assert z[..|z| - 1] + "" == z[..|z| - 1];
      LeadingZerosValue(z[..|z| - 1], "");
    }
  }

  /** Shortest decimal numeral of `n`, as JavaScript's `String(n)` and Python's
      `str(n)` write a non-negative integer. */
  function NatToString(n: nat): (r: string)
    ensures |r| >= 1 && AllDigits(r)
    ensures DigitsValue(r) == n
    ensures |r| > 1 ==> r[0] != '0'
  {
    if n < 10 then [DigitChar(n)]
    else
      var r := NatToString(n / 10) + [DigitChar(n % 10)];
      assert r[..|r| - 1] == NatToString(n / 10);
      r
  }

  /** The numeral of an `n` with `k` digits has length `k`. */
  lemma {:induction false} NatToStringLength(n: nat, k: nat)
    requires k >= 1 && Pow10(k - 1) <= n < Pow10(k)
    ensures |NatToString(n)| == k
  {
    if n >= 10 {
      assert k >= 2;
      NatToStringLength(n / 10, k - 1);
    }
  }

  /** JavaScript's `String(i)` for an integer: a minus sign for negatives. */
  function IntToString(i: int): (r: string)
    ensures |r| >= 1
    ensures forall k :: 0 <= k < |r| ==> IsDigit(r[k]) || r[k] == '-'
    ensures i >= 0 ==> r == NatToString(i)
  {
    if i < 0 then "-" + NatToString(-i) else NatToString(i)
  }

  /** `n` copies of `c`. */
  function Repeat(c: char, n: nat): (r: string)
    ensures |r| == n
    ensures forall i :: 0 <= i < n ==> r[i] == c
  {
    seq(n, _ => c)
  }

  /** JavaScript's `s.padStart(n, c)`: prepends `c` up to length `n`, and
      never truncates. */
  function PadStart(s: string, n: nat, c: char): (r: string)
    ensures |r| == if |s| >= n then |s| else n
    ensures r[|r| - |s|..] == s
    ensures forall i :: 0 <= i < |r| - |s| ==> r[i] == c
  {
    if |s| >= n then s else Repeat(c, n - |s|) + s
  }

  // ---------------------------------------------------------------------
  // Zero-padded numerals

  /** `n` written with at least `w` digits, padded with leading zeros:
      `String(n).padStart(w, '0')`, and what `strftime` writes for `%d`,
      `%m` and `%Y`. */
  function Padded(n: nat, w: nat): (r: string)
    ensures AllDigits(r) && DigitsValue(r) == n
    ensures |r| >= w && '.' !in r && '-' !in r && '/' !in r
  {
    var digits := NatToString(n);
    var r := PadStart(digits, w, '0');
    assert r == Repeat('0', |r| - |digits|) + digits;
    LeadingZerosValue(Repeat('0', |r| - |digits|), digits);
    assert forall i :: 0 <= i < |r| ==> IsDigit(r[i]);
    r
  }

  /** A number below `10^w` is padded to exactly `w` digits. */
  lemma PaddedWidth(n: nat, w: nat)
    requires w >= 1 && n < Pow10(w)
    ensures |Padded(n, w)| == w
  {
    NatToStringAtMost(n, w);
  }

  /** The numeral of a number below `10^w` has at most `w` digits. */
  lemma {:induction false} NatToStringAtMost(n: nat, w: nat)
    requires w >= 1 && n < Pow10(w)
    ensures |NatToString(n)| <= w
  {
    if n >= 10 {
      assert Pow10(1) == 10;
      assert Pow10(w) == 10 * Pow10(w - 1);
      NatToStringAtMost(n / 10, w - 1);
    }
  }
}
