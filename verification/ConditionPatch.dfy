/** Finding the condition of an if or while and putting a constraint into it (patch_gen.py). */
module ConditionPatch {

  // ---- brackets ----

  /** Opening less closing brackets among the first n characters. */
  function Depth(s: string, n: nat): int
    requires n <= |s|
  {
    if n == 0 then 0 else Depth(s, n - 1) + (if s[n - 1] == '(' then 1 else if s[n - 1] == ')' then -1 else 0)
  }

  ghost predicate Balanced(s: string) {
    Depth(s, |s|) == 0 && forall n :: 0 <= n <= |s| ==> Depth(s, n) >= 0
  }

  lemma {:induction false} DepthOfConcat(a: string, b: string, n: nat)
    requires n <= |a| + |b|
    ensures Depth(a + b, n) == if n <= |a| then Depth(a, n) else Depth(a, |a|) + Depth(b, n - |a|)
    decreases n
  {
    if n > 0 {
      DepthOfConcat(a, b, n - 1);
      assert (a + b)[n - 1] == if n <= |a| then a[n - 1] else b[n - 1 - |a|];
    }
  }

  lemma BalancedConcat(a: string, b: string)
    requires Balanced(a) && Balanced(b)
    ensures Balanced(a + b)
  {
    forall n | 0 <= n <= |a + b|
      ensures Depth(a + b, n) >= 0
    {
      DepthOfConcat(a, b, n);
    }
    DepthOfConcat(a, b, |a + b|);
  }

  lemma BalancedInBrackets(a: string)
    requires Balanced(a)
    ensures Balanced("(" + a + ")")
  {
    var s := "(" + a + ")";
    assert Depth("(", 1) == 1 && Depth(")", 1) == -1;
    forall n | 0 <= n <= |s|
      ensures Depth(s, n) >= 0
    {
      DepthOfConcat("(" + a, ")", n);
      DepthOfConcat("(", a, if n <= |a| + 1 then n else |a| + 1);
    }
    DepthOfConcat("(" + a, ")", |s|);
    DepthOfConcat("(", a, |a| + 1);
  }

  lemma {:induction false} BalancedWithout(a: string)
    requires '(' !in a && ')' !in a
    ensures Balanced(a)
  {
    forall n | 0 <= n <= |a|
      ensures Depth(a, n) == 0
    {
      DepthWithout(a, n);
    }
  }

  lemma {:induction false} DepthWithout(a: string, n: nat)
    requires n <= |a| && '(' !in a
    ensures Depth(a, n) <= 0 && (Depth(a, n) == 0 <== ')' !in a)
    ensures n == |a| && ')' in a ==> Depth(a, n) < 0
    decreases n
  {
    if n > 0 {
      DepthWithout(a, n - 1);
      if n == |a| && a[n - 1] != ')' && ')' in a {
        assert a == a[..n - 1] + [a[n - 1]];
        DepthOfConcat(a[..n - 1], [a[n - 1]], n - 1);
        DepthWithout(a[..n - 1], n - 1);
      }
    }
  }

  // ---- the search ----

  /** Lines one after the other. */
  function Join(lines: seq<string>): string {
    if lines == [] then "" else Join(lines[..|lines| - 1]) + lines[|lines| - 1]
  }

  /** After n characters a bracket has been opened and the depth is zero. */
  ghost predicate IsStop(s: string, n: nat) {
    n <= |s| && Depth(s, n) == 0 && '(' in s[..n]
  }

  ghost predicate IsFirstStop(s: string, n: nat) {
    IsStop(s, n) && forall m :: 0 <= m < n ==> !IsStop(s, m)
  }

  lemma StopOfPrefix(a: string, b: string, n: nat)
    requires n <= |a|
    ensures IsStop(a + b, n) == IsStop(a, n)
  {
    DepthOfConcat(a, b, n);
    assert (a + b)[..n] == a[..n];
  }

  /** The first column with an opening bracket, or -1. */
  method FindOpening(line: string) returns (col: int)
    ensures col == -1 ==> '(' !in line
    ensures col != -1 ==> 0 <= col < |line| && line[col] == '(' && '(' !in line[..col]
  {
    for k := 0 to |line|
      invariant '(' !in line[..k]
    {
      if line[k] == '(' {
        return k;
      }
      assert line[..k + 1] == line[..k] + [line[k]];
    }
    assert line[..|line|] == line;
    col := -1;
  }

  /** The inner loop: goes on through a line after the text `before`. */
  method ScanLine(ghost before: string, line: string, depth0: int, pushed0: bool)
    returns (found: bool, col: int, depth: int, pushed: bool)
    requires depth0 == Depth(before, |before|) && (pushed0 <==> '(' in before)
    requires forall n :: 0 <= n <= |before| ==> !IsStop(before, n)
    ensures found ==> 0 <= col < |line| && IsFirstStop(before + line, |before| + col + 1)
    ensures !found ==> forall n :: 0 <= n <= |before + line| ==> !IsStop(before + line, n)
    ensures !found ==> depth == Depth(before + line, |before + line|) && (pushed <==> '(' in before + line)
  {
    depth, pushed := depth0, pushed0;
    ghost var text := before + line;
    forall n | 0 <= n <= |before|
      ensures !IsStop(text, n)
    {
      StopOfPrefix(before, line, n);
    }
    DepthOfConcat(before, line, |before|);
    assert text[..|before|] == before;
    for j := 0 to |line|
      invariant depth == Depth(text, |before| + j)
      invariant pushed <==> '(' in text[..|before| + j]
      invariant forall n :: 0 <= n <= |before| + j ==> !IsStop(text, n)
    {
      assert text[..|before| + j + 1] == text[..|before| + j] + [line[j]];
      if line[j] == '(' {
        depth := depth + 1;
        pushed := true;
      } else if line[j] == ')' {
        depth := depth - 1;
      }
      if pushed && depth == 0 {
        return true, j, depth, pushed;
      }
    }
    assert text[..|text|] == text;
    found, col := false, -1;
  }

  /** The line and column of the first stop; -1, -1 when there is none. */
  method FindClosing(lines: seq<string>) returns (line: int, col: int)
    ensures line == -1 ==> col == -1 && forall n :: 0 <= n <= |Join(lines)| ==> !IsStop(Join(lines), n)
    ensures line != -1 ==> 0 <= line < |lines| && 0 <= col < |lines[line]|
    ensures line != -1 ==> IsFirstStop(Join(lines), |Join(lines[..line])| + col + 1)
  {
    var depth, pushed := 0, false;
    for i := 0 to |lines|
      invariant depth == Depth(Join(lines[..i]), |Join(lines[..i])|)
      invariant pushed <==> '(' in Join(lines[..i])
      invariant forall n :: 0 <= n <= |Join(lines[..i])| ==> !IsStop(Join(lines[..i]), n)
    {
      assert lines[..i + 1][..i] == lines[..i];
      var found, j;
      found, j, depth, pushed := ScanLine(Join(lines[..i]), lines[i], depth, pushed);
      if found {
        FirstStopOfPrefix(Join(lines[..i + 1]), Join(lines[i + 1..]), |Join(lines[..i])| + j + 1);
        JoinSplits(lines, i + 1);
        return i, j;
      }
    }
    assert lines[..|lines|] == lines;
    return -1, -1;
  }

  lemma FirstStopOfPrefix(a: string, b: string, n: nat)
    requires n <= |a| && IsFirstStop(a, n)
    ensures IsFirstStop(a + b, n)
  {
    forall m | 0 <= m <= n
      ensures IsStop(a + b, m) == IsStop(a, m)
    {
      StopOfPrefix(a, b, m);
    }
  }

  lemma {:induction false} JoinSplits(lines: seq<string>, i: nat)
    requires i <= |lines|
    ensures Join(lines) == Join(lines[..i]) + Join(lines[i..])
    decreases |lines| - i
  {
    if i == |lines| {
      assert lines[..i] == lines;
    } else {
      JoinSplits(lines, i + 1);
      assert lines[..i + 1][..i] == lines[..i];
      JoinHead(lines[i..]);
      assert lines[i..][1..] == lines[i + 1..];
    }
  }

  lemma {:induction false} JoinHead(lines: seq<string>)
    requires lines != []
    ensures Join(lines) == lines[0] + Join(lines[1..])
    decreases |lines|
  {
    var n := |lines|;
    if n > 1 {
      JoinHead(lines[..n - 1]);
      assert lines[..n - 1][1..] == lines[1..][..n - 2];
    } else {
      assert lines[..0] == [] && lines[1..] == [];
    }
  }

  // ---- conditions ----

  /** Text around a condition in brackets; the brackets match, and the first is the first opening bracket. */
  ghost predicate IsCondition(text: string, pre: string, cond: string, post: string) {
    text == pre + ("(" + cond + ")") + post && '(' !in pre && Balanced(cond)
  }

  lemma DepthInCondition(pre: string, cond: string, post: string, n: nat)
    requires Balanced(cond) && |pre| < n <= |pre| + |cond| + 2
    ensures var d := Depth(pre + ("(" + cond + ")") + post, n) - Depth(pre, |pre|);
      if n == |pre| + |cond| + 2 then d == 0 else d > 0
  {
    var mid := "(" + cond + ")";
    assert Depth("(", 1) == 1 && Depth(")", 1) == -1;
    DepthOfConcat(pre + mid, post, n);
    DepthOfConcat(pre, mid, n);
    DepthOfConcat("(" + cond, ")", n - |pre|);
    DepthOfConcat("(", cond, if n - |pre| <= |cond| + 1 then n - |pre| else |cond| + 1);
  }

  /** The search stops at the bracket that closes the condition if and only if no closing bracket comes before it. */
  lemma ClosingIsFound(text: string, pre: string, cond: string, post: string)
    requires IsCondition(text, pre, cond, post)
    ensures IsFirstStop(text, |pre| + |cond| + 2) <==> ')' !in pre
  {
    var m := |pre| + |cond| + 2;
    DepthInCondition(pre, cond, post, m);
    DepthWithout(pre, |pre|);
    if ')' !in pre {
      forall n | 0 <= n < m
        ensures !IsStop(text, n)
      {
        if n <= |pre| {
          assert text[..n] == pre[..n];
        } else {
          DepthInCondition(pre, cond, post, n);
        }
      }
      assert text[..m][|pre|] == '(';
    }
  }

  /** There is only one first stop: with ClosingIsFound, what FindClosing returns. */
  lemma FirstStopIsUnique(s: string, n: nat, m: nat)
    requires IsFirstStop(s, n) && IsFirstStop(s, m)
    ensures n == m
  {}

  // ---- insertion ----

  /** New content for a line, counted from the fix line. */
  datatype Edit = Edit(line: int, content: string)

  /** A position of the opening bracket in the first line and of the closing bracket in a line. */
  ghost predicate IsPosition(lines: seq<string>, open: nat, line: nat, close: nat) {
    && line < |lines| && open < |lines[0]| && close < |lines[line]| && (line == 0 ==> open < close)
    && lines[0][open] == '(' && lines[line][close] == ')'
  }

  /** A Python index into n places as a bound of a slice: negative ones count from the end. */
  function Bound(n: nat, k: int): (r: nat)
    ensures r <= n && (0 <= k <= n ==> r == k)
  {
    if k >= n then n else if k >= 0 then k else if k + n >= 0 then k + n else 0
  }

  /** s[:k], s[k:] and s[j:k]. */
  function UpTo(s: string, k: int): string { s[..Bound(|s|, k)] }

  function From(s: string, k: int): string { s[Bound(|s|, k)..] }

  function Slice(s: string, j: int, k: int): string {
    if Bound(|s|, j) <= Bound(|s|, k) then s[Bound(|s|, j)..Bound(|s|, k)] else ""
  }

  function LineAt(lines: seq<string>, k: int): string
    requires -|lines| <= k < |lines|
  {
    if k >= 0 then lines[k] else lines[|lines| + k]
  }

  /** The edits that put `what` at the end of the condition. */
  function InsertAtEnd(lines: seq<string>, what: string, open: int, line: int, close: int): seq<Edit>
    requires lines != [] && -|lines| <= line < |lines|
  {
    var first, last := lines[0], LineAt(lines, line);
    if line == 0 then
      [Edit(0, UpTo(first, open + 1) + "(" + Slice(first, open + 1, close) + ") && " + what + From(first, close))]
    else
      [Edit(0, UpTo(first, open + 1) + "(" + From(first, open + 1)),
       Edit(line, UpTo(last, close) + " ) && " + what + ")" + From(last, close))]
  }

  /** The edits that put `what` at the beginning of the condition. */
  function InsertAtBeginning(lines: seq<string>, what: string, open: int, line: int, close: int): seq<Edit>
    requires lines != [] && -|lines| <= line < |lines|
  {
    var first, last := lines[0], LineAt(lines, line);
    if line == 0 then
      [Edit(0, UpTo(first, open + 1) + what + " && (" + Slice(first, open + 1, close) + ")" + From(first, close))]
    else
      [Edit(0, UpTo(first, open + 1) + what + " && (" + From(first, open + 1)), Edit(line, UpTo(last, close) + ")" + From(last, close))]
  }

  function Apply(lines: seq<string>, edits: seq<Edit>): seq<string>
    requires forall k :: 0 <= k < |edits| ==> 0 <= edits[k].line < |lines|
    decreases |edits|
  {
    if edits == [] then lines
    else
      var e := edits[0];
      assert forall k :: 0 <= k < |edits[1..]| ==> 0 <= edits[1..][k].line < |lines|;
      Apply(lines[e.line := e.content], edits[1..])
  }

  /** What stands before, between and after the two brackets. */
  function Before(lines: seq<string>, open: nat): string
    requires lines != [] && open < |lines[0]|
  {
    lines[0][..open]
  }

  function Between(lines: seq<string>, open: nat, line: nat, close: nat): string
    requires IsPosition(lines, open, line, close)
  {
    if line == 0 then lines[0][open + 1..close] else lines[0][open + 1..] + Join(lines[1..line]) + lines[line][..close]
  }

  function Behind(lines: seq<string>, line: nat, close: nat): string
    requires line < |lines| && close < |lines[line]|
  {
    lines[line][close + 1..] + Join(lines[line + 1..])
  }

  // regrouping of strings
  lemma Assoc(a: string, b: string, c: string)
    ensures (a + b) + c == a + (b + c)
  {}

  lemma Assoc4(a: string, b: string, c: string, d: string)
    ensures a + (b + (c + d)) == a + b + c + d
  {
    Assoc(a, b, c + d);
    Assoc(a + b, c, d);
  }

  lemma JoinAt(lines: seq<string>, k: nat)
    requires k < |lines|
    ensures Join(lines) == Join(lines[..k]) + (lines[k] + Join(lines[k + 1..]))
  {
    JoinSplits(lines, k);
    JoinHead(lines[k..]);
    assert lines[k..][1..] == lines[k + 1..];
  }

  lemma JoinTail(lines: seq<string>, line: nat)
    requires 0 < line < |lines|
    ensures Join(lines[1..]) == Join(lines[1..line]) + (lines[line] + Join(lines[line + 1..]))
  {
    var rest := lines[1..];
    assert rest[..line - 1] == lines[1..line] && rest[line - 1] == lines[line];
    assert rest[line..] == lines[line + 1..];
    JoinAt(rest, line - 1);
  }

  lemma JoinAround(lines: seq<string>, line: nat)
    requires 0 < line < |lines|
    ensures Join(lines) == lines[0] + Join(lines[1..line]) + lines[line] + Join(lines[line + 1..])
  {
    JoinHead(lines);
    JoinTail(lines, line);
    Assoc4(lines[0], Join(lines[1..line]), lines[line], Join(lines[line + 1..]));
  }

  lemma SplitAtOpening(first: string, open: nat)
    requires open < |first| && first[open] == '('
    ensures first == first[..open] + "(" + first[open + 1..] && first[..open + 1] == first[..open] + "("
  {}

  lemma SplitAtClosing(last: string, close: nat)
    requires close < |last| && last[close] == ')'
    ensures last == last[..close] + ")" + last[close + 1..] && last[close..] == ")" + last[close + 1..]
  {}

  lemma GroupOne(p: string, c: string, q: string, t: string)
    ensures (p + "(" + c + ")" + q) + t == p + ("(" + c + ")") + (q + t)
  {}

  lemma GroupTwo(p: string, f: string, mid: string, g: string, q: string, t: string)
    ensures (p + "(" + f) + mid + (g + ")" + q) + t == p + ("(" + (f + mid + g) + ")") + (q + t)
  {}

  /** The text around the two brackets. */
  lemma TextAround(lines: seq<string>, open: nat, line: nat, close: nat)
    requires IsPosition(lines, open, line, close)
    ensures Join(lines) == Before(lines, open) + ("(" + Between(lines, open, line, close) + ")") + Behind(lines, line, close)
  {
    var first, last := lines[0], lines[line];
    SplitAtOpening(first, open);
    SplitAtClosing(last, close);
    if line == 0 {
      JoinHead(lines);
      assert first == first[..open] + "(" + first[open + 1..close] + ")" + first[close + 1..];
      GroupOne(first[..open], first[open + 1..close], first[close + 1..], Join(lines[1..]));
    } else {
      JoinAround(lines, line);
      GroupTwo(first[..open], first[open + 1..], Join(lines[1..line]), last[..close], last[close + 1..], Join(lines[line + 1..]));
    }
  }

  /** First and last line replaced. */
  lemma TwoEdits(lines: seq<string>, line: nat, x: string, y: string)
    requires 0 < line < |lines|
    ensures Join(Apply(lines, [Edit(0, x), Edit(line, y)])) == x + Join(lines[1..line]) + y + Join(lines[line + 1..])
  {
    var edits := [Edit(0, x), Edit(line, y)];
    var l1 := lines[0 := x];
    var l2 := l1[line := y];
    assert edits[1..] == [Edit(line, y)] && edits[1..][1..] == [];
    assert Apply(l2, []) == l2;
    assert Apply(l1, [Edit(line, y)]) == l2;
    assert Apply(lines, edits) == l2;
    JoinAround(l2, line);
    assert l2[1..line] == lines[1..line] && l2[line + 1..] == lines[line + 1..];
  }

  lemma OneEdit(lines: seq<string>, x: string)
    requires lines != []
    ensures Join(Apply(lines, [Edit(0, x)])) == x + Join(lines[1..])
  {
    var edits := [Edit(0, x)];
    assert edits[1..] == [] && Apply(lines[0 := x], []) == lines[0 := x];
    JoinHead(lines[0 := x]);
    assert lines[0 := x][1..] == lines[1..];
  }

  lemma GroupBeginningOne(p: string, w: string, c: string, q: string, t: string)
    ensures ((p + "(") + w + " && (" + c + ")" + (")" + q)) + t == p + ("(" + (w + " && " + ("(" + c + ")")) + ")") + (q + t)
  {
    assert " && (" == " && " + "(";
    assert w + " && (" + c + ")" == w + " && " + ("(" + c + ")");
    GroupOne(p, w + " && (" + c + ")", q, t);
    assert (p + "(") + w + " && (" + c + ")" + (")" + q) == p + "(" + (w + " && (" + c + ")") + ")" + q;
  }

  lemma GroupBeginningTwo(p: string, w: string, f: string, mid: string, g: string, q: string, t: string)
    ensures ((p + "(") + w + " && (" + f) + mid + (g + ")" + (")" + q)) + t
      == p + ("(" + (w + " && " + ("(" + (f + mid + g) + ")")) + ")") + (q + t)
  {
    var h := w + " && (" + f;
    assert (p + "(") + w + " && (" + f == p + "(" + h;
    assert g + ")" + (")" + q) == (g + ")") + ")" + q;
    GroupTwo(p, h, mid, g + ")", q, t);
    assert h + mid + (g + ")") == w + " && " + ("(" + (f + mid + g) + ")") by {
      assert " && (" == " && " + "(";
    }
  }

  /** The text after insertion at the beginning. */
  lemma BeginningText(lines: seq<string>, what: string, open: nat, line: nat, close: nat)
    requires IsPosition(lines, open, line, close)
    ensures Join(Apply(lines, InsertAtBeginning(lines, what, open, line, close)))
      == Before(lines, open) + ("(" + (what + " && " + ("(" + Between(lines, open, line, close) + ")")) + ")") + Behind(lines, line, close)
  {
    var first, last := lines[0], lines[line];
    SplitAtOpening(first, open);
    SplitAtClosing(last, close);
    if line == 0 {
      OneEdit(lines, first[..open + 1] + what + " && (" + first[open + 1..close] + ")" + first[close..]);
      GroupBeginningOne(first[..open], what, first[open + 1..close], first[close + 1..], Join(lines[1..]));
    } else {
      TwoEdits(lines, line, first[..open + 1] + what + " && (" + first[open + 1..], last[..close] + ")" + last[close..]);
      GroupBeginningTwo(first[..open], what, first[open + 1..], Join(lines[1..line]), last[..close], last[close + 1..], Join(lines[line + 1..]));
    }
  }

  lemma GroupEndOne(p: string, w: string, c: string, q: string, t: string)
    ensures ((p + "(") + "(" + c + ") && " + w + (")" + q)) + t == p + ("(" + ("(" + c + ")" + (" && " + w)) + ")") + ("" + (q + t))
  {
    var h := "(" + c + ")" + (" && " + w);
    assert "(" + c + ") && " + w == h by {
      assert ") && " == ")" + " && ";
    }
    assert (p + "(") + "(" + c + ") && " + w + (")" + q) == p + "(" + ("(" + c + ") && " + w) + ")" + q;
    GroupOne(p, h, q, t);
    assert "" + (q + t) == q + t;
  }

  lemma GroupEndTwo(p: string, w: string, f: string, mid: string, g: string, q: string, t: string)
    ensures ((p + "(") + "(" + f) + mid + (g + " ) && " + w + ")" + (")" + q)) + t
      == p + ("(" + ("(" + ((f + mid + g) + " ") + ")" + (" && " + w)) + ")") + (")" + (q + t))
  {
    var h, k := "(" + f, g + " ) && " + w;
    assert (p + "(") + "(" + f == p + "(" + h;
    assert k + ")" + (")" + q) == k + ")" + (")" + q);
    GroupTwo(p, h, mid, k, ")" + q, t);
    assert h + mid + k == "(" + ((f + mid + g) + " ") + ")" + (" && " + w) by {
      assert " ) && " == " " + ")" + " && ";
    }
    assert (")" + q) + t == ")" + (q + t);
  }

  /** The text after insertion at the end: over several lines there is one more bracket behind the condition. */
  lemma EndText(lines: seq<string>, what: string, open: nat, line: nat, close: nat)
    requires IsPosition(lines, open, line, close)
    ensures var inner := if line == 0 then Between(lines, open, line, close) else Between(lines, open, line, close) + " ";
      Join(Apply(lines, InsertAtEnd(lines, what, open, line, close)))
      == Before(lines, open) + ("(" + ("(" + inner + ")" + (" && " + what)) + ")")
        + ((if line == 0 then "" else ")") + Behind(lines, line, close))
  {
    var first, last := lines[0], lines[line];
    SplitAtOpening(first, open);
    SplitAtClosing(last, close);
    if line == 0 {
      OneEdit(lines, first[..open + 1] + "(" + first[open + 1..close] + ") && " + what + first[close..]);
      GroupEndOne(first[..open], what, first[open + 1..close], first[close + 1..], Join(lines[1..]));
    } else {
      TwoEdits(lines, line, first[..open + 1] + "(" + first[open + 1..], last[..close] + " ) && " + what + ")" + last[close..]);
      GroupEndTwo(first[..open], what, first[open + 1..], Join(lines[1..line]), last[..close], last[close + 1..], Join(lines[line + 1..]));
    }
  }

  // ---- main results ----

  lemma {:induction false} PositiveUntilStop(text: string, pre: string, m: nat, n: nat)
    requires |pre| < n < m <= |text| && text[..|pre|] == pre && '(' !in pre && ')' !in pre && text[|pre|] == '('
    requires IsFirstStop(text, m)
    ensures Depth(text, n) > 0
    decreases n
  {
    DepthWithout(pre, |pre|);
    assert text == pre + text[|pre|..];
    DepthOfConcat(pre, text[|pre|..], |pre|);
    assert text[..n][|pre|] == '(';
    if n > |pre| + 1 {
      PositiveUntilStop(text, pre, m, n - 1);
    }
    assert !IsStop(text, n);
  }

  /** What the two searches find is a condition: its brackets match, provided no closing bracket comes first. */
  lemma FoundIsCondition(text: string, pre: string, cond: string, post: string)
    requires text == pre + ("(" + cond + ")") + post && '(' !in pre && ')' !in pre
    requires IsFirstStop(text, |pre| + |cond| + 2)
    ensures IsCondition(text, pre, cond, post)
  {
    var mid, m := "(" + cond + ")", |pre| + |cond| + 2;
    DepthWithout(pre, |pre|);
    assert Depth("(", 1) == 1 && Depth(")", 1) == -1;
    forall n | 0 <= n <= |cond|
      ensures Depth(text, |pre| + 1 + n) == 1 + Depth(cond, n)
    {
      DepthOfConcat(pre + mid, post, |pre| + 1 + n);
      DepthOfConcat(pre, mid, |pre| + 1 + n);
      DepthOfConcat("(" + cond, ")", 1 + n);
      DepthOfConcat("(", cond, 1 + n);
    }
    forall n | 0 <= n <= |cond|
      ensures Depth(cond, n) >= 0
    {
      PositiveUntilStop(text, pre, m, |pre| + 1 + n);
    }
    assert text[m - 1] == ')';
  }

  /** After an insertion, the condition is the old one in brackets together with what was inserted, and nothing else
      has changed. At the end of a condition over several lines, that fails: a bracket is left over behind it. */
  lemma InsertionIsExact(lines: seq<string>, what: string, open: nat, line: nat, close: nat)
    requires IsPosition(lines, open, line, close) && Balanced(what)
    requires IsCondition(Join(lines), Before(lines, open), Between(lines, open, line, close), Behind(lines, line, close))
    ensures IsCondition(Join(Apply(lines, InsertAtBeginning(lines, what, open, line, close))), Before(lines, open),
      what + " && " + ("(" + Between(lines, open, line, close) + ")"), Behind(lines, line, close))
    ensures var c := Between(lines, open, line, close);
      var now := Join(Apply(lines, InsertAtEnd(lines, what, open, line, close)));
      var inner := if line == 0 then c else c + " ";
      && (IsCondition(now, Before(lines, open), "(" + inner + ")" + (" && " + what), Behind(lines, line, close)) <==> line == 0)
      && (line > 0 ==> IsCondition(now, Before(lines, open), "(" + inner + ")" + (" && " + what), ")" + Behind(lines, line, close)))
  {
    var c := Between(lines, open, line, close);
    var inner := if line == 0 then c else c + " ";
    BeginningText(lines, what, open, line, close);
    EndText(lines, what, open, line, close);
    BalancedWithout(" && ");
    BalancedWithout(" ");
    BalancedConcat(what, " && ");
    BalancedConcat(" && ", what);
    BalancedInBrackets(c);
    BalancedConcat(what + " && ", "(" + c + ")");
    BalancedConcat(c, " ");
    BalancedInBrackets(inner);
    BalancedConcat("(" + inner + ")", " && " + what);
    if line == 0 {
      assert "" + Behind(lines, line, close) == Behind(lines, line, close);
    }
  }

  // ---- the searches together ----

  /** The first stop comes at a closing bracket, when no closing bracket comes before the first opening one. */
  lemma StopIsClosing(text: string, pre: string, n: nat)
    requires n <= |text| && |pre| < |text| && text[..|pre|] == pre && '(' !in pre && ')' !in pre && text[|pre|] == '('
    requires IsFirstStop(text, n)
    ensures n >= |pre| + 2 && text[n - 1] == ')'
  {
    DepthWithout(pre, |pre|);
    assert text == pre + text[|pre|..];
    DepthOfConcat(pre, text[|pre|..], |pre|);
    assert forall k :: 0 <= k < |pre| ==> text[k] == pre[k];
    var k :| 0 <= k < n && text[..n][k] == '(';
    assert k >= |pre|;
    if n > |pre| + 1 {
      PositiveUntilStop(text, pre, n, n - 1);
    }
  }

  /** A column of a line is a place in the joined text. */
  lemma PlaceInText(lines: seq<string>, line: nat, col: nat)
    requires line < |lines| && col < |lines[line]|
    ensures |Join(lines[..line])| + col < |Join(lines)| && Join(lines)[|Join(lines[..line])| + col] == lines[line][col]
  {
    JoinAt(lines, line);
  }

  /** The searches of gen_patch_for_if_while: they find the condition that begins at the first opening bracket, if there is
      one, if and only if no closing bracket stands before it; and what they then find is a condition. */
  method FindCondition(lines: seq<string>) returns (open: int, line: int, close: int)
    requires lines != []
    ensures open == -1 <==> '(' !in lines[0]
    ensures open != -1 ==> 0 <= open < |lines[0]|
    ensures line == -1 ==> close == -1 && forall n :: 0 <= n <= |Join(lines)| ==> !IsStop(Join(lines), n)
    ensures line != -1 ==> 0 <= line < |lines| && 0 <= close < |lines[line]|
    ensures open == -1 && line != -1 ==> line > 0
    ensures open != -1 ==> forall pre, cond, post :: IsCondition(Join(lines), pre, cond, post) ==>
      |pre| == open
      && (line != -1 && |Join(lines[..line])| + close == |pre| + |cond| + 1 <==> ')' !in pre)
    ensures open != -1 && line != -1 && ')' !in lines[0][..open] ==>
      IsPosition(lines, open, line, close)
      && IsCondition(Join(lines), Before(lines, open), Between(lines, open, line, close), Behind(lines, line, close))
  {
    open := FindOpening(lines[0]);
    line, close := FindClosing(lines);
    JoinHead(lines);
    if open == -1 {
      StopNeedsOpening(lines);
      assert lines[..0] == [];
      return;
    }
    forall pre, cond, post | IsCondition(Join(lines), pre, cond, post)
      ensures |pre| == open
      ensures line != -1 && |Join(lines[..line])| + close == |pre| + |cond| + 1 <==> ')' !in pre
    {
      ConditionPlace(lines, open, line, close, pre, cond, post);
    }
    if line != -1 && ')' !in lines[0][..open] {
      FoundPosition(lines, open, line, close);
    }
  }

  /** There is no stop in a first line without an opening bracket. */
  lemma StopNeedsOpening(lines: seq<string>)
    requires lines != [] && '(' !in lines[0]
    ensures forall n :: 0 <= n <= |lines[0]| ==> !IsStop(Join(lines), n)
  {
    JoinHead(lines);
    forall n | 0 <= n <= |lines[0]|
      ensures !IsStop(Join(lines), n)
    {
      assert Join(lines)[..n] == lines[0][..n];
    }
  }

  /** One closing bracket more than opening ones before the first opening one: the search stops at that bracket itself. */
  lemma StopsAtOpening(text: string, pre: string)
    requires |pre| < |text| && text[..|pre|] == pre && text[|pre|] == '(' && '(' !in pre
    ensures IsFirstStop(text, |pre| + 1) <==> Depth(pre, |pre|) == -1
  {
    var rest := text[|pre|..];
    assert text == pre + rest;
    DepthOfConcat(pre, rest, |pre|);
    assert text[..|pre| + 1][|pre|] == '(';
    forall n | 0 <= n <= |pre|
      ensures !IsStop(text, n)
    {
      assert text[..n] == pre[..n];
    }
  }

  lemma ConditionPlace(lines: seq<string>, open: nat, line: int, close: int, pre: string, cond: string, post: string)
    requires lines != [] && IsCondition(Join(lines), pre, cond, post)
    requires open < |lines[0]| && lines[0][open] == '(' && '(' !in lines[0][..open]
    requires line == -1 ==> forall n :: 0 <= n <= |Join(lines)| ==> !IsStop(Join(lines), n)
    requires line != -1 ==> 0 <= line < |lines| && 0 <= close < |lines[line]|
    requires line != -1 ==> IsFirstStop(Join(lines), |Join(lines[..line])| + close + 1)
    ensures |pre| == open
    ensures line != -1 && |Join(lines[..line])| + close == |pre| + |cond| + 1 <==> ')' !in pre
  {
    var text, m := Join(lines), |pre| + |cond| + 2;
    JoinHead(lines);
    assert text[|pre|] == '(' && text[open] == '(';
    assert forall k :: 0 <= k < |pre| ==> text[k] == pre[k];
    assert forall k :: 0 <= k < open ==> text[k] == lines[0][..open][k];
    ClosingIsFound(text, pre, cond, post);
    if ')' !in pre {
      assert IsStop(text, m);
      FirstStopIsUnique(text, m, |Join(lines[..line])| + close + 1);
    }
  }

  lemma FoundPosition(lines: seq<string>, open: nat, line: nat, close: nat)
    requires lines != [] && open < |lines[0]| && lines[0][open] == '(' && '(' !in lines[0][..open] && ')' !in lines[0][..open]
    requires line < |lines| && close < |lines[line]| && IsFirstStop(Join(lines), |Join(lines[..line])| + close + 1)
    ensures IsPosition(lines, open, line, close)
    ensures IsCondition(Join(lines), Before(lines, open), Between(lines, open, line, close), Behind(lines, line, close))
  {
    var text, pre, n := Join(lines), lines[0][..open], |Join(lines[..line])| + close + 1;
    JoinHead(lines);
    assert text[..open] == pre;
    StopIsClosing(text, pre, n);
    PlaceInText(lines, line, close);
    assert lines[..0] == [];
    TextAround(lines, open, line, close);
    LengthsOfText(lines, open, line, close);
    FoundIsCondition(text, Before(lines, open), Between(lines, open, line, close), Behind(lines, line, close));
  }

  lemma LengthsOfText(lines: seq<string>, open: nat, line: nat, close: nat)
    requires IsPosition(lines, open, line, close)
    ensures open + |Between(lines, open, line, close)| + 2 == |Join(lines[..line])| + close + 1
  {
    if line == 0 {
      assert lines[..0] == [];
    } else {
      JoinHead(lines[..line]);
      assert lines[..line][1..] == lines[1..line];
    }
  }
}
