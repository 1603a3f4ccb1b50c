/** Carrying out a patch on a file (patch_gen.py): the generated commands, one after the other, put the constraint into
    the condition on the fix line. */
module PatchFile {
  import opened SedCommand
  import opened ConditionPatch

  /** Lines as Python reads them. */
  function WithNewlines(lines: seq<string>): (r: seq<string>)
    ensures |r| == |lines| && forall k :: 0 <= k < |lines| ==> r[k] == lines[k] + "\n"
  {
    seq(|lines|, k requires 0 <= k < |lines| => lines[k] + "\n")
  }

  ghost predicate NoNewlines(lines: seq<string>) {
    forall k :: 0 <= k < |lines| ==> '\n' !in lines[k]
  }

  /** One line with its newline. */
  ghost predicate IsLine(s: string) {
    s != "" && s[|s| - 1] == '\n' && '\n' !in s[..|s| - 1]
  }

  /** The commands for some edits, relative to the fix line, on a file. A refused command leaves the file as it is. */
  function RunEdits(edits: seq<Edit>, fix: nat, path: string, lines: seq<string>): seq<string>
    requires forall k :: 0 <= k < |edits| ==> fix + edits[k].line >= 0
  {
    if edits == [] then lines
    else
      assert forall k :: 0 <= k < |edits[1..]| ==> fix + edits[1..][k].line >= 0;
      match Execute(Command(fix + edits[0].line, edits[0].content, path), path, lines)
      case None => RunEdits(edits[1..], fix, path, lines)
      case Some(next) => RunEdits(edits[1..], fix, path, next)
  }

  /** What one command for a line with its newline does: an edit of line 0, or behind the file, does nothing. */
  lemma CommandForLine(n: nat, content: string, path: string, lines: seq<string>)
    requires IsPath(path) && IsLine(content)
    ensures Execute(Command(n, content, path), path, lines)
      == if n == 0 then None else Some(if n <= |lines| then lines[n - 1 := content[..|content| - 1]] else lines)
  {
    StripLine(content);
    CommandReplacesLine(n, content, path, lines);
  }

  lemma StripLine(s: string)
    requires IsLine(s)
    ensures Strip(s) == s[..|s| - 1]
  {
    var body := s[..|s| - 1];
    if body == "" {
      assert s[1..] == "" && StripLeft(s) == StripLeft(s[1..]);
    } else {
      assert s[0] == body[0] && body[0] in body;
      assert body[|body| - 1] in body;
      assert StripLeft(s) == s && StripRight(body) == body;
      assert StripRight(s) == StripRight(body);
    }
  }

  /** A file after one edit: nothing for line 0 and behind the file. */
  function Landed(e: Edit, fix: nat, lines: seq<string>): (r: seq<string>)
    requires e.content != ""
    ensures |r| == |lines|
  {
    if 1 <= fix + e.line <= |lines| then lines[fix + e.line - 1 := e.content[..|e.content| - 1]] else lines
  }

  ghost predicate AreLines(edits: seq<Edit>, fix: nat) {
    forall k :: 0 <= k < |edits| ==> fix + edits[k].line >= 0 && IsLine(edits[k].content)
  }

  function AllLanded(edits: seq<Edit>, fix: nat, lines: seq<string>): (r: seq<string>)
    requires forall k :: 0 <= k < |edits| ==> edits[k].content != ""
    ensures |r| == |lines|
  {
    if edits == [] then lines else AllLanded(edits[1..], fix, Landed(edits[0], fix, lines))
  }

  /** The commands do the edits. */
  lemma {:induction false} EditsLand(edits: seq<Edit>, fix: nat, path: string, lines: seq<string>)
    requires IsPath(path) && AreLines(edits, fix)
    ensures RunEdits(edits, fix, path, lines) == AllLanded(edits, fix, lines)
    decreases |edits|
  {
    if edits != [] {
      var e := edits[0];
      CommandForLine(fix + e.line, e.content, path, lines);
      EditsLand(edits[1..], fix, path, Landed(e, fix, lines));
    }
  }

  lemma {:induction false} LandedAppear(edits: seq<Edit>, fix: nat, lines: seq<string>)
    requires 1 <= fix <= |lines| && AreLines(edits, fix)
    requires forall k :: 0 <= k < |edits| ==> edits[k].content != ""
    requires forall k :: 0 <= k < |edits| ==> 0 <= edits[k].line < |lines| - (fix - 1)
    ensures var r := AllLanded(edits, fix, lines);
      r[..fix - 1] == lines[..fix - 1] && WithNewlines(r[fix - 1..]) == Apply(WithNewlines(lines[fix - 1..]), edits)
    decreases |edits|
  {
    if edits != [] {
      var e := edits[0];
      var body := e.content[..|e.content| - 1];
      var next := Landed(e, fix, lines);
      assert e.content == body + "\n";
      assert WithNewlines(next[fix - 1..]) == WithNewlines(lines[fix - 1..])[e.line := e.content];
      assert next[..fix - 1] == lines[..fix - 1];
      LandedAppear(edits[1..], fix, next);
    }
  }

  /** The edits appear in the file, line for line, and nothing before the fix line changes. */
  lemma EditsAppear(edits: seq<Edit>, fix: nat, path: string, lines: seq<string>)
    requires IsPath(path) && 1 <= fix <= |lines|
    requires forall k :: 0 <= k < |edits| ==> 0 <= edits[k].line < |lines| - (fix - 1) && IsLine(edits[k].content)
    ensures var r := RunEdits(edits, fix, path, lines);
      && |r| == |lines| && r[..fix - 1] == lines[..fix - 1]
      && WithNewlines(r[fix - 1..]) == Apply(WithNewlines(lines[fix - 1..]), edits)
  {
    EditsLand(edits, fix, path, lines);
    LandedAppear(edits, fix, lines);
  }

  lemma LineParts(s: string, k: nat)
    requires IsLine(s) && k < |s| && s[k] != '\n'
    ensures '\n' !in s[..k] && '\n' !in s[..k + 1] && IsLine(s[k..]) && IsLine(s[k + 1..])
  {
    var body := s[..|s| - 1];
    assert s[..k] == body[..k] && s[..k + 1] == body[..k + 1];
    assert s[k..][..|s| - k - 1] == body[k..];
    assert s[k + 1..][..|s| - k - 2] == body[k + 1..];
  }

  lemma LineFrom(a: string, s: string)
    requires '\n' !in a && IsLine(s)
    ensures IsLine(a + s)
  {
    assert (a + s)[..|a + s| - 1] == a + s[..|s| - 1];
  }

  lemma OneLineInsertions(first: string, what: string, open: nat, close: nat)
    requires open < close < |first| && first[open] == '(' && first[close] == ')' && IsLine(first) && '\n' !in what
    ensures IsLine(first[..open + 1] + what + " && (" + first[open + 1..close] + ")" + first[close..])
    ensures IsLine(first[..open + 1] + "(" + first[open + 1..close] + ") && " + what + first[close..])
  {
    var mid := first[open + 1..close];
    LineParts(first, open);
    LineParts(first, close);
    assert mid == first[..close][open + 1..];
    LineFrom(first[..open + 1] + what + " && (" + mid + ")", first[close..]);
    LineFrom(first[..open + 1] + "(" + mid + ") && " + what, first[close..]);
  }

  lemma TwoLineInsertions(first: string, last: string, what: string, open: nat, close: nat)
    requires open < |first| && close < |last| && first[open] == '(' && last[close] == ')'
    requires IsLine(first) && IsLine(last) && '\n' !in what
    ensures IsLine(first[..open + 1] + what + " && (" + first[open + 1..]) && IsLine(last[..close] + ")" + last[close..])
    ensures IsLine(first[..open + 1] + "(" + first[open + 1..]) && IsLine(last[..close] + " ) && " + what + ")" + last[close..])
  {
    LineParts(first, open);
    LineParts(last, close);
    LineFrom(first[..open + 1] + what + " && (", first[open + 1..]);
    LineFrom(first[..open + 1] + "(", first[open + 1..]);
    LineFrom(last[..close] + ")", last[close..]);
    LineFrom(last[..close] + " ) && " + what + ")", last[close..]);
  }

  /** The edits of an insertion are lines. */
  lemma InsertionsAreLines(lines: seq<string>, what: string, open: nat, line: nat, close: nat)
    requires IsPosition(lines, open, line, close) && IsLine(lines[0]) && IsLine(lines[line]) && '\n' !in what
    ensures forall e :: e in InsertAtBeginning(lines, what, open, line, close) ==> IsLine(e.content) && 0 <= e.line < |lines|
    ensures forall e :: e in InsertAtEnd(lines, what, open, line, close) ==> IsLine(e.content) && 0 <= e.line < |lines|
  {
    if line == 0 {
      OneLineInsertions(lines[0], what, open, close);
    } else {
      TwoLineInsertions(lines[0], lines[line], what, open, close);
    }
  }

  /** The text of a file from a line on. */
  function TextFrom(lines: seq<string>, fix: nat): string
    requires 1 <= fix <= |lines|
  {
    Join(WithNewlines(lines[fix - 1..]))
  }

  /** Carrying out a patch: the commands run, lines before the fix line stay, and from the fix line on the condition is the
      old one with the constraint, and the rest is unchanged. At the end of a condition over several lines one closing
      bracket is left over. */
  lemma PatchedFile(lines: seq<string>, fix: nat, path: string, what: string, open: nat, line: nat, close: nat)
    requires IsPath(path) && 1 <= fix <= |lines| && NoNewlines(lines) && '\n' !in what && Balanced(what)
    requires var t := WithNewlines(lines[fix - 1..]);
      IsPosition(t, open, line, close) && IsCondition(Join(t), Before(t, open), Between(t, open, line, close), Behind(t, line, close))
    ensures var t := WithNewlines(lines[fix - 1..]);
      var c := Between(t, open, line, close);
      var r := RunEdits(InsertAtBeginning(t, what, open, line, close), fix, path, lines);
      && |r| == |lines| && r[..fix - 1] == lines[..fix - 1]
      && IsCondition(TextFrom(r, fix), Before(t, open), what + " && " + ("(" + c + ")"), Behind(t, line, close))
    ensures var t := WithNewlines(lines[fix - 1..]);
      var c := Between(t, open, line, close);
      var r := RunEdits(InsertAtEnd(t, what, open, line, close), fix, path, lines);
      && |r| == |lines| && r[..fix - 1] == lines[..fix - 1]
      && IsCondition(TextFrom(r, fix), Before(t, open), "(" + (if line == 0 then c else c + " ") + ")" + (" && " + what),
           (if line == 0 then "" else ")") + Behind(t, line, close))
  {
    var t := WithNewlines(lines[fix - 1..]);
    LinesAreLines(lines[fix - 1..]);
    InsertionsAreLines(t, what, open, line, close);
    EditsAppear(InsertAtBeginning(t, what, open, line, close), fix, path, lines);
    EditsAppear(InsertAtEnd(t, what, open, line, close), fix, path, lines);
    InsertionIsExact(t, what, open, line, close);
    assert "" + Behind(t, line, close) == Behind(t, line, close);
  }

  lemma LinesAreLines(lines: seq<string>)
    requires NoNewlines(lines)
    ensures forall k :: 0 <= k < |lines| ==> IsLine(WithNewlines(lines)[k])
  {
    forall k | 0 <= k < |lines|
      ensures IsLine(WithNewlines(lines)[k])
    {
      assert (lines[k] + "\n")[..|lines[k]|] == lines[k];
    }
  }

  // ---- every outcome of the searches, condition or not ----

  /** A file with the fix line replaced, and the line `line` lines further on, if there is one. */
  function TwoReplaced(lines: seq<string>, fix: nat, line: int, head: string, tail: string): (r: seq<string>)
    requires 1 <= fix <= |lines|
  {
    if 1 <= fix + line <= |lines| then lines[fix - 1 := head][fix + line - 1 := tail] else lines[fix - 1 := head]
  }

  lemma TwoLandings(fix: nat, lines: seq<string>, x: Edit, y: Edit)
    requires x.content != "" && y.content != ""
    ensures AllLanded([x, y], fix, lines) == Landed(y, fix, Landed(x, fix, lines))
  {
    var edits := [x, y];
    assert edits[1..] == [y] && edits[1..][1..] == [];
    assert AllLanded(edits[1..], fix, Landed(x, fix, lines)) == AllLanded([], fix, Landed(y, fix, Landed(x, fix, lines)));
  }

  lemma TwoLinesLand(fix: nat, path: string, lines: seq<string>, line: int, head: string, tail: string)
    requires IsPath(path) && 1 <= fix <= |lines| && fix + line >= 0 && '\n' !in head && '\n' !in tail
    ensures RunEdits([Edit(0, head + "\n"), Edit(line, tail + "\n")], fix, path, lines) == TwoReplaced(lines, fix, line, head, tail)
  {
    var x, y := Edit(0, head + "\n"), Edit(line, tail + "\n");
    assert x.content[..|head|] == head && y.content[..|tail|] == tail;
    EditsLand([x, y], fix, path, lines);
    TwoLandings(fix, lines, x, y);
  }

  lemma OneLineLands(fix: nat, path: string, lines: seq<string>, head: string)
    requires IsPath(path) && 1 <= fix <= |lines| && '\n' !in head
    ensures RunEdits([Edit(0, head + "\n")], fix, path, lines) == lines[fix - 1 := head]
  {
    var x := Edit(0, head + "\n");
    assert x.content[..|head|] == head && [x][1..] == [];
    EditsLand([x], fix, path, lines);
    assert AllLanded([x], fix, lines) == AllLanded([], fix, Landed(x, fix, lines));
  }

  /** Slices of a line, its newline at the end. */
  lemma CutBeforeNewline(s: string, k: int)
    requires '\n' !in s && 0 <= k <= |s|
    ensures UpTo(s + "\n", k) == s[..k] && From(s + "\n", k) == s[k..] + "\n"
    ensures '\n' !in s[..k] && '\n' !in s[k..]
  {}

  lemma CutLast(s: string)
    requires '\n' !in s
    ensures UpTo(s + "\n", -1) == s && From(s + "\n", -1) == "\n"
  {}

  lemma EndEdits(t: seq<string>, what: string, open: int, line: int, close: int, a: string, c: string, d: string, e: string)
    requires t != [] && -|t| <= line < |t| && line != 0
    requires UpTo(t[0], open + 1) == a && From(t[0], open + 1) == c + "\n"
    requires UpTo(LineAt(t, line), close) == d && From(LineAt(t, line), close) == e + "\n"
    ensures InsertAtEnd(t, what, open, line, close)
      == [Edit(0, (a + "(" + c) + "\n"), Edit(line, (d + " ) && " + what + ")" + e) + "\n")]
  {
    assert a + "(" + (c + "\n") == (a + "(" + c) + "\n";
    assert d + " ) && " + what + ")" + (e + "\n") == (d + " ) && " + what + ")" + e) + "\n";
  }

  lemma BeginningEdits(t: seq<string>, what: string, open: int, line: int, close: int, a: string, c: string, d: string, e: string)
    requires t != [] && -|t| <= line < |t| && line != 0
    requires UpTo(t[0], open + 1) == a && From(t[0], open + 1) == c + "\n"
    requires UpTo(LineAt(t, line), close) == d && From(LineAt(t, line), close) == e + "\n"
    ensures InsertAtBeginning(t, what, open, line, close)
      == [Edit(0, (a + what + " && (" + c) + "\n"), Edit(line, (d + ")" + e) + "\n")]
  {
    assert a + what + " && (" + (c + "\n") == (a + what + " && (" + c) + "\n";
    assert d + ")" + (e + "\n") == (d + ")" + e) + "\n";
  }

  /** A closing position on a later line, whatever brackets stand before, and with or without an opening bracket on the fix
      line (-1): the two lines get their parts, cut exactly there. */
  lemma LaterLinePatched(lines: seq<string>, fix: nat, path: string, what: string, open: int, line: nat, close: nat)
    requires IsPath(path) && 1 <= fix <= |lines| && NoNewlines(lines) && '\n' !in what && -1 <= open < |lines[fix - 1]|
    requires 0 < line && fix - 1 + line < |lines| && close < |lines[fix - 1 + line]|
    ensures var t, first, last := WithNewlines(lines[fix - 1..]), lines[fix - 1], lines[fix - 1 + line];
      && RunEdits(InsertAtEnd(t, what, open, line, close), fix, path, lines)
        == TwoReplaced(lines, fix, line, first[..open + 1] + "(" + first[open + 1..],
             last[..close] + " ) && " + what + ")" + last[close..])
      && RunEdits(InsertAtBeginning(t, what, open, line, close), fix, path, lines)
        == TwoReplaced(lines, fix, line, first[..open + 1] + what + " && (" + first[open + 1..],
             last[..close] + ")" + last[close..])
  {
    var t, first, last := WithNewlines(lines[fix - 1..]), lines[fix - 1], lines[fix - 1 + line];
    assert t[0] == first + "\n" && LineAt(t, line) == last + "\n";
    var a, c, d, e := first[..open + 1], first[open + 1..], last[..close], last[close..];
    CutBeforeNewline(first, open + 1);
    CutBeforeNewline(last, close);
    EndEdits(t, what, open, line, close, a, c, d, e);
    TwoLinesLand(fix, path, lines, line, a + "(" + c, d + " ) && " + what + ")" + e);
    BeginningEdits(t, what, open, line, close, a, c, d, e);
    TwoLinesLand(fix, path, lines, line, a + what + " && (" + c, d + ")" + e);
  }

  /** A closing position on the fix line, before or behind the opening bracket: between the two cuts stands what lies
      between the positions, which is nothing when the closing position comes first. */
  lemma FixLinePatched(lines: seq<string>, fix: nat, path: string, what: string, open: int, close: nat)
    requires IsPath(path) && 1 <= fix <= |lines| && NoNewlines(lines) && '\n' !in what
    requires -1 <= open < |lines[fix - 1]| && close < |lines[fix - 1]|
    ensures var t, first := WithNewlines(lines[fix - 1..]), lines[fix - 1];
      var between := if open + 1 <= close then first[open + 1..close] else "";
      && RunEdits(InsertAtEnd(t, what, open, 0, close), fix, path, lines)
        == lines[fix - 1 := first[..open + 1] + "(" + between + ") && " + what + first[close..]]
      && RunEdits(InsertAtBeginning(t, what, open, 0, close), fix, path, lines)
        == lines[fix - 1 := first[..open + 1] + what + " && (" + between + ")" + first[close..]]
  {
    var t, first := WithNewlines(lines[fix - 1..]), lines[fix - 1];
    var between := if open + 1 <= close then first[open + 1..close] else "";
    assert t[0] == first + "\n" && LineAt(t, 0) == first + "\n";
    var a, e := first[..open + 1], first[close..];
    CutBeforeNewline(first, open + 1);
    CutBeforeNewline(first, close);
    assert Slice(t[0], open + 1, close) == between && '\n' !in between;
    assert a + "(" + between + ") && " + what + (e + "\n") == (a + "(" + between + ") && " + what + e) + "\n";
    OneLineLands(fix, path, lines, a + "(" + between + ") && " + what + e);
    assert a + what + " && (" + between + ")" + (e + "\n") == (a + what + " && (" + between + ")" + e) + "\n";
    OneLineLands(fix, path, lines, a + what + " && (" + between + ")" + e);
  }

  /** When the search for the closing bracket fails, line and column -1 stand for the last line of the file and its newline,
      but the command goes to the line before the fix line. The constraint is put in front of, or behind, nothing: the fix
      line keeps an opened condition, and the last line of the file, with the rest of the insertion, takes the place of
      the line before the fix line. For a fix on the first line that second command is refused. */
  lemma FailedSearchDamages(lines: seq<string>, fix: nat, path: string, what: string, open: int)
    requires IsPath(path) && 1 <= fix <= |lines| && NoNewlines(lines) && '\n' !in what && -1 <= open < |lines[fix - 1]|
    ensures var t, first, last := WithNewlines(lines[fix - 1..]), lines[fix - 1], lines[|lines| - 1];
      && RunEdits(InsertAtEnd(t, what, open, -1, -1), fix, path, lines)
        == TwoReplaced(lines, fix, -1, first[..open + 1] + "(" + first[open + 1..], last + " ) && " + what + ")" + "")
      && RunEdits(InsertAtBeginning(t, what, open, -1, -1), fix, path, lines)
        == TwoReplaced(lines, fix, -1, first[..open + 1] + what + " && (" + first[open + 1..], last + ")" + "")
  {
    var t, first, last := WithNewlines(lines[fix - 1..]), lines[fix - 1], lines[|lines| - 1];
    assert t[0] == first + "\n" && LineAt(t, -1) == last + "\n" && "" + "\n" == "\n";
    var a, c := first[..open + 1], first[open + 1..];
    CutBeforeNewline(first, open + 1);
    CutLast(last);
    EndEdits(t, what, open, -1, -1, a, c, last, "");
    TwoLinesLand(fix, path, lines, -1, a + "(" + c, last + " ) && " + what + ")" + "");
    BeginningEdits(t, what, open, -1, -1, a, c, last, "");
    TwoLinesLand(fix, path, lines, -1, a + what + " && (" + c, last + ")" + "");
  }
}
