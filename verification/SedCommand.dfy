/** The sed command that replaces one line of a file (patch_gen.py), and how the shell and sed read it. */
module SedCommand {

  datatype Option<T> = None | Some(value: T)

  // ---- the printer ----

  /** str.replace with a single character to look for. */
  function Replace(s: string, c: char, with: string): string {
    if s == "" then "" else (if s[0] == c then with else [s[0]]) + Replace(s[1..], c, with)
  }

  function StripLeft(s: string): string {
    if s != "" && s[0] == '\n' then StripLeft(s[1..]) else s
  }

  function StripRight(s: string): string {
    if s != "" && s[|s| - 1] == '\n' then StripRight(s[..|s| - 1]) else s
  }

  /** str.strip with a newline. */
  function Strip(s: string): string {
    StripRight(StripLeft(s))
  }

  function Decimal(n: nat): (r: string)
    ensures r != "" && forall k :: 0 <= k < |r| ==> IsDigit(r[k])
  {
    if n < 10 then [DigitOf(n)] else Decimal(n / 10) + [DigitOf(n % 10)]
  }

  predicate IsDigit(c: char) { '0' <= c <= '9' }

  function DigitOf(d: nat): (c: char)
    requires d < 10
    ensures IsDigit(c) && c as int - '0' as int == d
  {
    '0' + d as char
  }

  /** Escapes for sed, then for the shell's single quotes, in this order. */
  function SedEscape(s: string): string {
    Replace(Replace(Replace(s, '\\', "\\\\"), '/', "\\/"), '&', "\\&")
  }

  function QuoteEscape(s: string): string {
    Replace(s, '\'', "'\\''")
  }

  function Command(line: nat, content: string, path: string): string {
    "sed -i '" + Decimal(line) + "s/^.*$/" + QuoteEscape(SedEscape(Strip(content))) + "/' " + path
  }

  // ---- the shell: quoting, section 2.2 of the POSIX Shell Command Language ----

  /** Characters that stand for themselves outside quotes. */
  predicate IsPlain(c: char) {
    ('a' <= c <= 'z') || ('A' <= c <= 'Z') || IsDigit(c) || c in {'-', '_', '.', '/', '+', ',', '@', ':', '%'}
  }

  /** The words of a command line; `word` is the one being read, if any. Nothing for an open quote, or for a
      character with a meaning outside this model. */
  function ShellWords(s: string, quoted: bool, word: Option<string>): Option<seq<string>> {
    var sofar := if word.Some? then word.value else "";
    if s == "" then
      if quoted then None else Some(if word.Some? then [word.value] else [])
    else if quoted then
      if s[0] == '\'' then ShellWords(s[1..], false, Some(sofar)) else ShellWords(s[1..], true, Some(sofar + [s[0]]))
    else if s[0] == '\'' then ShellWords(s[1..], true, Some(sofar))
    else if s[0] == '\\' then
      if |s| < 2 || s[1] == '\n' then None else ShellWords(s[2..], false, Some(sofar + [s[1]]))
    else if s[0] == ' ' then
      var rest := ShellWords(s[1..], false, None);
      if rest.Some? && word.Some? then Some([word.value] + rest.value) else rest
    else if IsPlain(s[0]) then ShellWords(s[1..], false, Some(sofar + [s[0]]))
    else None
  }

  // ---- sed: addresses and the s command ----

  /** A replacement: characters, the matched text, and escapes that mean something else. */
  datatype Piece = Literal(c: char) | Match | Special(c: char)

  datatype Replacement = Replacement(pieces: seq<Piece>, rest: string)

  /** Backslash before a letter or a digit is a special escape; before a newline and everything else it makes the
      character literal. */
  predicate IsSpecial(c: char) {
    ('a' <= c <= 'z') || ('A' <= c <= 'Z') || IsDigit(c)
  }

  /** Reads a replacement up to the delimiter; nothing when it is not terminated on the line. */
  function ReadReplacement(s: string): Option<Replacement> {
    if s == "" || s[0] == '\n' then None
    else if s[0] == '/' then Some(Replacement([], s[1..]))
    else if s[0] == '\\' then
      if |s| < 2 then None
      else
        var r := ReadReplacement(s[2..]);
        if r.None? then None
        else Some(r.value.(pieces := [if IsSpecial(s[1]) then Special(s[1]) else Literal(s[1])] + r.value.pieces))
    else
      var r := ReadReplacement(s[1..]);
      if r.None? then None
      else Some(r.value.(pieces := [if s[0] == '&' then Match else Literal(s[0])] + r.value.pieces))
  }

  /** The text of a regular expression up to the delimiter, and what follows. */
  datatype Regex = Regex(text: string, rest: string)

  function ReadRegex(s: string): Option<Regex> {
    if s == "" || s[0] == '\n' then None
    else if s[0] == '/' then Some(Regex("", s[1..]))
    else if s[0] == '\\' then
      if |s| < 2 then None
      else
        var r := ReadRegex(s[2..]);
        if r.None? then None else Some(r.value.(text := s[..2] + r.value.text))
    else
      var r := ReadRegex(s[1..]);
      if r.None? then None else Some(r.value.(text := s[..1] + r.value.text))
  }

  datatype Address = Address(line: nat, rest: string)

  function ReadAddress(s: string, sofar: nat): Address {
    if s != "" && IsDigit(s[0]) then ReadAddress(s[1..], 10 * sofar + (s[0] as int - '0' as int)) else Address(sofar, s)
  }

  /** One s command for one line; nothing for a script that sed refuses. Line 0 is refused. */
  datatype Script = Substitute(line: nat, regex: string, pieces: seq<Piece>)

  function ReadScript(s: string): Option<Script> {
    var a := ReadAddress(s, 0);
    if a.line == 0 || |a.rest| < 2 || a.rest[..2] != "s/" then None
    else
      var x := ReadRegex(a.rest[2..]);
      if x.None? then None
      else
        var p := ReadReplacement(x.value.rest);
        if p.None? || p.value.rest != "" then None else Some(Substitute(a.line, x.value.text, p.value.pieces))
  }

  /** The text put in place of a matched text. */
  function Expand(pieces: seq<Piece>, matched: string): Option<string> {
    if pieces == [] then Some("")
    else
      var rest := Expand(pieces[1..], matched);
      if rest.None? || pieces[0].Special? then None
      else Some((if pieces[0].Match? then matched else [pieces[0].c]) + rest.value)
  }

  /** sed -i with such a script; the regular expression ^.*$ matches a whole line. */
  function RunSed(words: seq<string>, path: string, lines: seq<string>): Option<seq<string>> {
    if |words| != 4 || words[0] != "sed" || words[1] != "-i" || words[3] != path then None
    else
      var x := ReadScript(words[2]);
      if x.None? || x.value.regex != "^.*$" then None
      else if x.value.line > |lines| then Some(lines)
      else
        var text := Expand(x.value.pieces, lines[x.value.line - 1]);
        if text.None? then None else Some(lines[x.value.line - 1 := text.value])
  }

  /** The command as the shell and sed carry it out on a file. */
  function Execute(command: string, path: string, lines: seq<string>): Option<seq<string>> {
    var words := ShellWords(command, false, None);
    if words.None? then None else RunSed(words.value, path, lines)
  }

  // ---- single quotes ----

  /** Inside quotes, the escaped text is read as the text. */
  lemma {:induction false} QuotedTextIsRead(t: string, rest: string, word: string)
    ensures ShellWords(QuoteEscape(t) + rest, true, Some(word)) == ShellWords(rest, true, Some(word + t))
    decreases t
  {
    var q := "'\\''";
    if t == "" {
      assert QuoteEscape(t) + rest == rest && word + t == word;
    } else {
      var tail := QuoteEscape(t[1..]) + rest;
      QuotedTextIsRead(t[1..], rest, word + [t[0]]);
      assert (word + [t[0]]) + t[1..] == word + t;
      if t[0] == '\'' {
        assert QuoteEscape(t) + rest == q + tail;
        QuoteIsRead(tail, word);
      } else {
        var s := QuoteEscape(t) + rest;
        assert s == [t[0]] + tail;
        assert s[1..] == tail;
      }
    }
  }

  lemma QuoteIsRead(tail: string, word: string)
    ensures ShellWords("'\\''" + tail, true, Some(word)) == ShellWords(tail, true, Some(word + ['\'']))
  {
    var s := "'\\''" + tail;
    assert s[1..] == "\\''" + tail;
    assert s[1..][2..] == "'" + tail;
    assert s[1..][2..][1..] == tail;
    assert ShellWords(s, true, Some(word)) == ShellWords(s[1..], false, Some(word));
    assert ShellWords(s[1..], false, Some(word)) == ShellWords(s[1..][2..], false, Some(word + ['\'']));
  }

  /** Outside quotes, plain characters are read as they are. */
  lemma {:induction false} PlainTextIsRead(t: string, rest: string, word: string)
    requires forall k :: 0 <= k < |t| ==> IsPlain(t[k])
    ensures ShellWords(t + rest, false, Some(word)) == ShellWords(rest, false, Some(word + t))
    decreases t
  {
    if t == "" {
      assert t + rest == rest && word + t == word;
    } else {
      assert IsPlain(t[0]);
      assert (t + rest)[1..] == t[1..] + rest;
      PlainTextIsRead(t[1..], rest, word + [t[0]]);
      assert (word + [t[0]]) + t[1..] == word + t;
    }
  }

  lemma {:induction false} ReplaceConcat(a: string, b: string, c: char, with: string)
    ensures Replace(a + b, c, with) == Replace(a, c, with) + Replace(b, c, with)
    decreases a
  {
    if a == "" {
      assert a + b == b;
    } else {
      assert (a + b)[1..] == a[1..] + b;
      ReplaceConcat(a[1..], b, c, with);
    }
  }

  lemma {:induction false} ReplaceAbsent(a: string, c: char, with: string)
    requires c !in a
    ensures Replace(a, c, with) == a
    decreases a
  {
    if a != "" {
      ReplaceAbsent(a[1..], c, with);
      assert a == [a[0]] + a[1..];
    }
  }

  // ---- the words ----

  predicate IsPath(path: string) {
    path != "" && forall k :: 0 <= k < |path| ==> IsPlain(path[k])
  }

  function ScriptText(line: nat, text: string): string {
    Decimal(line) + ("s/^.*$/" + (SedEscape(text) + "/"))
  }

  lemma DecimalHasNoQuote(line: nat)
    ensures '\'' !in Decimal(line)
  {
    assert !IsDigit('\'');
  }

  lemma QuoteParts(d: string, m: string, e: string, z: string)
    requires '\'' !in d && '\'' !in m && '\'' !in z
    ensures QuoteEscape(d + (m + (e + z))) == d + (m + (QuoteEscape(e) + z))
  {
    var with := "'\\''";
    ReplaceConcat(d, m + (e + z), '\'', with);
    ReplaceConcat(m, e + z, '\'', with);
    ReplaceConcat(e, z, '\'', with);
    ReplaceAbsent(d, '\'', with);
    ReplaceAbsent(m, '\'', with);
    ReplaceAbsent(z, '\'', with);
  }

  /** The escaped text in the command is the quoted form of the whole script. */
  lemma ScriptIsQuoted(line: nat, content: string, path: string)
    ensures Command(line, content, path) == "sed -i '" + (QuoteEscape(ScriptText(line, Strip(content))) + ("' " + path))
  {
    var d, m, e := Decimal(line), "s/^.*$/", SedEscape(Strip(content));
    DecimalHasNoQuote(line);
    QuoteParts(d, m, e, "/");
    Regroup("sed -i '", d, m, QuoteEscape(e), path);
  }

  lemma Regroup(a: string, d: string, m: string, q: string, path: string)
    ensures a + d + m + q + "/' " + path == a + ((d + (m + (q + "/"))) + ("' " + path))
  {
    assert "/' " == "/" + "' ";
  }

  /** A word up to a space. */
  lemma WordIsRead(t: string, rest: string)
    requires IsPath(t)
    ensures var r := ShellWords(rest, false, None);
      ShellWords(t + (" " + rest), false, None) == if r.Some? then Some([t] + r.value) else None
  {
    var s := t + (" " + rest);
    assert IsPlain(t[0]) && s[0] == t[0] && s[1..] == t[1..] + (" " + rest);
    PlainTextIsRead(t[1..], " " + rest, [t[0]]);
    assert [t[0]] + t[1..] == t && (" " + rest)[1..] == rest && "" + [t[0]] == [t[0]];
  }

  lemma LastWordIsRead(t: string)
    requires IsPath(t)
    ensures ShellWords(t, false, None) == Some([t])
  {
    assert IsPlain(t[0]) && t == t[..1] + t[1..];
    PlainTextIsRead(t[1..], "", [t[0]]);
    assert t[1..] + "" == t[1..] && [t[0]] + t[1..] == t && "" + [t[0]] == [t[0]];
  }

  lemma QuotedWordIsRead(t: string, path: string)
    requires IsPath(path)
    ensures ShellWords("'" + (QuoteEscape(t) + ("' " + path)), false, None) == Some([t, path])
  {
    var s := "'" + (QuoteEscape(t) + ("' " + path));
    assert s[1..] == QuoteEscape(t) + ("' " + path);
    QuotedTextIsRead(t, "' " + path, "");
    assert "" + t == t;
    var u := "' " + path;
    assert u[1..] == " " + path && u[1..][1..] == path;
    LastWordIsRead(path);
    assert ShellWords(u, true, Some(t)) == ShellWords(u[1..], false, Some(t));
    assert [t] + [path] == [t, path];
  }

  /** The shell reads the command as four words, for every content: no quote ends early. */
  lemma CommandWords(line: nat, content: string, path: string)
    requires IsPath(path)
    ensures ShellWords(Command(line, content, path), false, None) == Some(["sed", "-i", ScriptText(line, Strip(content)), path])
  {
    var script := ScriptText(line, Strip(content));
    var last := "'" + (QuoteEscape(script) + ("' " + path));
    ScriptIsQuoted(line, content, path);
    assert Command(line, content, path) == "sed" + (" " + ("-i" + (" " + last)));
    QuotedWordIsRead(script, path);
    WordIsRead("-i", last);
    WordIsRead("sed", "-i" + (" " + last));
    assert ["sed"] + (["-i"] + [script, path]) == ["sed", "-i", script, path];
  }

  // ---- the script ----

  function EscapedChar(c: char): string {
    if c in {'\\', '/', '&'} then ['\\', c] else [c]
  }

  lemma EscapeOneByOne(c: char, t: string)
    ensures SedEscape([c] + t) == EscapedChar(c) + SedEscape(t)
  {
    var a, b := Replace([c], '\\', "\\\\"), Replace(t, '\\', "\\\\");
    ReplaceConcat([c], t, '\\', "\\\\");
    ReplaceConcat(a, b, '/', "\\/");
    ReplaceConcat(Replace(a, '/', "\\/"), Replace(b, '/', "\\/"), '&', "\\&");
    EscapeOne(c);
  }

  lemma ReplaceOne(c: char, d: char, with: string)
    ensures Replace([c], d, with) == if c == d then with else [c]
  {
    assert [c][1..] == "";
    assert with + "" == with && [c] + "" == [c];
  }

  lemma EscapeOne(c: char)
    ensures SedEscape([c]) == EscapedChar(c)
  {
    ReplaceOne(c, '\\', "\\\\");
    ReplaceOne(c, '/', "\\/");
    ReplaceOne(c, '&', "\\&");
    if c == '\\' {
      ReplaceAbsent("\\\\", '/', "\\/");
      ReplaceAbsent("\\\\", '&', "\\&");
    } else if c == '/' {
      ReplaceAbsent("\\/", '&', "\\&");
    }
  }

  function Literals(t: string): (r: seq<Piece>)
    ensures |r| == |t|
  {
    if t == "" then [] else [Literal(t[0])] + Literals(t[1..])
  }

  lemma EscapedCharIsRead(c: char, tail: string)
    ensures var r := ReadReplacement(tail);
      ReadReplacement(EscapedChar(c) + tail)
      == if c == '\n' || r.None? then None else Some(r.value.(pieces := [Literal(c)] + r.value.pieces))
  {
    var s := EscapedChar(c) + tail;
    if c in {'\\', '/', '&'} {
      assert s[2..] == tail;
    } else {
      assert s[1..] == tail;
    }
  }

  /** sed reads the escaped text as the characters of the text, up to the delimiter that follows; it fails exactly when
      there is a newline. */
  lemma {:induction false} EscapedTextIsRead(t: string, rest: string)
    ensures ReadReplacement(SedEscape(t) + ("/" + rest))
      == if '\n' in t then None else Some(Replacement(Literals(t), rest))
    decreases t
  {
    if t == "" {
      assert SedEscape(t) == "";
      assert "" + ("/" + rest) == "/" + rest;
      assert ("/" + rest)[1..] == rest;
    } else {
      var tail := SedEscape(t[1..]) + ("/" + rest);
      EscapedTextIsRead(t[1..], rest);
      assert t == [t[0]] + t[1..];
      EscapeOneByOne(t[0], t[1..]);
      assert SedEscape(t) + ("/" + rest) == EscapedChar(t[0]) + tail;
      EscapedCharIsRead(t[0], tail);
    }
  }

  lemma {:induction false} LiteralsExpand(t: string, matched: string)
    ensures Expand(Literals(t), matched) == Some(t)
    decreases t
  {
    if t != "" {
      LiteralsExpand(t[1..], matched);
      assert Literals(t)[1..] == Literals(t[1..]);
      assert [t[0]] + t[1..] == t;
    }
  }

  lemma {:induction false} DecimalIsRead(n: nat, rest: string)
    ensures ReadAddress(Decimal(n) + rest, 0) == ReadAddress(rest, n)
    decreases n
  {
    if n < 10 {
      assert (Decimal(n) + rest)[1..] == rest;
    } else {
      var d := [DigitOf(n % 10)];
      assert Decimal(n) + rest == Decimal(n / 10) + (d + rest);
      DecimalIsRead(n / 10, d + rest);
      assert (d + rest)[1..] == rest;
    }
  }

  lemma RegexIsRead(rest: string)
    ensures ReadRegex("^.*$/" + rest) == Some(Regex("^.*$", rest))
  {
    assert ("/" + rest)[1..] == rest;
    RegexCharIsRead('$', "/" + rest);
    RegexCharIsRead('*', "$" + ("/" + rest));
    RegexCharIsRead('.', "*" + ("$" + ("/" + rest)));
    RegexCharIsRead('^', "." + ("*" + ("$" + ("/" + rest))));
    assert "^" + ("." + ("*" + ("$" + ""))) == "^.*$";
    assert "^.*$/" + rest == "^" + ("." + ("*" + ("$" + ("/" + rest))));
  }

  lemma RegexCharIsRead(c: char, rest: string)
    requires c != '/' && c != '\\' && c != '\n'
    ensures var r := ReadRegex(rest);
      ReadRegex([c] + rest) == if r.None? then None else Some(r.value.(text := [c] + r.value.text))
  {
    assert ([c] + rest)[1..] == rest && ([c] + rest)[..1] == [c];
  }

  /** The script is one substitution of the line by the text; sed refuses it exactly for line 0 and for a text with a newline. */
  lemma ScriptIsRead(line: nat, text: string)
    ensures ReadScript(ScriptText(line, text))
      == if line == 0 || '\n' in text then None else Some(Substitute(line, "^.*$", Literals(text)))
  {
    var tail := SedEscape(text) + "/";
    var s := "s/^.*$/" + tail;
    DecimalIsRead(line, s);
    assert s[..2] == "s/" && s[2..] == "^.*$/" + tail;
    RegexIsRead(tail);
    assert "/" + "" == "/";
    EscapedTextIsRead(text, "");
  }

  // ---- the whole command ----

  /** What is stripped, and that nothing else is. */
  lemma {:induction false} StripRemovesNewlines(s: string)
    ensures exists i, j :: IsStripped(s, i, j, Strip(s))
  {
    StripLeftIs(s);
    StripRightIs(StripLeft(s));
    var l, t := StripLeft(s), Strip(s);
    var i := |s| - |l|;
    assert IsStripped(s, i, i + |t|, t);
  }

  predicate IsNewlines(s: string) {
    forall k :: 0 <= k < |s| ==> s[k] == '\n'
  }

  predicate IsStripped(s: string, i: int, j: int, t: string) {
    && 0 <= i <= j <= |s| && t == s[i..j] && IsNewlines(s[..i]) && IsNewlines(s[j..])
    && (t != "" ==> t[0] != '\n' && t[|t| - 1] != '\n')
  }

  lemma {:induction false} StripLeftIs(s: string)
    ensures |StripLeft(s)| <= |s| && StripLeft(s) == s[|s| - |StripLeft(s)|..]
    ensures IsNewlines(s[..|s| - |StripLeft(s)|])
    ensures StripLeft(s) != "" ==> StripLeft(s)[0] != '\n'
    decreases s
  {
    if s != "" && s[0] == '\n' {
      StripLeftIs(s[1..]);
      var n := |s| - |StripLeft(s)|;
      assert s[..n] == [s[0]] + s[1..][..n - 1];
    }
  }

  lemma {:induction false} StripRightIs(s: string)
    ensures |StripRight(s)| <= |s| && StripRight(s) == s[..|StripRight(s)|]
    ensures IsNewlines(s[|StripRight(s)|..])
    ensures StripRight(s) != "" ==> StripRight(s)[|StripRight(s)| - 1] != '\n'
    decreases |s|
  {
    if s != "" && s[|s| - 1] == '\n' {
      StripRightIs(s[..|s| - 1]);
      var n := |StripRight(s)|;
      assert s[n..] == s[..|s| - 1][n..] + [s[|s| - 1]];
    }
  }

  /** For every content, line and file: the command replaces the line by the stripped content, character for character,
      and nothing else; it is refused exactly when the stripped content has a newline or the line is 0. */
  lemma CommandReplacesLine(line: nat, content: string, path: string, lines: seq<string>)
    requires IsPath(path)
    ensures Execute(Command(line, content, path), path, lines)
      == if line == 0 || '\n' in Strip(content) then None
         else Some(if line <= |lines| then lines[line - 1 := Strip(content)] else lines)
  {
    var text := Strip(content);
    CommandWords(line, content, path);
    ScriptIsRead(line, text);
    if 0 < line <= |lines| {
      LiteralsExpand(text, lines[line - 1]);
    }
  }
}
