/** What the settings reader makes of one line, on the characters of the line
    (control/yaml_settings.cpp:42-85). */
module YamlLines {
  import opened Text
  import opened Wrappers
  import opened YamlSettings

  predicate White(c: char) {
    c == ' ' || c == '\t' || c == '\r' || c == '\n'
  }

  predicate AllWhite(s: string) {
    forall i :: 0 <= i < |s| ==> White(s[i])
  }

  /** The line's first character that is not white is at i. */
  predicate FirstInk(line: string, i: nat) {
    i < |line| && !White(line[i]) && AllWhite(line[..i])
  }

  predicate CommentAt(line: string, i: nat) {
    FirstInk(line, i) && line[i] == '#'
  }

  ghost predicate Comment(line: string) {
    exists i: nat :: CommentAt(line, i)
  }

  /** The line holds nothing, a comment, or no colon. */
  ghost predicate Ignorable(line: string) {
    AllWhite(line) || Comment(line) || ':' !in line
  }

  /** t is s without the white space at either end. */
  predicate TrimmedFrom(t: string, s: string, a: nat) {
    && a + |t| <= |s| && t == s[a..a + |t|]
    && AllWhite(s[..a]) && AllWhite(s[a + |t|..])
    && (t != "" ==> !White(t[0]) && !White(t[|t| - 1]))
  }

  ghost predicate IsTrimOf(t: string, s: string) {
    exists a: nat :: TrimmedFrom(t, s, a)
  }

  /** The line is an entry: indented by spaces, its key before its first colon and its value
      behind it, both without the white space around them. */
  ghost predicate Holds(line: string, indent: nat, key: string, value: string, colon: nat) {
    && indent <= colon < |line| && line[colon] == ':' && ':' !in line[..colon]
    && (forall i :: 0 <= i < indent ==> line[i] == ' ') && line[indent] != ' '
    && IsTrimOf(key, line[..colon]) && IsTrimOf(value, line[colon + 1..])
  }

  // ---------- The scans

  lemma WhiteIsSpace(c: char)
    ensures White(c) <==> IsSpace(c)
  {
  }

  lemma {:induction false} SpacesAre(s: string, n: nat)
    requires n <= |s| && AllWhite(s[..n]) && (n < |s| ==> !White(s[n]))
    ensures Spaces(s) == n
    decreases n
  {
    if n > 0 {
      assert s[..n][0] == s[0];
      assert s[1..][..n - 1] == s[..n][1..];
      SpacesAre(s[1..], n - 1);
    }
  }

  lemma {:induction false} SkippedIsWhite(s: string)
    ensures AllWhite(s[..Spaces(s)])
  {
    if s != "" && IsSpace(s[0]) {
      SkippedIsWhite(s[1..]);
      forall i | 0 <= i < Spaces(s)
        ensures White(s[i])
      {
        assert i > 0 ==> s[i] == s[1..][..Spaces(s[1..])][i - 1];
      }
    }
  }

  lemma {:induction false} RTrimIs(s: string)
    ensures AllWhite(s[|RTrim(s)|..])
    ensures RTrim(s) != "" ==> !White(RTrim(s)[|RTrim(s)| - 1])
    decreases |s|
  {
    if s != "" && IsSpace(s[|s| - 1]) {
      var front := s[..|s| - 1];
      RTrimIs(front);
      forall i | |RTrim(s)| <= i < |s|
        ensures White(s[i])
      {
        assert i < |front| ==> s[i] == front[|RTrim(front)|..][i - |RTrim(front)|];
      }
    }
  }

  lemma StripTrims(s: string)
    ensures TrimmedFrom(Strip(s), s, Spaces(s))
  {
    hide Spaces, RTrim;
    var n, t := Spaces(s), s[Spaces(s)..];
    SkippedIsWhite(s);
    RTrimIs(t);
    var r := RTrim(t);
    assert s[n + |r|..] == t[|r|..];
    if r != "" {
      assert r[0] == s[n];
    }
  }

  lemma {:induction false} FindIs(line: string, c: char, from: nat)
    requires from <= |line|
    ensures var r := Find(line, c, from);
            forall i :: from <= i < (if r.Some? then r.value else |line|) ==> line[i] != c
    decreases |line| - from
  {
    if from < |line| && line[from] != c {
      FindIs(line, c, from + 1);
    }
  }

  lemma {:induction false} IndentIs(line: string)
    ensures var n := Indent(line); (forall i :: 0 <= i < n ==> line[i] == ' ') && (n < |line| ==> line[n] != ' ')
  {
    if line != "" && line[0] == ' ' {
      IndentIs(line[1..]);
      forall i | 0 <= i < Indent(line)
        ensures line[i] == ' '
      {
        assert i > 0 ==> line[i] == line[1..][i - 1];
      }
    }
  }

  // ---------- Lines

  /** Trimming the end of a line keeps its first ink and all its colons. */
  lemma TrimKeeps(raw: string)
    ensures var line := RTrim(raw);
            && (line == "" <==> AllWhite(raw))
            && (forall i: nat :: FirstInk(raw, i) <==> FirstInk(line, i))
            && (':' in raw <==> ':' in line)
  {
    hide RTrim;
    var line := RTrim(raw);
    RTrimIs(raw);
    assert raw == line + raw[|line|..];
    if line != "" {
      assert line[|line| - 1] == raw[|line| - 1];
    }
    forall i: nat
      ensures FirstInk(raw, i) <==> FirstInk(line, i)
    {
      if i < |line| {
        assert raw[i] == line[i] && raw[..i] == line[..i];
      } else if i < |raw| {
        assert raw[i] == raw[|line|..][i - |line|];
      }
    }
  }

  lemma BeforeInk(line: string, i: nat, n: nat)
    requires FirstInk(line, n) && i < n
    ensures White(line[i])
  {
    assert line[..n][i] == line[i];
  }

  lemma LastWhite(s: string)
    requires AllWhite(s) && s != ""
    ensures White(s[|s| - 1])
  {
  }

  lemma CommentIs(line: string)
    ensures IsCommentOrBlank(line) <==> AllWhite(line) || Comment(line)
  {
    StripTrims(line);
    hide Spaces, RTrim;
    var t, n := Strip(line), Spaces(line);
    if t == "" {
      assert line == line[..n] + line[n..];
    } else {
      assert t[0] == line[n] && FirstInk(line, n);
      assert CommentAt(line, n) <==> t[0] == '#';
      forall i: nat | FirstInk(line, i)
        ensures i == n
      {
        if i < n {
          BeforeInk(line, i, n);
        } else if n < i {
          BeforeInk(line, n, i);
        }
      }
    }
  }

  /** MAIN: a line is skipped if and only if it is white space only, or its first other
      character is '#', or it has no colon. */
  lemma SkippedExactly(raw: string)
    ensures ReadLine(raw).Skipped? <==> Ignorable(raw)
  {
    hide RTrim, Strip, FirstInk, Comment;
    var line := RTrim(raw);
    TrimKeeps(raw);
    CommentIs(line);
    SameComment(raw);
    if !IsCommentOrBlank(line) {
      hide IsCommentOrBlank;
      IndentIs(line);
      FindIs(line, ':', Indent(line));
    }
  }

  lemma SameComment(raw: string)
    ensures var line := RTrim(raw);
            && (AllWhite(raw) <==> AllWhite(line))
            && (Comment(raw) <==> Comment(line))
  {
    hide RTrim;
    var line := RTrim(raw);
    TrimKeeps(raw);
    RTrimIs(raw);
    if AllWhite(line) && line != "" {
      LastWhite(line);
    }
    forall i: nat
      ensures CommentAt(raw, i) <==> CommentAt(line, i)
    {
    }
  }

  /** MAIN: every other line is read as the entry it holds. */
  lemma EntryExactly(raw: string)
    requires ReadLine(raw).Entry?
    ensures var e := ReadLine(raw); exists colon: nat :: Holds(raw, e.indent, e.key, e.value, colon)
  {
    hide RTrim, Strip, Spaces, IsCommentOrBlank;
    var line := RTrim(raw);
    var indent := Indent(line);
    var colon := Find(line, ':', indent).value;
    IndentIs(line);
    FindIs(line, ':', indent);
    hide Find, Indent;
    TrimAhead(line, indent, colon);
    TrimBehind(raw, colon);
    assert raw[..colon] == line[..colon] && raw[colon] == line[colon] && raw[indent] == line[indent];
    assert Holds(raw, indent, Strip(line[indent..colon]), Strip(line[colon + 1..]), colon);
  }

  /** The key of an indented line. */
  lemma TrimAhead(line: string, indent: nat, colon: nat)
    requires indent <= colon <= |line| && forall i :: 0 <= i < indent ==> line[i] == ' '
    ensures IsTrimOf(Strip(line[indent..colon]), line[..colon])
  {
    hide Strip, Spaces;
    var s := line[indent..colon];
    var t, a := Strip(s), Spaces(s);
    StripTrims(s);
    assert line[..colon] == line[..indent] + s;
    var whole := line[..colon];
    assert whole[..indent + a] == line[..indent] + s[..a];
    assert whole[indent + a + |t|..] == s[a + |t|..];
    assert TrimmedFrom(t, whole, indent + a);
  }

  /** The value of a line whose end has been trimmed. */
  lemma TrimBehind(raw: string, colon: nat)
    requires colon < |RTrim(raw)|
    ensures IsTrimOf(Strip(RTrim(raw)[colon + 1..]), raw[colon + 1..])
  {
    hide Strip, Spaces, RTrim;
    var line := RTrim(raw);
    RTrimIs(raw);
    var s, whole := line[colon + 1..], raw[colon + 1..];
    var t, a := Strip(s), Spaces(s);
    StripTrims(s);
    assert whole == s + raw[|line|..];
    assert whole[..a] == s[..a];
    assert whole[a + |t|..] == s[a + |t|..] + raw[|line|..];
    assert TrimmedFrom(t, whole, a);
  }
}
