/** Printing a tree of settings in any layout and reading it back. */
module YamlRoundTrip {
  import opened Text
  import opened Wrappers
  import opened YamlSettings
  import opened YamlLines

  /** A laid-out tree: every entry has its own indent, padding and preceding lines that the
      reader ignores. */
  datatype Layout =
    | Done
    | Key(ignored: seq<string>, indent: nat, key: string, beforeColon: string, afterColon: string, body: Body,
          trailing: string, rest: Layout)

  datatype Body = Scalar(value: string) | Map(entries: Layout)

  function Blanks(n: nat): (s: string)
    ensures |s| == n
  {
    if n == 0 then "" else " " + Blanks(n - 1)
  }

  function KeyLine(e: Layout): string
    requires e.Key?
  {
    Blanks(e.indent) + e.key + e.beforeColon + ":" + e.afterColon +
    (if e.body.Scalar? then e.body.value else "") + e.trailing
  }

  function Lines(e: Layout): seq<string> {
    match e
    case Done => []
    case Key(ignored, _, _, _, _, body, _, rest) =>
      ignored + [KeyLine(e)] + (if body.Map? then Lines(body.entries) else []) + Lines(rest)
  }

  /** The tree a layout stands for; of siblings with one key the last counts. */
  function TreeOf(e: Layout): map<string, Yaml> {
    match e
    case Done => map[]
    case Key(_, _, key, _, _, body, _, rest) => map[key := NodeOf(body)] + TreeOf(rest)
  }

  function NodeOf(b: Body): Yaml {
    match b
    case Scalar(value) => Yaml(true, value, map[])
    case Map(entries) => Yaml(false, "", TreeOf(entries))
  }

  function Keys(e: Layout): set<string> {
    if e.Done? then {} else {e.key} + Keys(e.rest)
  }

  predicate Trimmed(s: string) {
    s == "" || (!IsSpace(s[0]) && !IsSpace(s[|s| - 1]))
  }

  /** A key as the reader can find it again. */
  predicate GoodKey(key: string, beforeColon: string) {
    && Trimmed(key) && ':' !in key && (key == "" ==> beforeColon == "") && (key != "" ==> key[0] != '#')
  }

  /** White space, comments and lines without a colon are ignored wherever they stand. */
  ghost predicate AllIgnored(lines: seq<string>) {
    forall i :: 0 <= i < |lines| ==> Ignorable(lines[i])
  }

  /** Children are deeper than their parent, a sibling is never deeper than the one before
      it, scalars are trimmed and not empty. */
  ghost predicate Laid(e: Layout, parent: int) {
    match e
    case Done => true
    case Key(ignored, indent, key, beforeColon, afterColon, body, trailing, rest) =>
      && AllIgnored(ignored) && indent > parent && GoodKey(key, beforeColon)
      && Blank(beforeColon) && Blank(afterColon) && Blank(trailing)
      && LaidBody(body, indent)
      && (rest.Key? ==> rest.indent <= indent) && Laid(rest, parent)
  }

  ghost predicate LaidBody(b: Body, indent: int) {
    match b
    case Scalar(value) => value != "" && Trimmed(value)
    case Map(entries) => Laid(entries, indent)
  }

  /** No two siblings have one key. */
  predicate DistinctKeys(e: Layout) {
    match e
    case Done => true
    case Key(_, _, key, _, _, body, _, rest) =>
      key !in Keys(rest) && (body.Map? ==> DistinctKeys(body.entries)) && DistinctKeys(rest)
  }

  /** The tree that is read: like TreeOf, but a scalar whose key was there before -- among
      its siblings so far or in `seen` -- holds what its move left. */
  function ReadTree(e: Layout, seen: set<string>, moved: Moved): map<string, Yaml> {
    match e
    case Done => map[]
    case Key(_, _, key, _, _, body, _, rest) =>
      map[key := ReadNode(body, key in seen, moved)] + ReadTree(rest, seen + {key}, moved)
  }

  function ReadNode(b: Body, again: bool, moved: Moved): Yaml {
    match b
    case Scalar(value) => Yaml(true, if again then moved(value) else value, map[])
    case Map(entries) => Yaml(false, "", ReadTree(entries, {}, moved))
  }

  // ---------- Reading one printed line

  lemma IndentStep(rest: string)
    ensures Indent(" " + rest) == 1 + Indent(rest)
  {
    assert (" " + rest)[1..] == rest;
  }

  lemma {:induction false} IndentOf(n: nat, rest: string)
    requires rest == "" || rest[0] != ' '
    ensures Indent(Blanks(n) + rest) == n
  {
    if n == 0 {
      assert Blanks(n) + rest == rest;
    } else {
      assert Blanks(n) + rest == " " + (Blanks(n - 1) + rest);
      IndentOf(n - 1, rest);
      IndentStep(Blanks(n - 1) + rest);
    }
  }

  lemma {:induction false} FindFirst(before: string, c: char, after: string, from: nat)
    requires from <= |before| && forall i :: from <= i < |before| ==> before[i] != c
    ensures Find(before + [c] + after, c, from) == Some(|before|)
    decreases |before| - from
  {
    var s := before + [c] + after;
    if from < |before| {
      assert s[from] == before[from];
      FindFirst(before, c, after, from + 1);
    } else {
      assert s[from] == c;
    }
  }

  lemma StripPadded(before: string, s: string, after: string)
    requires Blank(before) && Blank(after) && Trimmed(s)
    ensures Strip(before + s + after) == s
  {
    assert RTrim("") == "";
    hide Spaces, RTrim;
    if s == "" {
      assert before + s + after == (before + after) + "";
      SkipBlank(before + after, "");
    } else {
      assert before + s + after == before + (s + after);
      SkipBlank(before, s + after);
      TrimBlank(s, after);
    }
  }

  lemma BlanksAreBlank(n: nat)
    ensures Blank(Blanks(n)) && Blank("") && forall i :: 0 <= i < n ==> Blanks(n)[i] == ' '
  {
    if n > 0 {
      BlanksAreBlank(n - 1);
    }
  }

  /** A printed line after its trailing white space is gone: what precedes the colon, and
      what follows it. */
  lemma TrimmedLine(head: string, afterColon: string, value: string, trailing: string)
    requires Blank(afterColon) && Blank(trailing) && Trimmed(value)
    ensures exists gap :: Blank(gap) && RTrim(head + ":" + afterColon + value + trailing) == head + ":" + gap + value
  {
    hide RTrim;
    if value == "" {
      var line := head + ":";
      assert head + ":" + afterColon + value + trailing == line + (afterColon + trailing);
      TrimBlank(line, afterColon + trailing);
      assert line == head + ":" + "" + value;
      assert Blank("");
    } else {
      var line := head + ":" + afterColon + value;
      assert head + ":" + afterColon + value + trailing == line + trailing;
      TrimBlank(line, trailing);
    }
  }

  lemma NotComment(indent: nat, key: string, beforeColon: string, rest: string)
    requires GoodKey(key, beforeColon) && rest != "" && rest[0] == ':' && !IsSpace(rest[|rest| - 1])
    ensures !IsCommentOrBlank(Blanks(indent) + key + beforeColon + rest)
  {
    hide Spaces, RTrim, Blanks, SkipSpace, Blank;
    var text := key + beforeColon + rest;
    BlanksAreBlank(indent);
    Regroup3(Blanks(indent), key, beforeColon, rest);
    assert text[0] == if key == "" then ':' else key[0];
    assert text[|text| - 1] == rest[|rest| - 1];
    SkipBlank(Blanks(indent), text);
    TrimBlank(text, "");
    assert text + "" == text;
  }

  lemma LineReads(indent: nat, key: string, beforeColon: string, gap: string, value: string)
    requires GoodKey(key, beforeColon) && Blank(beforeColon) && Blank(gap) && Trimmed(value)
    requires value == "" ==> gap == ""
    ensures ReadTrimmed(Blanks(indent) + key + beforeColon + ":" + gap + value) == Entry(indent, key, value)
  {
    hide *;
    var head, tail := Blanks(indent) + key + beforeColon, gap + value;
    BlanksAreBlank(indent);
    LineSplits(Blanks(indent), key, beforeColon, gap, value);
    KeyEdges(Blanks(indent), key, beforeColon, tail);
    ValueEdges(gap, value);
    NotComment(indent, key, beforeColon, ":" + tail);
    IndentOf(indent, key + beforeColon + ":" + tail);
    FindFirst(head, ':', tail, indent);
    StripPadded("", key, beforeColon);
    StripPadded(gap, value, "");
    ReadsAs(head + ":" + gap + value, indent, |head|, key, value);
  }

  lemma ReadsAs(line: string, indent: nat, colon: nat, key: string, value: string)
    requires !IsCommentOrBlank(line) && Indent(line) == indent <= colon < |line| && Find(line, ':', indent) == Some(colon)
    requires Strip(line[indent..colon]) == key && Strip(line[colon + 1..]) == value
    ensures ReadTrimmed(line) == Entry(indent, key, value)
  {
    hide Strip, Find, Indent, IsCommentOrBlank;
  }

  /** The first character of the key part is no blank, and no colon precedes the colon. */
  lemma KeyEdges(blanks: string, key: string, beforeColon: string, tail: string)
    requires GoodKey(key, beforeColon) && Blank(beforeColon)
    ensures Trimmed(key) && (key + beforeColon + ":" + tail)[0] != ' '
    ensures forall i :: |blanks| <= i < |blanks + key + beforeColon| ==> (blanks + key + beforeColon)[i] != ':'
  {
    assert (key + beforeColon + ":" + tail)[0] == if key == "" then ':' else key[0];
    var head := blanks + key + beforeColon;
    forall i | |blanks| <= i < |head|
      ensures head[i] != ':'
    {
      var j := i - |blanks|;
      assert head[i] == if j < |key| then key[j] else beforeColon[j - |key|];
    }
  }

  lemma ValueEdges(gap: string, value: string)
    requires Trimmed(value) && (value == "" ==> gap == "")
    ensures var rest := ":" + (gap + value); rest[0] == ':' && !IsSpace(rest[|rest| - 1])
  {
    var rest := ":" + (gap + value);
    assert rest[|rest| - 1] == if value == "" then ':' else value[|value| - 1];
  }

  /** The ways to bracket one line. */
  lemma LineSplits(blanks: string, key: string, beforeColon: string, gap: string, value: string)
    ensures var head, tail := blanks + key + beforeColon, gap + value; var line := head + ":" + gap + value;
            && line == head + [':'] + tail && line == blanks + key + beforeColon + (":" + tail)
            && line == blanks + (key + beforeColon + ":" + tail)
            && line[|blanks|..|head|] == "" + key + beforeColon && line[|head| + 1..] == gap + value + ""
  {
    var head, tail := blanks + key + beforeColon, gap + value;
    Regroup(head, gap, value);
    Regroup3(blanks, key, beforeColon, ":" + tail);
    Middle(blanks, key + beforeColon, ":" + tail);
    assert "" + key + beforeColon == key + beforeColon && tail + "" == tail;
    assert (head + (":" + tail))[|head| + 1..] == tail;
  }

  lemma Regroup(head: string, gap: string, value: string)
    ensures head + ":" + gap + value == head + [':'] + (gap + value) == head + (":" + (gap + value))
  {
  }

  lemma Regroup3(blanks: string, key: string, before: string, rest: string)
    ensures blanks + key + before + rest == blanks + (key + before + rest) == blanks + (key + before) + rest
    ensures blanks + key + before == blanks + (key + before)
  {
  }

  lemma Middle(a: string, b: string, c: string)
    ensures (a + b + c)[|a|..|a + b|] == b
  {
  }

  /** ReadLine after the trailing white space of the line is cut. */
  function ReadTrimmed(line: string): Line {
    if IsCommentOrBlank(line) then Skipped
    else
      var indent := Indent(line);
      var colon := Find(line, ':', indent);
      if colon.None? then Skipped
      else Entry(indent, Strip(line[indent..colon.value]), Strip(line[colon.value + 1..]))
  }

  lemma KeyLineReads(e: Layout, parent: int)
    requires e.Key? && Laid(e, parent)
    ensures ReadLine(KeyLine(e)) == Entry(e.indent, e.key, if e.body.Scalar? then e.body.value else "")
  {
    hide Strip, Find, Indent, Blanks, RTrim, GoodKey, IsCommentOrBlank;
    var value := if e.body.Scalar? then e.body.value else "";
    var head := Blanks(e.indent) + e.key + e.beforeColon;
    TrimmedLine(head, e.afterColon, value, e.trailing);
    var gap :| Blank(gap) && RTrim(head + ":" + e.afterColon + value + e.trailing) == head + ":" + gap + value;
    if value == "" {
      RTrimKeeps(head + ":" + e.afterColon + value + e.trailing);
      assert head + ":" + gap + value == head + ":" + gap;
      GapEmpty(head, gap);
    }
    LineReads(e.indent, e.key, e.beforeColon, gap, value);
  }

  lemma GapEmpty(head: string, gap: string)
    requires Blank(gap)
    ensures var s := head + ":" + gap; !IsSpace(s[|s| - 1]) ==> gap == ""
  {
    var s := head + ":" + gap;
    assert s[|s| - 1] == if gap == "" then ':' else gap[|gap| - 1];
  }

  lemma {:induction false} RTrimKeeps(s: string)
    ensures RTrim(s) == "" || !IsSpace(RTrim(s)[|RTrim(s)| - 1])
    decreases s
  {
    if s != "" && IsSpace(s[|s| - 1]) {
      RTrimKeeps(s[..|s| - 1]);
    }
  }

  // ---------- Growing the tree

  lemma {:induction false} GrowTwice(root: Yaml, path: Path, a: map<string, Yaml>, b: map<string, Yaml>)
    requires Exists(root, path)
    ensures Exists(WithChildren(root, path, a), path)
    ensures WithChildren(WithChildren(root, path, a), path, b) == WithChildren(root, path, a + b)
    decreases path
  {
    if path == [] {
      assert root.children + a + b == root.children + (a + b);
    } else {
      GrowTwice(root.children[path[0]], path[1..], a, b);
      var child := WithChildren(root.children[path[0]], path[1..], a);
      var r := WithChildren(root, path, a);
      assert r.children[path[0]] == child;
      assert root.children[path[0] := child][path[0] := WithChildren(child, path[1..], b)]
          == root.children[path[0] := WithChildren(child, path[1..], b)];
    }
  }

  /** Filling a new map entry is the same as adding it filled. */
  lemma {:induction false} GrowUnder(root: Yaml, path: Path, key: string, more: map<string, Yaml>)
    requires Exists(root, path)
    ensures var r := WithChildren(root, path, map[key := EMPTY_MAP]);
            && Exists(r, path + [key])
            && WithChildren(r, path + [key], more) == WithChildren(root, path, map[key := Yaml(false, "", more)])
            && NodeAt(r, path + [key]) == EMPTY_MAP
    decreases path
  {
    if path == [] {
      assert (path + [key])[1..] == [] && (path + [key])[0] == key;
      GrowRoot(root, key, more);
    } else {
      assert (path + [key])[1..] == path[1..] + [key] && (path + [key])[0] == path[0];
      GrowUnder(root.children[path[0]], path[1..], key, more);
      var r := WithChildren(root, path, map[key := EMPTY_MAP]);
      var child := WithChildren(root.children[path[0]], path[1..], map[key := EMPTY_MAP]);
      assert r.children[path[0]] == child;
      var full := WithChildren(child, path[1..] + [key], more);
      assert r.children[path[0] := full] == root.children[path[0] := full];
    }
  }

  lemma GrowRoot(root: Yaml, key: string, more: map<string, Yaml>)
    ensures var r := WithChildren(root, [], map[key := EMPTY_MAP]);
            && Exists(r, [key]) && NodeAt(r, [key]) == EMPTY_MAP
            && WithChildren(r, [key], more) == WithChildren(root, [], map[key := Yaml(false, "", more)])
  {
    var r := WithChildren(root, [], map[key := EMPTY_MAP]);
    assert r.children[key] == EMPTY_MAP && [key][1..] == [];
    assert EMPTY_MAP.children + more == more;
    assert r.children[key := Yaml(false, "", more)] == root.children + map[key := Yaml(false, "", more)];
  }

  lemma GrowNothing(root: Yaml, path: Path)
    requires Exists(root, path)
    ensures WithChildren(root, path, map[]) == root
    decreases path
  {
    if path == [] {
      assert root.children + map[] == root.children;
    } else {
      GrowNothing(root.children[path[0]], path[1..]);
      assert root.children[path[0] := root.children[path[0]]] == root.children;
    }
  }

  // ---------- Reading a laid-out block

  /** The state after some more lines. */
  function After(s: State, lines: seq<string>, moved: Moved): State
    requires StackOK(s)
    decreases lines
  {
    if lines == [] then s
    else
      StepKeepsStack(s, lines[0], moved);
      After(Step(s, lines[0], moved), lines[1..], moved)
  }

  lemma {:induction false} AfterConcat(s: State, a: seq<string>, b: seq<string>, moved: Moved)
    requires StackOK(s)
    ensures StackOK(After(s, a, moved))
    ensures After(s, a + b, moved) == After(After(s, a, moved), b, moved)
    decreases a
  {
    hide StackOK, Step;
    if a == [] {
      assert a + b == b;
    } else {
      StepKeepsStack(s, a[0], moved);
      assert (a + b)[0] == a[0] && (a + b)[1..] == a[1..] + b;
      AfterConcat(Step(s, a[0], moved), a[1..], b, moved);
    }
  }

  lemma {:induction false} IgnoredAfter(s: State, lines: seq<string>, moved: Moved)
    requires StackOK(s) && AllIgnored(lines)
    ensures After(s, lines, moved) == s
    decreases lines
  {
    hide StackOK, ReadLine, Ignorable;
    if lines != [] {
      SkippedExactly(lines[0]);
      IgnoredAfter(s, lines[1..], moved);
    }
  }

  lemma {:induction false} ParsedIsAfter(lines: seq<string>, moved: Moved)
    ensures StackOK(START) && Parsed(lines, moved) == After(START, lines, moved)
    decreases lines
  {
    hide StackOK, Step;
    StartOK();
    if lines != [] {
      var n := |lines| - 1;
      ParsedIsAfter(lines[..n], moved);
      AfterConcat(START, lines[..n], [lines[n]], moved);
      assert lines[..n] + [lines[n]] == lines;
      StepKeepsStack(After(START, lines[..n], moved), lines[n], moved);
      AfterOne(After(START, lines[..n], moved), lines[n], moved);
    }
  }

  lemma AfterOne(s: State, line: string, moved: Moved)
    requires StackOK(s)
    ensures After(s, [], moved) == s && After(s, [line], moved) == Step(s, line, moved)
  {
    hide StackOK, Step;
    StepKeepsStack(s, line, moved);
  }

  predicate AllDeeper(extra: seq<Open>, indent: int) {
    forall i :: 0 <= i < |extra| ==> extra[i].indent >= indent
  }

  lemma {:induction false} PopExtra(base: seq<Open>, extra: seq<Open>, indent: int)
    requires base != [] && base[|base| - 1].indent < indent && AllDeeper(extra, indent)
    ensures Pop(base + extra, indent) == base
    decreases extra
  {
    if extra == [] {
      assert base + extra == base;
    } else {
      assert (base + extra)[..|base + extra| - 1] == base + extra[..|extra| - 1];
      PopExtra(base, extra[..|extra| - 1], indent);
    }
  }

  /** The stack is an open map with other, deeper entries above it. */
  predicate OpenAt(s: State, base: seq<Open>, extra: seq<Open>, parent: int, path: Path) {
    && StackOK(s) && base != [] && s.stack == base + extra
    && base[|base| - 1] == Open(parent, path) && AllDeeper(extra, parent + 1)
  }

  /** The node an entry's own line puts into the tree. */
  function First(e: Layout, siblings: map<string, Yaml>, moved: Moved): Yaml
    requires e.Key?
  {
    Stored(siblings, e.key, if e.body.Scalar? then e.body.value else "", moved)
  }

  /** One printed key line below the open map. */
  lemma KeyLineAfter(s: State, base: seq<Open>, extra: seq<Open>, parent: int, path: Path, e: Layout, moved: Moved)
    requires OpenAt(s, base, extra, parent, path) && e.Key? && Laid(e, parent) && AllDeeper(extra, e.indent)
    requires Exists(s.root, path)
    ensures var child := First(e, NodeAt(s.root, path).children, moved);
            Step(s, KeyLine(e), moved)
            == State(WithChildren(s.root, path, map[e.key := child]), base + [Open(e.indent, path + [e.key])])
  {
    hide ReadLine, KeyLine, WithChildren, NodeAt, Exists, Pop, Stored;
    KeyLineReads(e, parent);
    PopExtra(base, extra, e.indent);
  }

  /** MAIN step: reading a laid-out block adds exactly its tree, as read, under the open map
      and leaves only deeper entries above it. */
  lemma {:induction false} BlockReads(s: State, base: seq<Open>, extra: seq<Open>, parent: int, path: Path, e: Layout,
                                      moved: Moved) returns (extra': seq<Open>)
    requires OpenAt(s, base, extra, parent, path) && Laid(e, parent)
    requires e.Key? ==> AllDeeper(extra, e.indent)
    requires Exists(s.root, path)
    ensures var tree := ReadTree(e, NodeAt(s.root, path).children.Keys, moved);
            After(s, Lines(e), moved) == State(WithChildren(s.root, path, tree), base + extra')
    ensures OpenAt(After(s, Lines(e), moved), base, extra', parent, path)
    decreases e
  {
    hide *;
    var seen := NodeAt(s.root, path).children.Keys;
    LayoutParts(e, seen, moved);
    OpenIsOK(s, base, extra, parent, path);
    if e.Done? {
      GrowNothing(s.root, path);
      AfterOne(s, "", moved);
      extra' := extra;
    } else {
      LaidParts(e, parent);
      var inner := if e.body.Map? then Lines(e.body.entries) else [];
      AfterConcat(s, e.ignored, [KeyLine(e)] + (inner + Lines(e.rest)), moved);
      IgnoredAfter(s, e.ignored, moved);
      KeyLineAfter(s, base, extra, parent, path, e, moved);
      StepKeepsStack(s, KeyLine(e), moved);
      AfterConcat(s, [KeyLine(e)], inner + Lines(e.rest), moved);
      AfterOne(s, KeyLine(e), moved);
      var s1 := Step(s, KeyLine(e), moved);
      var here := Open(e.indent, path + [e.key]);
      AfterConcat(s1, inner, Lines(e.rest), moved);
      var extra1 := InnerReads(s, s1, base, here, path, e, moved);
      var s2 := After(s1, inner, moved);
      StillOpen(s2, base, here, extra1, parent, path, e);
      var node := ReadNode(e.body, e.key in seen, moved);
      NewKeys(s.root, path, map[e.key := node]);
      assert seen + map[e.key := node].Keys == seen + {e.key};
      extra' := BlockReads(s2, base, [here] + extra1, parent, path, e.rest, moved);
      GrowTwice(s.root, path, map[e.key := node], ReadTree(e.rest, seen + {e.key}, moved));
    }
  }

  /** The lines of a layout and the tree that is read, from its first entry. */
  lemma LayoutParts(e: Layout, seen: set<string>, moved: Moved)
    ensures e.Done? ==> Lines(e) == [] && ReadTree(e, seen, moved) == map[]
    ensures e.Key? ==>
      var inner := if e.body.Map? then Lines(e.body.entries) else [];
      && Lines(e) == e.ignored + ([KeyLine(e)] + (inner + Lines(e.rest)))
      && ReadTree(e, seen, moved)
         == map[e.key := ReadNode(e.body, e.key in seen, moved)] + ReadTree(e.rest, seen + {e.key}, moved)
  {
    hide KeyLine, ReadNode;
  }

  lemma OpenIsOK(s: State, base: seq<Open>, extra: seq<Open>, parent: int, path: Path)
    requires OpenAt(s, base, extra, parent, path)
    ensures StackOK(s) && base != [] && base[|base| - 1] == Open(parent, path) && s.stack == base + extra
  {
  }

  /** After an entry the map below it is still open, the entry's leftovers above it. */
  lemma StillOpen(s2: State, base: seq<Open>, here: Open, extra1: seq<Open>, parent: int, path: Path, e: Layout)
    requires e.Key? && here.indent == e.indent > parent && AllDeeper(extra1, e.indent + 1) && StackOK(s2)
    requires s2.stack == base + [here] + extra1 && base != [] && base[|base| - 1] == Open(parent, path)
    requires e.rest.Key? ==> e.rest.indent <= e.indent
    ensures OpenAt(s2, base, [here] + extra1, parent, path)
    ensures e.rest.Key? ==> AllDeeper([here] + extra1, e.rest.indent)
  {
    hide StackOK;
    assert s2.stack == base + ([here] + extra1);
  }

  lemma LaidParts(e: Layout, parent: int)
    requires e.Key? && Laid(e, parent)
    ensures AllIgnored(e.ignored) && e.indent > parent && LaidBody(e.body, e.indent)
    ensures (e.rest.Key? ==> e.rest.indent <= e.indent) && Laid(e.rest, parent)
  {
  }

  lemma NewKeys(root: Yaml, path: Path, more: map<string, Yaml>)
    requires Exists(root, path)
    ensures Exists(WithChildren(root, path, more), path)
    ensures NodeAt(WithChildren(root, path, more), path).children.Keys == NodeAt(root, path).children.Keys + more.Keys
  {
    ExistsUnder(root, path, more);
  }

  /** The lines inside one entry complete its node. */
  lemma {:induction false} InnerReads(s: State, s1: State, base: seq<Open>, here: Open, path: Path, e: Layout, moved: Moved)
    returns (extra: seq<Open>)
    requires e.Key? && StackOK(s1) && base != [] && Exists(s.root, path) && LaidBody(e.body, e.indent)
    requires here == Open(e.indent, path + [e.key])
    requires s1 == State(WithChildren(s.root, path, map[e.key := First(e, NodeAt(s.root, path).children, moved)]),
                         base + [here])
    ensures var inner := if e.body.Map? then Lines(e.body.entries) else [];
            && After(s1, inner, moved)
               == State(WithChildren(s.root, path, map[e.key := ReadNode(e.body, e.key in NodeAt(s.root, path).children, moved)]),
                        base + [here] + extra)
            && StackOK(After(s1, inner, moved))
    ensures AllDeeper(extra, e.indent + 1)
    decreases e, 0
  {
    hide ReadLine, KeyLine, WithChildren, NodeAt, Exists, Pop, StackOK, Step, Laid;
    if e.body.Scalar? {
      extra := [];
      assert base + [here] + extra == base + [here];
    } else {
      GrowUnder(s.root, path, e.key, ReadTree(e.body.entries, {}, moved));
      assert EMPTY_MAP.children.Keys == {};
      assert (base + [here]) + [] == base + [here];
      extra := BlockReads(s1, base + [here], [], e.indent, path + [e.key], e.body.entries, moved);
    }
  }

  /** Any laid-out tree is read as ReadTree says. */
  lemma ReadsTree(e: Layout, ending: seq<string>, moved: Moved)
    requires Laid(e, -1) && AllIgnored(ending)
    ensures Parsed(Lines(e) + ending, moved).root == Yaml(false, "", ReadTree(e, {}, moved))
  {
    hide Laid, AllIgnored, Step, Pop, ReadTree;
    ParsedIsAfter(Lines(e) + ending, moved);
    assert START.stack == [Open(-1, [])] + [];
    assert NodeAt(START.root, []).children.Keys == {};
    var extra := BlockReads(START, [Open(-1, [])], [], -1, [], e, moved);
    AfterConcat(START, Lines(e), ending, moved);
    IgnoredAfter(After(START, Lines(e), moved), ending, moved);
    assert EMPTY_MAP.children + ReadTree(e, {}, moved) == ReadTree(e, {}, moved);
  }

  // ---------- When the last write wins

  /** No scalar that is the last of its key among its siblings was preceded by that key; maps
      may repeat, and what a later sibling replaces does not matter. */
  predicate Clean(e: Layout, seen: set<string>) {
    match e
    case Done => true
    case Key(_, _, key, _, _, body, _, rest) =>
      (key in Keys(rest) || CleanBody(body, key in seen)) && Clean(rest, seen + {key})
  }

  predicate CleanBody(b: Body, again: bool) {
    match b
    case Scalar(_) => !again
    case Map(entries) => Clean(entries, {})
  }

  lemma {:induction false} DistinctIsClean(e: Layout, seen: set<string>)
    requires DistinctKeys(e) && Keys(e) !! seen
    ensures Clean(e, seen)
    decreases e
  {
    if e.Key? {
      if e.body.Map? {
        DistinctIsClean(e.body.entries, {});
      }
      DistinctIsClean(e.rest, seen + {e.key});
    }
  }

  lemma {:induction false} TreeKeys(e: Layout, seen: set<string>, moved: Moved)
    ensures ReadTree(e, seen, moved).Keys == Keys(e) && TreeOf(e).Keys == Keys(e)
    decreases e
  {
    hide ReadNode, NodeOf;
    if e.Key? {
      TreeKeys(e.rest, seen + {e.key}, moved);
    }
  }

  /** Two trees with one first key differ in that key, unless it is replaced, or in the rest. */
  lemma SumsEqual(key: string, a: Yaml, b: Yaml, m: map<string, Yaml>, n: map<string, Yaml>)
    requires m.Keys == n.Keys
    ensures map[key := a] + m == map[key := b] + n <==> m == n && (key in m || a == b)
  {
    var x, y := map[key := a] + m, map[key := b] + n;
    assert forall k :: k in m ==> k in x && k in y && x[k] == m[k] && y[k] == n[k];
    if x == y {
      assert forall k :: k in m ==> m[k] == n[k];
      assert m == n;
      assert key !in m ==> x[key] == a && y[key] == b;
    }
  }

  lemma {:induction false} CleanReads(e: Layout, seen: set<string>, moved: Moved)
    requires Clean(e, seen)
    ensures ReadTree(e, seen, moved) == TreeOf(e)
    decreases e
  {
    if e.Key? {
      CleanReads(e.rest, seen + {e.key}, moved);
      TreeKeys(e.rest, seen + {e.key}, moved);
      if e.key !in Keys(e.rest) && e.body.Map? {
        CleanReads(e.body.entries, {}, moved);
      }
      SumsEqual(e.key, ReadNode(e.body, e.key in seen, moved), NodeOf(e.body), ReadTree(e.rest, seen + {e.key}, moved),
                TreeOf(e.rest));
    }
  }

  /** The length of the longest scalar. */
  function Longest(e: Layout): nat {
    match e
    case Done => 0
    case Key(_, _, _, _, _, body, _, rest) =>
      if LongestIn(body) < Longest(rest) then Longest(rest) else LongestIn(body)
  }

  function LongestIn(b: Body): nat {
    match b
    case Scalar(value) => |value|
    case Map(entries) => Longest(entries)
  }

  ghost predicate LeavesMore(moved: Moved, n: nat) {
    forall v :: |moved(v)| > n
  }

  /** A move that leaves more than any scalar held shows in every tree that is not clean. */
  lemma {:induction false} DirtyReads(e: Layout, seen: set<string>, moved: Moved)
    requires !Clean(e, seen) && LeavesMore(moved, Longest(e))
    ensures ReadTree(e, seen, moved) != TreeOf(e)
    decreases e
  {
    var rest := ReadTree(e.rest, seen + {e.key}, moved);
    TreeKeys(e.rest, seen + {e.key}, moved);
    SumsEqual(e.key, ReadNode(e.body, e.key in seen, moved), NodeOf(e.body), rest, TreeOf(e.rest));
    assert Longest(e) >= LongestIn(e.body) && Longest(e) >= Longest(e.rest);
    if !Clean(e.rest, seen + {e.key}) {
      DirtyReads(e.rest, seen + {e.key}, moved);
    } else if e.body.Map? {
      DirtyReads(e.body.entries, {}, moved);
    } else {
      assert |moved(e.body.value)| > LongestIn(e.body);
    }
  }

  /** MAIN: printing any tree of maps and non-empty trimmed scalars with distinct sibling
      keys, at any indents that grow with depth and with ignorable lines anywhere, and
      reading the lines back gives the same tree. */
  lemma RoundTrip(e: Layout, ending: seq<string>, moved: Moved)
    requires Laid(e, -1) && DistinctKeys(e) && AllIgnored(ending)
    ensures Parsed(Lines(e) + ending, moved).root == Yaml(false, "", TreeOf(e))
  {
    hide Laid, AllIgnored, Parsed;
    ReadsTree(e, ending, moved);
    DistinctIsClean(e, {});
    CleanReads(e, {}, moved);
  }

  /** MAIN: with repeated keys as well, "last write wins" holds whatever a move leaves behind
      if and only if no scalar repeats a key of an earlier sibling, apart from those that a
      later sibling replaces. */
  lemma LastWriteExactly(e: Layout, ending: seq<string>)
    requires Laid(e, -1) && AllIgnored(ending)
    ensures (forall moved: Moved :: Parsed(Lines(e) + ending, moved).root == Yaml(false, "", TreeOf(e))) <==> Clean(e, {})
  {
    hide Laid, AllIgnored, Parsed, ReadTree, TreeOf, Clean;
    forall moved: Moved
      ensures Parsed(Lines(e) + ending, moved).root == Yaml(false, "", ReadTree(e, {}, moved))
    {
      ReadsTree(e, ending, moved);
    }
    if Clean(e, {}) {
      forall moved: Moved
        ensures ReadTree(e, {}, moved) == TreeOf(e)
      {
        CleanReads(e, {}, moved);
      }
    } else {
      var n := Longest(e);
      var long := seq(n + 1, i => 'x');
      var leavesMore: Moved := v => long;
      DirtyReads(e, {}, leavesMore);
      assert Parsed(Lines(e) + ending, leavesMore).root == Yaml(false, "", ReadTree(e, {}, leavesMore));
    }
  }

  /** The lines `a: 1` and `a: 2` leave under `a` whatever the move left of "2". */
  lemma RepeatedScalar(moved: Moved)
    ensures Parsed(["a: 1", "a: 2"], moved).root == Yaml(false, "", map["a" := Yaml(true, moved("2"), map[])])
  {
    hide Parsed;
    var second := Key([], 0, "a", "", " ", Scalar("2"), "", Done);
    var first := Key([], 0, "a", "", " ", Scalar("1"), "", second);
    assert KeyLine(second) == "a: 2" && KeyLine(first) == "a: 1";
    assert Lines(second) == ["a: 2"];
    assert Lines(first) + [] == ["a: 1", "a: 2"];
    ReadsTree(first, [], moved);
    assert "a" in {"a"} && {} + {"a"} == {"a"};
    assert ReadTree(second, {"a"}, moved) == map["a" := Yaml(true, moved("2"), map[])];
  }
}
