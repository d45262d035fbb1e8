/** The settings-file reader (control/yaml_settings.cpp): indentation decides nesting, a
    stack holds the path of open maps.  A pointer into the tree is the list of keys that
    leads to the node. */
module YamlSettings {
  import opened Text
  import opened Wrappers

  /** A node; a fresh one is a map without entries. */
  datatype Yaml = Yaml(isScalar: bool, scalar: string, children: map<string, Yaml>)

  const EMPTY_MAP: Yaml := Yaml(false, "", map[])

  type Path = seq<string>

  predicate Exists(root: Yaml, path: Path)
    decreases path
  {
    path == [] || (path[0] in root.children && Exists(root.children[path[0]], path[1..]))
  }

  function NodeAt(root: Yaml, path: Path): Yaml
    requires Exists(root, path)
    decreases path
  {
    if path == [] then root else NodeAt(root.children[path[0]], path[1..])
  }

  /** The tree with more children, or replaced ones, under the node at a path. */
  function WithChildren(root: Yaml, path: Path, more: map<string, Yaml>): Yaml
    requires Exists(root, path)
    decreases path
  {
    if path == [] then root.(children := root.children + more)
    else root.(children := root.children[path[0] := WithChildren(root.children[path[0]], path[1..], more)])
  }

  // ---------- One line

  datatype Line = Skipped | Entry(indent: nat, key: string, value: string)

  function Strip(s: string): string {
    RTrim(SkipSpace(s))
  }

  predicate IsCommentOrBlank(line: string) {
    var trimmed := Strip(line);
    trimmed == "" || trimmed[0] == '#'
  }

  /** find_first_not_of(' ') on a line that is not blank. */
  function Indent(line: string): (n: nat)
    ensures n <= |line|
  {
    if line != "" && line[0] == ' ' then 1 + Indent(line[1..]) else 0
  }

  /** find(c, from) */
  function Find(line: string, c: char, from: nat): (r: Option<nat>)
    requires from <= |line|
    ensures r.Some? ==> from <= r.value < |line| && line[r.value] == c
    decreases |line| - from
  {
    if from == |line| then None else if line[from] == c then Some(from) else Find(line, c, from + 1)
  }

  function ReadLine(raw: string): Line {
    var line := RTrim(raw);
    if IsCommentOrBlank(line) then Skipped
    else
      var indent := Indent(line);
      var colon := Find(line, ':', indent);
      if colon.None? then Skipped
      else Entry(indent, Strip(line[indent..colon.value]), Strip(line[colon.value + 1..]))
  }

  // ---------- The stack

  datatype Open = Open(indent: int, path: Path)

  /** Closing every open entry that is not shallower than the line. */
  function Pop(stack: seq<Open>, indent: int): (r: seq<Open>)
    ensures r <= stack && (stack != [] ==> r != [])
  {
    if |stack| > 1 && stack[|stack| - 1].indent >= indent then Pop(stack[..|stack| - 1], indent) else stack
  }

  datatype State = State(root: Yaml, stack: seq<Open>)

  const START: State := State(EMPTY_MAP, [Open(-1, [])])

  function Child(value: string): Yaml {
    if value == "" then EMPTY_MAP else Yaml(true, value, map[])
  }

  /** What a string holds after it was handed to emplace under a key that is already there:
      whether it is moved from at all, and what a moved-from string holds, the language
      leaves open. */
  type Moved = string -> string

  /** The node a line puts under its key.  When the key is already there, the child is copied
      after it may have been moved from.  The text of a map is never read and stays empty. */
  function Stored(siblings: map<string, Yaml>, key: string, value: string, moved: Moved): Yaml {
    if key in siblings && value != "" then Yaml(true, moved(value), map[]) else Child(value)
  }

  /** The effect of one line. */
  function Step(s: State, raw: string, moved: Moved): State
    requires StackOK(s)
  {
    match ReadLine(raw)
    case Skipped => s
    case Entry(indent, key, value) =>
      var stack := Pop(s.stack, indent);
      var top := stack[|stack| - 1];
      assert top in s.stack;
      var stored := Stored(NodeAt(s.root, top.path).children, key, value, moved);
      State(WithChildren(s.root, top.path, map[key := stored]), stack + [Open(indent, top.path + [key])])
  }

  /** Indents strictly increase up the stack, each entry is a child of the one below, and
      every path leads to a node. */
  predicate StackOK(s: State) {
    Nested(s.stack) && forall i :: 0 <= i < |s.stack| ==> Exists(s.root, s.stack[i].path)
  }

  predicate Nested(stack: seq<Open>) {
    && stack != [] && stack[0] == Open(-1, [])
    && forall i :: 0 < i < |stack| ==> IsChild(stack[i - 1], stack[i])
  }

  predicate IsChild(below: Open, above: Open) {
    below.indent < above.indent && above.path != [] && above.path[..|above.path| - 1] == below.path
  }

  lemma {:induction false} ExistsPrefix(root: Yaml, a: Path, b: Path)
    requires a <= b && Exists(root, b)
    ensures Exists(root, a)
    decreases a
  {
    if a != [] {
      assert a[1..] <= b[1..];
      ExistsPrefix(root.children[a[0]], a[1..], b[1..]);
    }
  }

  /** The node at a path is still there after children are set under it, and so are they. */
  lemma {:induction false} ExistsUnder(root: Yaml, path: Path, more: map<string, Yaml>)
    requires Exists(root, path)
    ensures Exists(WithChildren(root, path, more), path)
    ensures NodeAt(WithChildren(root, path, more), path).children == NodeAt(root, path).children + more
    ensures forall key :: key in more ==> Exists(WithChildren(root, path, more), path + [key])
    decreases path
  {
    if path == [] {
      assert forall key :: key in more ==> Exists(root.children[key := more[key]][key], []);
      forall key | key in more
        ensures Exists(WithChildren(root, path, more), path + [key])
      {
        assert (path + [key])[1..] == [];
      }
    } else {
      var child := root.children[path[0]];
      ExistsUnder(child, path[1..], more);
      forall key | key in more
        ensures Exists(WithChildren(root, path, more), path + [key])
      {
        assert (path + [key])[1..] == path[1..] + [key];
      }
    }
  }

  lemma {:induction false} PathsNest(stack: seq<Open>, i: nat, j: nat)
    requires i <= j < |stack| && Nested(stack)
    ensures stack[i].path <= stack[j].path
    decreases j
  {
    if i < j {
      PathsNest(stack, i, j - 1);
      assert IsChild(stack[j - 1], stack[j]);
      assert stack[j].path == stack[j - 1].path + [stack[j].path[|stack[j].path| - 1]];
    }
  }

  lemma PushNests(stack: seq<Open>, indent: nat, key: string)
    requires Nested(stack) && stack[|stack| - 1].indent < indent
    ensures Nested(stack + [Open(indent, stack[|stack| - 1].path + [key])])
  {
    var top := stack[|stack| - 1];
    var above := Open(indent, top.path + [key]);
    assert above.path[..|above.path| - 1] == top.path;
    assert IsChild(top, above);
    hide IsChild;
    var more := stack + [above];
    forall i | 0 < i < |more|
      ensures IsChild(more[i - 1], more[i])
    {
      if i < |stack| {
        assert IsChild(stack[i - 1], stack[i]);
      }
    }
  }

  /** Setting a child under the top of the stack keeps every open path. */
  lemma OpenPathsStay(root: Yaml, stack: seq<Open>, key: string, stored: Yaml)
    requires Nested(stack) && forall i :: 0 <= i < |stack| ==> Exists(root, stack[i].path)
    ensures var top := stack[|stack| - 1].path;
            var root' := WithChildren(root, top, map[key := stored]);
            && (forall i :: 0 <= i < |stack| ==> Exists(root', stack[i].path)) && Exists(root', top + [key])
  {
    assert stack != [];
    hide Nested, Exists, WithChildren, NodeAt;
    var top := stack[|stack| - 1].path;
    var root' := WithChildren(root, top, map[key := stored]);
    ExistsUnder(root, top, map[key := stored]);
    assert key in map[key := stored];
    forall i | 0 <= i < |stack|
      ensures Exists(root', stack[i].path)
    {
      PathsNest(stack, i, |stack| - 1);
      ExistsPrefix(root', stack[i].path, top);
    }
  }

  lemma {:induction false} PopBelow(stack: seq<Open>, indent: int)
    requires stack != [] && stack[0].indent < indent
    ensures var r := Pop(stack, indent); r[|r| - 1].indent < indent
    decreases stack
  {
    if |stack| > 1 && stack[|stack| - 1].indent >= indent {
      PopBelow(stack[..|stack| - 1], indent);
    }
  }

  /** MAIN: whatever the lines are, indents strictly increase up the stack and each open
      entry is a child of the one below it. */
  lemma StepKeepsStack(s: State, raw: string, moved: Moved)
    requires StackOK(s)
    ensures StackOK(Step(s, raw, moved))
  {
    hide ReadLine, Pop, Exists, WithChildren, NodeAt, IsChild, Stored;
    match ReadLine(raw) {
      case Skipped =>
      case Entry(indent, key, value) =>
        var stack := Pop(s.stack, indent);
        var top := stack[|stack| - 1];
        PopBelow(s.stack, indent);
        assert stack == s.stack[..|stack|];
        assert Nested(stack) by { PopNests(s.stack, |stack|); }
        PushNests(stack, indent, key);
        hide Nested;
        var stored := Stored(NodeAt(s.root, top.path).children, key, value, moved);
        OpenPathsStay(s.root, stack, key, stored);
    }
  }

  lemma PopNests(stack: seq<Open>, n: nat)
    requires Nested(stack) && 0 < n <= |stack|
    ensures Nested(stack[..n])
  {
    hide IsChild;
  }

  lemma StartOK()
    ensures StackOK(START)
  {
  }

  /** The state after some lines. */
  function Parsed(lines: seq<string>, moved: Moved): (s: State)
    ensures StackOK(s)
  {
    if lines == [] then StartOK(); START
    else
      var s := Parsed(lines[..|lines| - 1], moved);
      StepKeepsStack(s, lines[|lines| - 1], moved);
      Step(s, lines[|lines| - 1], moved)
  }

  /** parse_yaml_file, on the lines of the file. */
  method ParseYaml(lines: seq<string>, moved: Moved) returns (root: Yaml)
    ensures root == Parsed(lines, moved).root
  {
    hide Exists, StackOK, RTrim, Strip, Find, Pop, NodeAt, WithChildren, Step, ReadLine, IsCommentOrBlank, Indent;
    root := EMPTY_MAP;
    var stack := [Open(-1, [])];
    for i := 0 to |lines|
      invariant State(root, stack) == Parsed(lines[..i], moved)
    {
      assert lines[..i + 1][..i] == lines[..i];
      ghost var before := State(root, stack);
      var line := RTrim(lines[i]);
      StepByLine(before, lines[i], moved);
      if IsCommentOrBlank(line) {
        continue;
      }
      var indent := Indent(line);
      var colon := Find(line, ':', indent);
      if colon == None {
        continue;
      }
      var key := Strip(line[indent..colon.value]);
      var value := Strip(line[colon.value + 1..]);
      var popped := PopStack(stack, indent);
      TopExists(before, indent);
      var parent := popped[|popped| - 1].path;
      var child := Child(value);
      if key in NodeAt(root, parent).children && child.isScalar {
        child := child.(scalar := moved(child.scalar));
      }
      root := WithChildren(root, parent, map[key := child]);
      stack := popped + [Open(indent, parent + [key])];
    }
    assert lines[..|lines|] == lines;
  }

  /** The effect of a line, by what it holds. */
  lemma StepByLine(s: State, raw: string, moved: Moved)
    requires StackOK(s)
    ensures var line := RTrim(raw); var indent := Indent(line); var colon := Find(line, ':', indent);
            var stack := Pop(s.stack, indent); var path := stack[|stack| - 1].path;
            if IsCommentOrBlank(line) || colon == None then Step(s, raw, moved) == s
            else
              var key, value := Strip(line[indent..colon.value]), Strip(line[colon.value + 1..]);
              Exists(s.root, path) &&
              Step(s, raw, moved)
              == State(WithChildren(s.root, path, map[key := Stored(NodeAt(s.root, path).children, key, value, moved)]),
                       stack + [Open(indent, path + [key])])
  {
    hide IsCommentOrBlank, Strip, Find, Indent, RTrim, WithChildren, NodeAt, Pop, Stored;
    TopExists(s, Indent(RTrim(raw)));
  }

  lemma TopExists(s: State, indent: int)
    requires StackOK(s)
    ensures var r := Pop(s.stack, indent); r != [] && Exists(s.root, r[|r| - 1].path)
  {
    var r := Pop(s.stack, indent);
    assert r[|r| - 1] == s.stack[|r| - 1];
  }

  method PopStack(stack: seq<Open>, indent: int) returns (r: seq<Open>)
    ensures r == Pop(stack, indent)
  {
    r := stack;
    while |r| > 1 && r[|r| - 1].indent >= indent
      invariant Pop(r, indent) == Pop(stack, indent)
      decreases |r|
    {
      r := r[..|r| - 1];
    }
  }
}
