/** The field reader for the /target response (control/target_json.cpp).

    Scanners are specified on the text that remains: how many characters they consume. */
module TargetJson {
  import opened Text
  import opened Wrappers
  import opened JsonGrammar

  function Plus(n: nat, r: Option<nat>): Option<nat> {
    if r.None? then None else Some(n + r.value)
  }

  // ---------- Specifications

  /** Characters up to and including the closing quote, from just after the opening one. */
  function InString(s: string): (r: Option<nat>)
    ensures r.Some? ==> 0 < r.value <= |s|
  {
    if s == "" then None
    else if s[0] == '\\' then (if |s| < 2 then None else Plus(2, InString(s[2..])))
    else if s[0] == '"' then Some(1)
    else Plus(1, InString(s[1..]))
  }

  /** Characters of a string literal. */
  function StringLength(s: string): (r: Option<nat>)
    ensures r.Some? ==> 0 < r.value <= |s|
  {
    if s == "" || s[0] != '"' then None else Plus(1, InString(s[1..]))
  }

  /** Characters until `depth` open brackets are closed again. */
  function InComposite(s: string, depth: nat): (r: Option<nat>)
    ensures r.Some? ==> 0 < r.value <= |s|
    decreases |s|
  {
    if s == "" then None
    else if s[0] == '"' then
      var n := StringLength(s);
      if n.None? then None else Plus(n.value, InComposite(s[n.value..], depth))
    else if s[0] == '{' || s[0] == '[' then Plus(1, InComposite(s[1..], depth + 1))
    else if s[0] == '}' || s[0] == ']' then
      if depth == 1 then Some(1)
      else if depth == 0 then None
      else Plus(1, InComposite(s[1..], depth - 1))
    else Plus(1, InComposite(s[1..], depth))
  }

  function CompositeLength(s: string): (r: Option<nat>)
    ensures r.Some? ==> 0 < r.value <= |s|
  {
    if s == "" || (s[0] != '{' && s[0] != '[') then None else InComposite(s, 0)
  }

  function TokenLength(s: string): (n: nat)
    ensures n <= |s|
  {
    if s == "" || s[0] == ',' || s[0] == '}' then 0 else 1 + TokenLength(s[1..])
  }

  function ValueLength(s: string): (r: Option<nat>)
    ensures r.Some? ==> r.value <= |s|
  {
    if s == "" then None
    else if s[0] == '"' then StringLength(s)
    else if s[0] == '{' || s[0] == '[' then CompositeLength(s)
    else
      var n := TokenLength(s);
      if RTrim(s[..n]) == "" then None else Some(n)
  }

  /** Characters before the quote that ends a key; a final backslash is an error. */
  function KeyLength(s: string): (r: Option<nat>)
    ensures r.Some? ==> r.value < |s|
  {
    if s == "" then None
    else if s[0] == '"' then Some(0)
    else if s[0] == '\\' then (if |s| < 2 then None else Plus(2, KeyLength(s[2..])))
    else Plus(1, KeyLength(s[1..]))
  }

  /** Something read off the front of a text, and what follows it. */
  datatype Piece = Piece(part: string, rest: string)

  function ReadKey(s: string): (r: Option<Piece>)
    ensures r.Some? ==> |r.value.rest| < |s|
  {
    hide KeyLength, Spaces, SkipSpace;
    var t := SkipSpace(s);
    if t == "" || t[0] != '"' then None
    else
      var k := KeyLength(t[1..]);
      if k.None? then None else Some(Piece(t[1..1 + k.value], t[k.value + 2..]))
  }

  function ReadColon(s: string): (r: Option<string>)
    ensures r.Some? ==> |r.value| < |s|
  {
    var t := SkipSpace(s);
    if t == "" || t[0] != ':' then None else Some(SkipSpace(t[1..]))
  }

  function ReadValue(s: string): (r: Option<Piece>)
    ensures r.Some? ==> |r.value.rest| <= |s|
  {
    var n := ValueLength(s);
    if n.None? then None else Some(Piece(RTrim(s[..n.value]), s[n.value..]))
  }

  function ReadComma(s: string): (r: Option<string>)
    ensures r.Some? ==> |r.value| < |s|
  {
    var t := SkipSpace(s);
    if t == "" || t[0] != ',' then None else Some(t[1..])
  }

  /** The lookup among the members that remain. */
  function FindMember(s: string, key: string): Option<string>
    decreases |s|
  {
    var k := ReadKey(s);
    if k.None? then None
    else
      var c := ReadColon(k.value.rest);
      if c.None? then None
      else
        var v := ReadValue(c.value);
        if v.None? then None
        else if '\\' !in k.value.part && k.value.part == key then Some(v.value.part)
        else
          var more := ReadComma(v.value.rest);
          if more.None? then None else FindMember(more.value, key)
  }

  function FindTopLevel(body: string, key: string): Option<string> {
    var s := SkipSpace(body);
    if s == "" || s[0] != '{' then None else FindMember(s[1..], key)
  }

  // ---------- The scanners

  /** The text from a position on, and between two positions. */
  function Tail(text: string, pos: nat): (r: string)
    requires pos <= |text|
  {
    text[pos..]
  }

  function Slice(text: string, start: nat, stop: nat): (r: string)
    requires start <= stop <= |text|
  {
    text[start..stop]
  }

  method SkipSpaceAt(text: string, start: nat) returns (pos: nat)
    requires start <= |text|
    ensures pos == start + Spaces(Tail(text, start)) && start <= pos <= |text|
  {
    pos := start;
    while pos < |text| && IsSpace(text[pos])
      invariant start <= pos <= |text|
      invariant start + Spaces(text[start..]) == pos + Spaces(text[pos..])
    {
      assert text[pos..][1..] == text[pos + 1..];
      pos := pos + 1;
    }
  }

  method ScanString(text: string, start: nat) returns (end: Option<nat>)
    requires start <= |text|
    ensures end == Plus(start, StringLength(Tail(text, start)))
    ensures end.Some? ==> start < end.value <= |text|
  {
    hide InString, StringLength, Tail;
    StringStarts(text, start);
    if start >= |text| || text[start] != '"' {
      return None;
    }
    var pos := start + 1;
    while pos < |text|
      invariant start < pos <= |text|
      invariant Plus(start, StringLength(Tail(text, start))) == Plus(pos, InString(Tail(text, pos)))
    {
      StringStep(text, pos);
      if text[pos] == '\\' {
        pos := pos + 1;
        if pos >= |text| {
          return None;
        }
        pos := pos + 1;
      } else if text[pos] == '"' {
        return Some(pos + 1);
      } else {
        pos := pos + 1;
      }
    }
    StringStep(text, pos);
    return None;
  }

  lemma StringStarts(text: string, start: nat)
    requires start <= |text|
    ensures if start < |text| && text[start] == '"'
            then StringLength(Tail(text, start)) == Plus(1, InString(Tail(text, start + 1)))
            else StringLength(Tail(text, start)) == None
  {
    hide InString;
    if start < |text| {
      assert text[start..][1..] == text[start + 1..];
    }
  }

  lemma StringStep(text: string, pos: nat)
    requires pos <= |text|
    ensures InString(Tail(text, pos)) ==
      if pos == |text| then None
      else if text[pos] == '\\' then (if pos + 1 >= |text| then None else Plus(2, InString(Tail(text, pos + 2))))
      else if text[pos] == '"' then Some(1)
      else Plus(1, InString(Tail(text, pos + 1)))
  {
    var s := text[pos..];
    assert pos < |text| ==> s[1..] == text[pos + 1..];
    assert pos + 1 < |text| ==> s[2..] == text[pos + 2..];
  }

  method ScanComposite(text: string, start: nat) returns (end: Option<nat>)
    requires start <= |text|
    ensures end == Plus(start, CompositeLength(Tail(text, start)))
  {
    hide InComposite, StringLength;
    if start >= |text| || (text[start] != '{' && text[start] != '[') {
      return None;
    }
    var depth: int := 0;
    var pos := start;
    while pos < |text|
      invariant start <= pos <= |text| && depth >= 0
      invariant Plus(start, CompositeLength(text[start..])) == Plus(pos, InComposite(text[pos..], depth))
      decreases |text| - pos
    {
      CompositeStep(text, pos, depth);
      if text[pos] == '"' {
        var next := ScanString(text, pos);
        if next == None {
          return None;
        }
        pos := next.value;
        continue;
      }
      if text[pos] == '{' || text[pos] == '[' {
        depth := depth + 1;
      } else if text[pos] == '}' || text[pos] == ']' {
        depth := depth - 1;
        pos := pos + 1;
        if depth == 0 {
          return Some(pos);
        }
        if depth < 0 {
          return None;
        }
        continue;
      }
      pos := pos + 1;
    }
    CompositeStep(text, pos, depth);
    return None;
  }

  lemma CompositeStep(text: string, pos: nat, depth: nat)
    requires pos <= |text|
    ensures pos == |text| ==> InComposite(text[pos..], depth) == None
    ensures pos < |text| ==>
      var here, c := InComposite(text[pos..], depth), text[pos];
      if c == '"' then
        var n := StringLength(text[pos..]);
        if n.None? then here == None else here == Plus(n.value, InComposite(text[pos + n.value..], depth))
      else if c == '{' || c == '[' then here == Plus(1, InComposite(text[pos + 1..], depth + 1))
      else if c == '}' || c == ']' then
        if depth == 1 then here == Some(1)
        else if depth == 0 then here == None
        else here == Plus(1, InComposite(text[pos + 1..], depth - 1))
      else here == Plus(1, InComposite(text[pos + 1..], depth))
  {
    var s := text[pos..];
    if pos < |text| {
      assert s[1..] == text[pos + 1..];
      var n := StringLength(s);
      assert n.Some? ==> s[n.value..] == text[pos + n.value..];
    }
  }

  method ScanValue(text: string, start: nat) returns (end: Option<nat>)
    requires start <= |text|
    ensures end == Plus(start, ValueLength(Tail(text, start)))
    ensures end.Some? ==> start <= end.value <= |text|
  {
    hide InString, InComposite, StringLength, CompositeLength, RTrim;
    if start >= |text| {
      return None;
    }
    if text[start] == '"' {
      end := ScanString(text, start);
      return;
    }
    if text[start] == '{' || text[start] == '[' {
      end := ScanComposite(text, start);
      return;
    }
    var pos := start;
    while pos < |text| && text[pos] != ',' && text[pos] != '}'
      invariant start <= pos <= |text|
      invariant start + TokenLength(text[start..]) == pos + TokenLength(text[pos..])
    {
      assert text[pos..][1..] == text[pos + 1..];
      pos := pos + 1;
    }
    assert text[start..][..pos - start] == text[start..pos];
    var trimmed := TrimEnd(text, start, pos);
    return if trimmed > start then Some(pos) else None;
  }

  method TrimEnd(text: string, start: nat, stop: nat) returns (end: nat)
    requires start <= stop <= |text|
    ensures start <= end <= stop && Slice(text, start, end) == RTrim(Slice(text, start, stop))
  {
    end := stop;
    while end > start && IsSpace(text[end - 1])
      invariant start <= end <= stop
      invariant RTrim(text[start..end]) == RTrim(text[start..stop])
    {
      assert text[start..end][..end - start - 1] == text[start..end - 1];
      end := end - 1;
    }
  }

  method ScanKey(text: string, start: nat) returns (end: Option<nat>, escaped: bool)
    requires start <= |text|
    ensures end == Plus(start, KeyLength(Tail(text, start)))
    ensures end.Some? ==> start <= end.value < |text| && (escaped <==> '\\' in Slice(text, start, end.value))
  {
    hide KeyLength;
    var pos := start;
    escaped := false;
    while pos < |text| && text[pos] != '"'
      invariant start <= pos <= |text|
      invariant Plus(start, KeyLength(text[start..])) == Plus(pos, KeyLength(text[pos..]))
      invariant escaped <==> '\\' in text[start..pos]
    {
      KeyStep(text, start, pos);
      if text[pos] == '\\' {
        escaped := true;
        pos := pos + 1;
        if pos >= |text| {
          return None, escaped;
        }
      }
      pos := pos + 1;
    }
    KeyStep(text, start, pos);
    return if pos >= |text| then None else Some(pos), escaped;
  }

  lemma KeyStep(text: string, start: nat, pos: nat)
    requires start <= pos <= |text|
    ensures pos == |text| ==> KeyLength(text[pos..]) == None
    ensures pos < |text| && text[pos] == '"' ==> KeyLength(text[pos..]) == Some(0)
    ensures pos < |text| && text[pos] != '"' ==>
      var here := KeyLength(text[pos..]);
      if text[pos] == '\\' then
        if pos + 1 >= |text| then here == None
        else here == Plus(2, KeyLength(text[pos + 2..])) && '\\' in text[start..pos + 2]
      else
        here == Plus(1, KeyLength(text[pos + 1..]))
        && ('\\' in text[start..pos + 1] <==> '\\' in text[start..pos])
  {
    if pos == |text| || text[pos] == '"' {
      return;
    }
    var s := text[pos..];
    assert s[1..] == text[pos + 1..];
    if text[pos] == '\\' {
      if pos + 1 < |text| {
        assert s[2..] == text[pos + 2..];
        assert text[start..pos + 2][pos - start] == '\\';
      }
    } else {
      assert text[start..pos + 1] == text[start..pos] + [text[pos]];
    }
  }

  lemma KeyAt(text: string, pos: nat, quote: nat, end: Option<nat>)
    requires pos <= quote <= |text| && quote == pos + Spaces(Tail(text, pos))
    requires quote < |text| && text[quote] == '"' ==> end == Plus(quote + 1, KeyLength(Tail(text, quote + 1)))
    ensures var k := ReadKey(Tail(text, pos));
            if quote >= |text| || text[quote] != '"' || end.None? then k == None
            else end.value < |text| && k == Some(Piece(Slice(text, quote + 1, end.value), Tail(text, end.value + 1)))
  {
    hide Spaces, KeyLength;
    var t := text[quote..];
    assert SkipSpace(text[pos..]) == t;
    if quote < |text| && text[quote] == '"' {
      assert t[1..] == text[quote + 1..];
      if end.Some? {
        var k := end.value - quote - 1;
        assert t[1..1 + k] == text[quote + 1..end.value] && t[k + 2..] == text[end.value + 1..];
      }
    }
  }

  lemma ColonAt(text: string, pos: nat, colon: nat, value: nat)
    requires pos <= colon <= |text| && colon == pos + Spaces(Tail(text, pos))
    requires colon < |text| ==> value == colon + 1 + Spaces(Tail(text, colon + 1))
    ensures ReadColon(Tail(text, pos)) == if colon < |text| && text[colon] == ':' then Some(Tail(text, value)) else None
  {
    hide Spaces;
    var t := text[colon..];
    assert SkipSpace(text[pos..]) == t;
    if colon < |text| {
      assert t[1..] == text[colon + 1..];
      assert SkipSpace(t[1..]) == text[value..];
    }
  }

  lemma ValueAt(text: string, value: nat, end: nat, trimmed: nat)
    requires value <= trimmed <= end <= |text| && Some(end) == Plus(value, ValueLength(Tail(text, value)))
    requires Slice(text, value, trimmed) == RTrim(Slice(text, value, end))
    ensures ReadValue(Tail(text, value)) == Some(Piece(Slice(text, value, trimmed), Tail(text, end)))
  {
    hide ValueLength, RTrim;
    var s := text[value..];
    assert s[..end - value] == text[value..end] && s[end - value..] == text[end..];
  }

  lemma NoValueAt(s: string, n: nat)
    requires Plus(n, ValueLength(s)) == None
    ensures ReadValue(s) == None
  {
  }

  lemma CommaAt(text: string, pos: nat, comma: nat)
    requires pos <= comma <= |text| && comma == pos + Spaces(Tail(text, pos))
    ensures ReadComma(Tail(text, pos)) == if comma < |text| && text[comma] == ',' then Some(Tail(text, comma + 1)) else None
  {
    hide Spaces;
    var t := text[comma..];
    assert SkipSpace(text[pos..]) == t;
    if comma < |text| {
      assert t[1..] == text[comma + 1..];
    }
  }

  lemma StartAt(text: string, pos: nat, key: string)
    requires pos <= |text| && pos == Spaces(Tail(text, 0))
    ensures FindTopLevel(text, key)
         == if pos < |text| && text[pos] == '{' then FindMember(Tail(text, pos + 1), key) else None
  {
    hide FindMember, Spaces;
    assert text[0..] == text;
    if pos < |text| {
      assert text[pos..][1..] == text[pos + 1..];
    }
  }

  /** How far one turn of the lookup gets, by what it reads. */
  lemma OneTurn(s: string, key: string, k: Option<Piece>, c: Option<string>, v: Option<Piece>, more: Option<string>)
    requires k == ReadKey(s)
    requires k.Some? ==> c == ReadColon(k.value.rest)
    requires k.Some? && c.Some? ==> v == ReadValue(c.value)
    requires k.Some? && c.Some? && v.Some? ==> more == ReadComma(v.value.rest)
    ensures FindMember(s, key) ==
      if k.None? || c.None? || v.None? then None
      else if '\\' !in k.value.part && k.value.part == key then Some(v.value.part)
      else if more.None? then None
      else FindMember(more.value, key)
  {
    hide ReadKey, ReadColon, ReadValue, ReadComma;
  }

  /** find_top_level_value */
  method FindTopLevelValue(text: string, key: string) returns (r: Option<string>)
    ensures r == FindTopLevel(text, key)
  {
    hide *;
    var pos := SkipSpaceAt(text, 0);
    StartAt(text, pos, key);
    if pos >= |text| || text[pos] != '{' {
      return None;
    }
    pos := pos + 1;
    while true
      invariant pos <= |text|
      invariant FindTopLevel(text, key) == FindMember(Tail(text, pos), key)
      decreases |text| - pos
    {
      ghost var s := Tail(text, pos);
      ghost var member := pos;
      pos := SkipSpaceAt(text, pos);
      if pos >= |text| || text[pos] != '"' {
        KeyAt(text, member, pos, None);
        OneTurn(s, key, None, None, None, None);
        return None;
      }
      pos := pos + 1;
      var keyStart := pos;
      var keyEnd, escaped := ScanKey(text, keyStart);
      KeyAt(text, member, keyStart - 1, keyEnd);
      if keyEnd == None {
        OneTurn(s, key, None, None, None, None);
        return None;
      }
      ghost var k := Piece(Slice(text, keyStart, keyEnd.value), Tail(text, keyEnd.value + 1));
      pos := keyEnd.value + 1;
      pos := SkipSpaceAt(text, pos);
      if pos >= |text| || text[pos] != ':' {
        ColonAt(text, keyEnd.value + 1, pos, pos + 1 + if pos < |text| then Spaces(Tail(text, pos + 1)) else 0);
        OneTurn(s, key, Some(k), None, None, None);
        return None;
      }
      ghost var colon := pos;
      pos := SkipSpaceAt(text, pos + 1);
      ColonAt(text, keyEnd.value + 1, colon, pos);
      var valueStart := pos;
      var end := ScanValue(text, pos);
      if end == None {
        NoValueAt(Tail(text, valueStart), valueStart);
        OneTurn(s, key, Some(k), Some(Tail(text, valueStart)), None, None);
        return None;
      }
      pos := end.value;
      var valueEnd := TrimEnd(text, valueStart, pos);
      ValueAt(text, valueStart, pos, valueEnd);
      ghost var v := Piece(Slice(text, valueStart, valueEnd), Tail(text, pos));
      OneTurn(s, key, Some(k), Some(Tail(text, valueStart)), Some(v), ReadComma(v.rest));
      if !escaped && Slice(text, keyStart, keyEnd.value) == key {
        return Some(Slice(text, valueStart, valueEnd));
      }
      pos := SkipSpaceAt(text, pos);
      CommaAt(text, end.value, pos);
      if pos >= |text| || text[pos] != ',' {
        return None;
      }
      pos := pos + 1;
    }
  }

  // ---------- Scanning what the grammar prints

  lemma {:induction false} ScanRaw(raw: string, rest: string)
    requires RawString(raw)
    ensures InString(raw + "\"" + rest) == Some(|raw| + 1)
    ensures KeyLength(raw + "\"" + rest) == Some(|raw|)
  {
    var s := raw + "\"" + rest;
    if raw == "" {
      assert s[0] == '"';
    } else if raw[0] == '\\' {
      assert s[2..] == raw[2..] + "\"" + rest;
      ScanRaw(raw[2..], rest);
    } else {
      assert s[1..] == raw[1..] + "\"" + rest;
      ScanRaw(raw[1..], rest);
    }
  }

  lemma ScanQuoted(raw: string, rest: string)
    requires RawString(raw)
    ensures StringLength(Quoted(raw) + rest) == Some(|Quoted(raw)|)
  {
    assert (Quoted(raw) + rest)[1..] == raw + "\"" + rest;
    ScanRaw(raw, rest);
  }

  /** Skipped text: scanning it keeps the bracket depth. */
  ghost predicate Skipped(s: string, rest: string, depth: nat) {
    InComposite(s + rest, depth) == Plus(|s|, InComposite(rest, depth))
  }

  lemma SkippedConcat(a: string, b: string, rest: string, depth: nat)
    requires Skipped(a, b + rest, depth) && Skipped(b, rest, depth)
    ensures Skipped(a + b, rest, depth)
  {
    hide InComposite;
    assert a + b + rest == a + (b + rest);
  }

  lemma {:induction false} PlainSkipped(s: string, rest: string, depth: nat)
    requires forall i :: 0 <= i < |s| ==> s[i] !in {'"', '{', '}', '[', ']'}
    ensures Skipped(s, rest, depth)
  {
    if s == "" {
      assert s + rest == rest;
    } else {
      assert (s + rest)[1..] == s[1..] + rest;
      PlainSkipped(s[1..], rest, depth);
    }
  }

  lemma QuotedSkipped(raw: string, rest: string, depth: nat)
    requires RawString(raw)
    ensures Skipped(Quoted(raw), rest, depth)
  {
    ScanQuoted(raw, rest);
    assert (Quoted(raw) + rest)[|Quoted(raw)|..] == rest;
  }

  lemma BracketsSkipped(open: string, inside: string, close: string, rest: string, depth: nat)
    requires depth > 0
    requires (open == "{" && close == "}") || (open == "[" && close == "]")
    requires Skipped(inside, close + rest, depth + 1)
    ensures Skipped(open + inside + close, rest, depth)
  {
    hide *;
    Reassociated(open, inside, close, rest);
    SkippedIs(inside, close + rest, depth + 1);
    SkippedIs(open + inside + close, rest, depth);
    OpenStep(open, inside + (close + rest), depth);
    CloseStep(close, rest, depth + 1);
    PlusThrice(|inside|, InComposite(rest, depth));
  }

  lemma Reassociated(a: string, b: string, c: string, d: string)
    ensures a + b + c + d == a + (b + (c + d)) && |a + b + c| == |a| + |b| + |c|
  {
  }

  lemma SkippedIs(s: string, rest: string, depth: nat)
    ensures Skipped(s, rest, depth) <==> InComposite(s + rest, depth) == Plus(|s|, InComposite(rest, depth))
  {
    hide InComposite;
  }

  lemma PlusThrice(n: nat, r: Option<nat>)
    ensures Plus(1, Plus(n, Plus(1, r))) == Plus(n + 2, r)
  {
  }

  lemma OpenStep(open: string, rest: string, depth: nat)
    requires open == "{" || open == "["
    ensures InComposite(open + rest, depth) == Plus(1, InComposite(rest, depth + 1))
  {
    assert (open + rest)[1..] == rest;
  }

  lemma CloseStep(close: string, rest: string, depth: nat)
    requires depth > 1 && (close == "}" || close == "]")
    ensures InComposite(close + rest, depth) == Plus(1, InComposite(rest, depth - 1))
  {
    assert (close + rest)[1..] == rest;
  }

  /** MAIN: the bracket counter passes over any value, whatever its nesting and whatever
      brackets its strings contain. */
  lemma {:induction false} ValueSkipped(v: Json, rest: string, depth: nat)
    requires WellFormed(v) && depth > 0
    ensures Skipped(Print(v), rest, depth)
    decreases v, 0
  {
    hide InComposite, Skipped;
    match v {
      case Str(raw) => QuotedSkipped(raw, rest, depth);
      case Bare(token) => PlainSkipped(token, rest, depth);
      case Arr(pad, items) =>
        if items.NoItems? {
          PlainSkipped(pad, "]" + rest, depth + 1);
          BracketsSkipped("[", pad, "]", rest, depth);
        } else {
          ItemsSkipped(items, "]" + rest, depth + 1);
          BracketsSkipped("[", PrintItems(items), "]", rest, depth);
        }
      case Obj(pad, members) =>
        if members.NoMembers? {
          PlainSkipped(pad, "}" + rest, depth + 1);
          BracketsSkipped("{", pad, "}", rest, depth);
        } else {
          MembersSkipped(members, "}" + rest, depth + 1);
          BracketsSkipped("{", PrintMembers(members), "}", rest, depth);
        }
    }
  }

  lemma {:induction false} ItemsSkipped(items: Items, rest: string, depth: nat)
    requires WellFormedItems(items) && items.Item? && depth > 0
    ensures Skipped(PrintItems(items), rest, depth)
    decreases items, 0
  {
    hide InComposite, Skipped;
    var more := if items.rest.NoItems? then "" else "," + PrintItems(items.rest);
    if items.rest.NoItems? {
      PlainSkipped("", rest, depth);
    } else {
      ItemsSkipped(items.rest, rest, depth);
      PlainSkipped(",", PrintItems(items.rest) + rest, depth);
      SkippedConcat(",", PrintItems(items.rest), rest, depth);
    }
    PaddedSkipped(items.before, items.value, items.after, more, rest, depth);
  }

  lemma {:induction false} MembersSkipped(members: Members, rest: string, depth: nat)
    requires WellFormedMembers(members) && members.Member? && depth > 0
    ensures Skipped(PrintMembers(members), rest, depth)
    decreases members, 0
  {
    hide InComposite, Skipped, Print, Quoted, RawString, Blank, WellFormed;
    var m := members;
    var more := if m.rest.NoMembers? then "" else "," + PrintMembers(m.rest);
    if m.rest.NoMembers? {
      PlainSkipped("", rest, depth);
    } else {
      MembersSkipped(m.rest, rest, depth);
      PlainSkipped(",", PrintMembers(m.rest) + rest, depth);
      SkippedConcat(",", PrintMembers(m.rest), rest, depth);
    }
    PaddedSkipped(m.colonAfter, m.value, m.after, more, rest, depth);
    KeySkipped(m.before, m.key, m.colonBefore, m.colonAfter + Print(m.value) + m.after + more, rest, depth);
    assert PrintMembers(m)
        == m.before + Quoted(m.key) + m.colonBefore + ":" + (m.colonAfter + Print(m.value) + m.after + more);
  }

  lemma KeySkipped(before: string, key: string, colonBefore: string, tail: string, rest: string, depth: nat)
    requires Blank(before) && RawString(key) && Blank(colonBefore)
    requires Skipped(tail, rest, depth)
    ensures Skipped(before + Quoted(key) + colonBefore + ":" + tail, rest, depth)
  {
    hide InComposite, Skipped, Quoted, RawString;
    var colon := colonBefore + ":";
    PlainSkipped(colon, tail + rest, depth);
    SkippedConcat(colon, tail, rest, depth);
    QuotedSkipped(key, (colon + tail) + rest, depth);
    SkippedConcat(Quoted(key), colon + tail, rest, depth);
    PlainSkipped(before, (Quoted(key) + (colon + tail)) + rest, depth);
    SkippedConcat(before, Quoted(key) + (colon + tail), rest, depth);
    assert before + Quoted(key) + colonBefore + ":" + tail == before + (Quoted(key) + (colon + tail));
  }

  lemma PaddedSkipped(before: string, v: Json, after: string, more: string, rest: string, depth: nat)
    requires Blank(before) && Blank(after) && WellFormed(v) && depth > 0
    requires Skipped(more, rest, depth)
    ensures Skipped(before + Print(v) + after + more, rest, depth)
    decreases v, 1
  {
    hide InComposite, Skipped, Print;
    PlainSkipped(after, more + rest, depth);
    SkippedConcat(after, more, rest, depth);
    ValueSkipped(v, (after + more) + rest, depth);
    SkippedConcat(Print(v), after + more, rest, depth);
    PlainSkipped(before, (Print(v) + (after + more)) + rest, depth);
    SkippedConcat(before, Print(v) + (after + more), rest, depth);
    assert before + Print(v) + after + more == before + (Print(v) + (after + more));
  }

  // ---------- The lookup is exact

  lemma {:induction false} TokenThenSpace(token: string, after: string, rest: string)
    requires (token == "" || Token(token)) && Blank(after)
    requires rest != "" && (rest[0] == ',' || rest[0] == '}')
    ensures TokenLength(token + after + rest) == |token| + |after|
    decreases |token| + |after|
  {
    var s := token + after + rest;
    if token != "" {
      assert s[1..] == token[1..] + after + rest;
      TokenThenSpace(token[1..], after, rest);
    } else if after != "" {
      assert s[1..] == token + after[1..] + rest;
      TokenThenSpace(token, after[1..], rest);
    } else {
      assert s == rest;
    }
  }

  lemma CompositeRead(open: string, inside: string, close: string, rest: string)
    requires (open == "{" && close == "}") || (open == "[" && close == "]")
    requires Skipped(inside, close + rest, 1)
    ensures CompositeLength(open + inside + close + rest) == Some(|inside| + 2)
  {
    var s := open + inside + close + rest;
    assert s[1..] == inside + (close + rest);
    assert InComposite(close + rest, 1) == Some(1);
  }

  /** A printed value is read to its end; white space after a bare token comes along and is
      trimmed off again. */
  lemma ValueRead(v: Json, after: string, rest: string)
    requires WellFormed(v) && Blank(after) && rest != "" && (rest[0] == ',' || rest[0] == '}')
    ensures var r := ReadValue(Print(v) + (after + rest));
            r.Some? && r.value.part == Print(v) && SkipSpace(r.value.rest) == rest
  {
    hide InComposite, Skipped, TokenLength, Print;
    if v.Bare? {
      BareRead(v.token, after, rest);
    } else {
      LengthRead(v, after + rest);
      ReadWhole(v, after, rest);
    }
  }

  lemma ReadWhole(v: Json, after: string, rest: string)
    requires WellFormed(v) && Blank(after) && rest != "" && !IsSpace(rest[0])
    requires ValueLength(Print(v) + (after + rest)) == Some(|Print(v)|)
    ensures ReadValue(Print(v) + (after + rest)) == Some(Piece(Print(v), after + rest))
    ensures SkipSpace(after + rest) == rest
  {
    hide ValueLength, RTrim;
    var s := Print(v) + (after + rest);
    PrintEnds(v);
    TrimBlank(Print(v), "");
    assert Print(v) + "" == Print(v);
    SkipBlank(after, rest);
    assert s[..|Print(v)|] == Print(v) && s[|Print(v)|..] == after + rest;
  }

  lemma PrintEnds(v: Json)
    requires WellFormed(v)
    ensures Print(v) != "" && !IsSpace(Print(v)[|Print(v)| - 1])
  {
  }

  lemma BareRead(token: string, after: string, rest: string)
    requires Token(token) && Blank(after) && rest != "" && (rest[0] == ',' || rest[0] == '}')
    ensures Print(Bare(token)) == token
    ensures ReadValue(token + (after + rest)) == Some(Piece(token, rest))
    ensures SkipSpace(rest) == rest
  {
    hide TokenLength, RTrim, Blank, Token;
    var s := token + (after + rest);
    assert s == token + after + rest;
    TokenThenSpace(token, after, rest);
    TokenEnds(token);
    TrimBlank(token, after);
    SkipBlank("", rest);
    BlankEmpty();
    assert "" + rest == rest;
    assert s[..|token| + |after|] == token + after;
    assert s[|token| + |after|..] == rest;
    assert s[0] == token[0];
  }

  lemma BlankEmpty()
    ensures Blank("")
  {
  }

  lemma TokenEnds(token: string)
    requires Token(token)
    ensures token != "" && !IsSpace(token[|token| - 1]) && token[0] !in {'"', '{', '['}
  {
    assert TokenChar(token[0]) && TokenChar(token[|token| - 1]);
  }

  lemma LengthRead(v: Json, rest: string)
    requires WellFormed(v) && !v.Bare?
    ensures ValueLength(Print(v) + rest) == Some(|Print(v)|)
  {
    hide InComposite, Skipped, StringLength;
    match v {
      case Str(raw) =>
        ScanQuoted(raw, rest);
      case Arr(pad, items) =>
        if items.NoItems? {
          PlainSkipped(pad, "]" + rest, 1);
          CompositeRead("[", pad, "]", rest);
        } else {
          ItemsSkipped(items, "]" + rest, 1);
          CompositeRead("[", PrintItems(items), "]", rest);
        }
      case Obj(pad, members) =>
        if members.NoMembers? {
          PlainSkipped(pad, "}" + rest, 1);
          CompositeRead("{", pad, "}", rest);
        } else {
          MembersSkipped(members, "}" + rest, 1);
          CompositeRead("{", PrintMembers(members), "}", rest);
        }
    }
  }

  lemma KeyRead(before: string, raw: string, rest: string)
    requires Blank(before) && RawString(raw)
    ensures ReadKey(before + (Quoted(raw) + rest)) == Some(Piece(raw, rest))
  {
    hide KeyLength, RawString;
    var t := Quoted(raw) + rest;
    SkipBlank(before, t);
    assert t[1..] == raw + "\"" + rest;
    ScanRaw(raw, rest);
    assert t[1..1 + |raw|] == raw && t[|raw| + 2..] == rest;
  }

  lemma ColonRead(before: string, after: string, rest: string)
    requires Blank(before) && Blank(after) && rest != "" && !IsSpace(rest[0])
    ensures ReadColon(before + (":" + (after + rest))) == Some(rest)
  {
    var t := ":" + (after + rest);
    SkipBlank(before, t);
    assert t[1..] == after + rest;
    SkipBlank(after, rest);
  }

  lemma CommaRead(s: string, rest: string)
    requires SkipSpace(s) == rest && rest != ""
    ensures ReadComma(s) == if rest[0] == ',' then Some(rest[1..]) else None
  {
  }

  /** One printed member, followed by what separates it from the next or ends the object. */
  lemma MemberRead(m: Members, rest: string, key: string)
    requires m.Member? && WellFormedMembers(m) && rest != "" && (rest[0] == ',' || rest[0] == '}')
    ensures var text := m.before + Quoted(m.key) + m.colonBefore + ":" + m.colonAfter + Print(m.value) + m.after + rest;
            FindMember(text, key) ==
              if m.key == key && '\\' !in m.key then Some(Print(m.value))
              else if rest[0] == ',' then FindMember(rest[1..], key) else None
  {
    hide Print, Quoted, ReadKey, ReadColon, ReadValue, ReadComma, RawString, Blank, WellFormed, SkipSpace;
    var value := Print(m.value) + (m.after + rest);
    var colon := m.colonBefore + (":" + (m.colonAfter + value));
    assert m.before + Quoted(m.key) + m.colonBefore + ":" + m.colonAfter + Print(m.value) + m.after + rest
        == m.before + (Quoted(m.key) + colon);
    KeyRead(m.before, m.key, colon);
    PrintStarts(m.value, m.after + rest);
    ColonRead(m.colonBefore, m.colonAfter, value);
    ValueRead(m.value, m.after, rest);
    CommaRead(ReadValue(value).value.rest, rest);
  }

  lemma PrintStarts(v: Json, rest: string)
    requires WellFormed(v)
    ensures Print(v) + rest != "" && !IsSpace((Print(v) + rest)[0])
  {
  }

  lemma {:induction false} MembersRead(members: Members, trail: string, key: string)
    requires members.Member? && WellFormedMembers(members)
    ensures FindMember(PrintMembers(members) + "}" + trail, key) == Lookup(members, key)
    decreases members
  {
    hide Print, Quoted, FindMember, RawString, Blank, WellFormed;
    var m := members;
    if m.rest.NoMembers? {
      var rest := "}" + trail;
      assert PrintMembers(m) + "}" + trail
          == m.before + Quoted(m.key) + m.colonBefore + ":" + m.colonAfter + Print(m.value) + m.after + rest;
      MemberRead(m, rest, key);
    } else {
      var rest := "," + (PrintMembers(m.rest) + "}" + trail);
      assert PrintMembers(m) + "}" + trail
          == m.before + Quoted(m.key) + m.colonBefore + ":" + m.colonAfter + Print(m.value) + m.after + rest;
      MemberRead(m, rest, key);
      assert rest[1..] == PrintMembers(m.rest) + "}" + trail;
      MembersRead(m.rest, trail, key);
    }
  }

  /** MAIN: in every well-formed object text the lookup returns exactly the text of the first
      top-level member with the key, and nothing when there is none - never anything from
      inside a nested value or a string. */
  lemma LookupExact(lead: string, pad: string, members: Members, trail: string, key: string)
    requires Blank(lead) && Blank(pad) && WellFormedMembers(members)
    ensures FindTopLevel(ObjectText(lead, pad, members, trail), key) == Lookup(members, key)
  {
    hide FindMember, PrintMembers, WellFormedMembers;
    var inside := if members.NoMembers? then pad else PrintMembers(members);
    var s := "{" + inside + "}" + trail;
    var text := ObjectText(lead, pad, members, trail);
    assert text == lead + s;
    SkipBlank(lead, s);
    assert s[1..] == inside + "}" + trail;
    if members.NoMembers? {
      EmptyObject(pad, trail, key);
    } else {
      MembersRead(members, trail, key);
    }
  }

  lemma EmptyObject(pad: string, trail: string, key: string)
    requires Blank(pad)
    ensures FindMember(pad + "}" + trail, key) == None
  {
    assert pad + "}" + trail == pad + ("}" + trail);
    SkipBlank(pad, "}" + trail);
  }

  // ---------- On any text at all

  /** Somewhere in the text stand the quoted key, a colon, and the value. */
  ghost predicate HasPair(text: string, key: string, value: string) {
    exists pre, c1, c2, post :: PairAt(text, key, value, pre, c1, c2, post)
  }

  predicate PairAt(text: string, key: string, value: string, pre: string, c1: string, c2: string, post: string) {
    Blank(c1) && Blank(c2) && text == pre + Quoted(key) + c1 + ":" + c2 + value + post
  }

  lemma {:induction false} SkipSplits(s: string)
    ensures Blank(s[..Spaces(s)]) && s == s[..Spaces(s)] + SkipSpace(s)
  {
    if s != "" && IsSpace(s[0]) {
      SkipSplits(s[1..]);
      forall i | 0 <= i < Spaces(s)
        ensures IsSpace(s[i])
      {
        assert i > 0 ==> s[i] == s[1..][..Spaces(s[1..])][i - 1];
      }
    }
  }

  lemma {:induction false} KeyEnds(s: string)
    requires KeyLength(s).Some?
    ensures s[KeyLength(s).value] == '"'
  {
    if s[0] == '\\' {
      KeyEnds(s[2..]);
    } else if s[0] != '"' {
      KeyEnds(s[1..]);
    }
  }

  lemma KeySplits(s: string)
    requires ReadKey(s).Some?
    ensures exists ws :: s == ws + Quoted(ReadKey(s).value.part) + ReadKey(s).value.rest
  {
    hide KeyLength, Spaces, SkipSpace;
    var t := SkipSpace(s);
    SkipSplits(s);
    KeyEnds(t[1..]);
    var k := KeyLength(t[1..]).value;
    assert t == "\"" + t[1..1 + k] + "\"" + t[k + 2..];
    assert s == s[..Spaces(s)] + Quoted(t[1..1 + k]) + t[k + 2..];
  }

  lemma ColonSplits(s: string)
    requires ReadColon(s).Some?
    ensures exists c1, c2 :: Blank(c1) && Blank(c2) && s == c1 + ":" + c2 + ReadColon(s).value
  {
    ReadColonIs(s);
    hide *;
    var t := SkipSpace(s);
    SkipSplits(s);
    SkipSplits(t[1..]);
    var c1, c2 := s[..Spaces(s)], t[1..][..Spaces(t[1..])];
    assert t == ":" + t[1..];
    Joined(s, c1, t, t[1..], c2, SkipSpace(t[1..]));
  }

  lemma ReadColonIs(s: string)
    requires ReadColon(s).Some?
    ensures SkipSpace(s) != "" && SkipSpace(s)[0] == ':' && ReadColon(s).value == SkipSpace(SkipSpace(s)[1..])
  {
    hide Spaces, SkipSpace;
  }

  lemma Joined(s: string, c1: string, t: string, u: string, c2: string, rest: string)
    requires s == c1 + t && t == ":" + u && u == c2 + rest
    ensures s == c1 + ":" + c2 + rest
  {
  }

  lemma ValueSplits(s: string)
    requires ReadValue(s).Some?
    ensures exists mid :: s == ReadValue(s).value.part + mid + ReadValue(s).value.rest
  {
    hide ValueLength;
    var n := ValueLength(s).value;
    var part := RTrim(s[..n]);
    assert s[..n] == part + s[..n][|part|..];
    assert s == part + s[..n][|part|..] + s[n..];
  }

  lemma CommaSplits(s: string)
    requires ReadComma(s).Some?
    ensures exists pre :: s == pre + ReadComma(s).value
  {
    hide Spaces, SkipSpace;
    SkipSplits(s);
    var t := SkipSpace(s);
    assert t == "," + t[1..];
    assert s == (s[..Spaces(s)] + ",") + t[1..];
  }

  lemma PairLater(pre: string, more: string, key: string, value: string)
    requires HasPair(more, key, value)
    ensures HasPair(pre + more, key, value)
  {
    hide Quoted, Blank;
    var p, c1, c2, post :| PairAt(more, key, value, p, c1, c2, post);
    assert pre + more == (pre + p) + Quoted(key) + c1 + ":" + c2 + value + post;
    assert PairAt(pre + more, key, value, pre + p, c1, c2, post);
  }

  lemma {:induction false} MemberIsThere(s: string, key: string)
    requires FindMember(s, key).Some?
    ensures HasPair(s, key, FindMember(s, key).value)
    decreases |s|
  {
    FindMemberIs(s, key);
    hide *;
    var k := ReadKey(s).value;
    var c := ReadColon(k.rest).value;
    var v := ReadValue(c).value;
    KeySplits(s);
    var ws :| s == ws + Quoted(k.part) + k.rest;
    ColonSplits(k.rest);
    var c1, c2 :| Blank(c1) && Blank(c2) && k.rest == c1 + ":" + c2 + c;
    ValueSplits(c);
    var mid :| c == v.part + mid + v.rest;
    Assembled(s, ws, Quoted(k.part), k.rest, c1, c2, c, v.part, mid, v.rest);
    if '\\' !in k.part && k.part == key {
      PairHere(s, key, v.part, ws, c1, c2, mid + v.rest);
    } else {
      var more := ReadComma(v.rest).value;
      CommaSplits(v.rest);
      var pre :| v.rest == pre + more;
      MemberIsThere(more, key);
      var head := ws + Quoted(k.part) + (c1 + ":" + c2 + (v.part + (mid + pre)));
      Behind(ws + Quoted(k.part), c1 + ":" + c2, v.part, mid, pre, more);
      PairLater(head, more, key, FindMember(more, key).value);
    }
  }

  lemma Assembled(s: string, ws: string, q: string, kr: string, c1: string, c2: string, c: string, v: string,
                  mid: string, vr: string)
    requires s == ws + q + kr && kr == c1 + ":" + c2 + c && c == v + mid + vr
    ensures s == ws + q + (c1 + ":" + c2 + (v + (mid + vr)))
  {
    assert v + mid + vr == v + (mid + vr);
  }

  lemma Behind(a: string, b: string, v: string, mid: string, pre: string, more: string)
    ensures a + (b + (v + (mid + (pre + more)))) == a + (b + (v + (mid + pre))) + more
  {
  }

  lemma FindMemberIs(s: string, key: string)
    requires FindMember(s, key).Some?
    ensures ReadKey(s).Some? && ReadColon(ReadKey(s).value.rest).Some?
    ensures ReadValue(ReadColon(ReadKey(s).value.rest).value).Some?
    ensures var k := ReadKey(s).value; var v := ReadValue(ReadColon(k.rest).value).value;
            if '\\' !in k.part && k.part == key then FindMember(s, key) == Some(v.part)
            else ReadComma(v.rest).Some? && |ReadComma(v.rest).value| < |s|
                 && FindMember(s, key) == FindMember(ReadComma(v.rest).value, key)
  {
    hide ReadKey, ReadColon, ReadValue, ReadComma;
  }

  lemma PairHere(s: string, key: string, value: string, pre: string, c1: string, c2: string, post: string)
    requires Blank(c1) && Blank(c2) && s == pre + Quoted(key) + (c1 + ":" + c2 + (value + post))
    ensures HasPair(s, key, value)
  {
    hide Quoted, Blank;
    assert PairAt(s, key, value, pre, c1, c2, post);
  }

  /** MAIN: on any text, well-formed or not, what the lookup finds is there: the text is an
      opening brace after white space, and behind it stand the quoted key, a colon and the
      value. */
  lemma LookupSound(body: string, key: string)
    requires FindTopLevel(body, key).Some?
    ensures exists ws, rest ::
              Blank(ws) && body == ws + "{" + rest && HasPair(rest, key, FindTopLevel(body, key).value)
  {
    hide Spaces, SkipSpace, HasPair;
    SkipSplits(body);
    var s := SkipSpace(body);
    MemberIsThere(s[1..], key);
    assert s == "{" + s[1..];
    assert body == body[..Spaces(body)] + "{" + s[1..];
  }

  // ---------- Where the scans stop, on any text

  /** A bare token ends at the first comma or closing brace, or with the text. */
  lemma {:induction false} TokenStops(s: string)
    ensures var n := TokenLength(s);
            && (forall i :: 0 <= i < n ==> s[i] != ',' && s[i] != '}')
            && (n < |s| ==> s[n] == ',' || s[n] == '}')
  {
    if s != "" && s[0] != ',' && s[0] != '}' {
      TokenStops(s[1..]);
      forall i | 0 <= i < TokenLength(s)
        ensures s[i] != ',' && s[i] != '}'
      {
        assert i > 0 ==> s[i] == s[1..][i - 1];
      }
    }
  }

  /** A string literal ends at the first quote that no backslash escapes, and fails exactly when
      there is none. */
  lemma {:induction false} StringStops(s: string, n: nat)
    ensures InString(s) == Some(n) <==> 0 < n <= |s| && s[n - 1] == '"' && RawString(s[..n - 1])
    decreases |s|
  {
    if n > 0 && n <= |s| {
      var raw := s[..n - 1];
      if s[0] == '\\' && n > 2 {
        StringStops(s[2..], n - 2);
        assert raw[2..] == s[2..][..n - 3];
      } else if s[0] != '\\' && s[0] != '"' && n > 1 {
        StringStops(s[1..], n - 1);
        assert raw[1..] == s[1..][..n - 2];
      }
    }
  }

  /** So does a key. */
  lemma {:induction false} KeyStops(s: string)
    ensures KeyLength(s).Some? <==> InString(s).Some?
    ensures KeyLength(s).Some? ==> InString(s) == Some(KeyLength(s).value + 1)
    decreases |s|
  {
    if s != "" && s[0] == '\\' && |s| >= 2 {
      KeyStops(s[2..]);
    } else if s != "" && s[0] != '"' && s[0] != '\\' {
      KeyStops(s[1..]);
    }
  }
}
