/** Numbers and booleans of the /target response, and the agreement between the detector's
    printer (YOLO_MODEL/cpp/yolo_live.cpp) and the reader (control/target_json.cpp). */
module TargetBody {
  import opened Wrappers
  import opened JsonGrammar
  import opened TargetJson

  // ---------- Number tokens: section 6 of RFC 8259

  predicate IsDigit(c: char) { '0' <= c <= '9' }

  predicate AllDigits(s: string) {
    forall i :: 0 <= i < |s| ==> IsDigit(s[i])
  }

  predicate Minus(s: string) { s == "" || s == "-" }

  predicate IntPart(s: string) {
    s == "0" || (s != "" && '1' <= s[0] <= '9' && AllDigits(s))
  }

  predicate Fraction(s: string) {
    s == "" || (|s| >= 2 && s[0] == '.' && AllDigits(s[1..]))
  }

  predicate Exponent(s: string) {
    s == "" || ((s[0] == 'e' || s[0] == 'E') && SignedDigits(s[1..]))
  }

  predicate SignedDigits(s: string) {
    if s != "" && (s[0] == '+' || s[0] == '-') then s[1..] != "" && AllDigits(s[1..])
    else s != "" && AllDigits(s)
  }

  /** number = [ minus ] int [ frac ] [ exp ] */
  ghost predicate Number(s: string) {
    exists m, i, f, e :: s == m + i + f + e && Minus(m) && IntPart(i) && Fraction(f) && Exponent(e)
  }

  // ---------- is_json_number

  function DigitsEnd(s: string, pos: nat): (end: nat)
    requires pos <= |s|
    ensures pos <= end <= |s|
    decreases |s| - pos
  {
    if pos < |s| && IsDigit(s[pos]) then DigitsEnd(s, pos + 1) else pos
  }

  lemma {:induction false} DigitsEndStops(s: string, pos: nat)
    requires pos <= |s|
    ensures forall i :: pos <= i < DigitsEnd(s, pos) ==> IsDigit(s[i])
    ensures pos < |s| && IsDigit(s[pos]) ==> pos < DigitsEnd(s, pos)
    decreases |s| - pos
  {
    if pos < |s| && IsDigit(s[pos]) {
      DigitsEndStops(s, pos + 1);
    }
  }

  method SkipDigits(s: string, start: nat) returns (pos: nat)
    requires start <= |s|
    ensures pos == DigitsEnd(s, start)
  {
    pos := start;
    while pos < |s| && IsDigit(s[pos])
      invariant start <= pos <= |s| && DigitsEnd(s, start) == DigitsEnd(s, pos)
    {
      pos := pos + 1;
    }
  }

  /** The end of the integer part, of the fraction, of the exponent; None when malformed. */
  function IntEnd(s: string, pos: nat): (r: Option<nat>)
    requires pos <= |s|
    ensures r.Some? ==> pos <= r.value <= |s|
  {
    if pos >= |s| then None
    else if s[pos] == '0' then Some(pos + 1)
    else if '1' <= s[pos] <= '9' then Some(DigitsEnd(s, pos))
    else None
  }

  function FractionEnd(s: string, pos: nat): (r: Option<nat>)
    requires pos <= |s|
    ensures r.Some? ==> pos <= r.value <= |s|
  {
    if pos < |s| && s[pos] == '.' then
      var end := DigitsEnd(s, pos + 1);
      if end == pos + 1 then None else Some(end)
    else Some(pos)
  }

  function ExponentEnd(s: string, pos: nat): (r: Option<nat>)
    requires pos <= |s|
    ensures r.Some? ==> pos <= r.value <= |s|
  {
    if pos < |s| && (s[pos] == 'e' || s[pos] == 'E') then
      var start := if pos + 1 < |s| && (s[pos + 1] == '+' || s[pos + 1] == '-') then pos + 2 else pos + 1;
      var end := DigitsEnd(s, start);
      if end == start then None else Some(end)
    else Some(pos)
  }

  function MinusEnd(s: string): (pos: nat)
    ensures pos <= |s|
  {
    if s != "" && s[0] == '-' then 1 else 0
  }

  predicate Scans(s: string) {
    var i := IntEnd(s, MinusEnd(s));
    i.Some? &&
    var f := FractionEnd(s, i.value);
    f.Some? && ExponentEnd(s, f.value) == Some(|s|)
  }

  /** is_json_number, its three parts in turn. */
  method IsJsonNumber(token: string) returns (ok: bool)
    ensures ok <==> Number(token)
  {
    hide Number, IntEnd, FractionEnd, ExponentEnd, DigitsEnd;
    ScansIsNumber(token);
    var pos := 0;
    if pos < |token| && token[pos] == '-' {
      pos := pos + 1;
    }
    var whole := SkipInteger(token, pos);
    if whole == None {
      return false;
    }
    var fraction := SkipFraction(token, whole.value);
    if fraction == None {
      return false;
    }
    var exponent := SkipExponent(token, fraction.value);
    return exponent == Some(|token|);
  }

  method SkipInteger(token: string, start: nat) returns (r: Option<nat>)
    requires start <= |token|
    ensures r == IntEnd(token, start)
  {
    hide DigitsEnd;
    var pos := start;
    if pos >= |token| {
      return None;
    }
    if token[pos] == '0' {
      pos := pos + 1;
    } else if '1' <= token[pos] <= '9' {
      pos := SkipDigits(token, pos);
    } else {
      return None;
    }
    return Some(pos);
  }

  method SkipFraction(token: string, start: nat) returns (r: Option<nat>)
    requires start <= |token|
    ensures r == FractionEnd(token, start)
  {
    hide DigitsEnd;
    var pos := start;
    if pos < |token| && token[pos] == '.' {
      pos := pos + 1;
      var fractionStart := pos;
      pos := SkipDigits(token, pos);
      if pos == fractionStart {
        return None;
      }
    }
    return Some(pos);
  }

  method SkipExponent(token: string, start: nat) returns (r: Option<nat>)
    requires start <= |token|
    ensures r == ExponentEnd(token, start)
  {
    hide DigitsEnd;
    var pos := start;
    if pos < |token| && (token[pos] == 'e' || token[pos] == 'E') {
      pos := pos + 1;
      if pos < |token| && (token[pos] == '+' || token[pos] == '-') {
        pos := pos + 1;
      }
      var exponentStart := pos;
      pos := SkipDigits(token, pos);
      if pos == exponentStart {
        return None;
      }
    }
    return Some(pos);
  }

  lemma {:induction false} DigitsEndIs(a: string, d: string, rest: string)
    requires AllDigits(d) && (rest == "" || !IsDigit(rest[0]))
    ensures DigitsEnd(a + d + rest, |a|) == |a| + |d|
    decreases d
  {
    var s := a + d + rest;
    if d == "" {
      assert |s| > |a| ==> s[|a|] == rest[0];
    } else {
      assert s[|a|] == d[0];
      assert s == (a + [d[0]]) + d[1..] + rest;
      DigitsEndIs(a + [d[0]], d[1..], rest);
    }
  }

  lemma IntScans(m: string, i: string, rest: string)
    requires IntPart(i) && (rest == "" || !IsDigit(rest[0]))
    ensures IntEnd(m + i + rest, |m|) == Some(|m| + |i|)
  {
    assert (m + i + rest)[|m|] == i[0];
    if i != "0" {
      DigitsEndIs(m, i, rest);
    }
  }

  lemma FractionScans(a: string, f: string, rest: string)
    requires Fraction(f) && (rest == "" || (!IsDigit(rest[0]) && rest[0] != '.'))
    ensures FractionEnd(a + f + rest, |a|) == Some(|a| + |f|)
  {
    var s := a + f + rest;
    if f == "" {
      assert |s| > |a| ==> s[|a|] == rest[0];
    } else {
      assert s[|a|] == '.';
      assert s == (a + ".") + f[1..] + rest;
      DigitsEndIs(a + ".", f[1..], rest);
    }
  }

  lemma ExponentScans(a: string, e: string)
    requires Exponent(e)
    ensures ExponentEnd(a + e, |a|) == Some(|a| + |e|)
  {
    var s := a + e;
    if e != "" {
      assert s[|a|] == e[0];
      var d := e[1..];
      if d[0] == '+' || d[0] == '-' {
        assert s[|a| + 1] == d[0];
        assert s == (a + e[..2]) + d[1..] + "";
        DigitsEndIs(a + e[..2], d[1..], "");
      } else {
        assert s[|a| + 1] == d[0];
        assert s == (a + e[..1]) + d + "";
        DigitsEndIs(a + e[..1], d, "");
      }
    }
  }

  lemma NumberScans(m: string, i: string, f: string, e: string)
    requires Minus(m) && IntPart(i) && Fraction(f) && Exponent(e)
    ensures Scans(m + i + f + e)
  {
    hide IntEnd, FractionEnd, ExponentEnd;
    var s := m + i + f + e;
    assert s == m + i + (f + e) && s == (m + i) + f + e && s == (m + i + f) + e;
    assert s[|m|] == i[0];
    assert m == "-" ==> s[0] == '-';
    AfterParts(f, e);
    IntScans(m, i, f + e);
    FractionScans(m + i, f, e);
    ExponentScans(m + i + f, e);
  }

  lemma AfterParts(f: string, e: string)
    requires Fraction(f) && Exponent(e)
    ensures f + e == "" || !IsDigit((f + e)[0])
    ensures e == "" || (!IsDigit(e[0]) && e[0] != '.')
  {
  }

  lemma ScanGivesParts(s: string)
    requires Scans(s)
    ensures Number(s)
  {
    hide IntEnd, FractionEnd, ExponentEnd, IntPart, Fraction, Exponent;
    var a := MinusEnd(s);
    var b := IntEnd(s, a).value;
    var c := FractionEnd(s, b).value;
    var m, i, f, e := s[..a], s[a..b], s[b..c], s[c..];
    assert s == m + i + f + e;
    assert Minus(m) by { assert a == 1 ==> m == [s[0]]; }
    IntParts(s, a, b);
    FractionParts(s, b, c);
    ExponentParts(s, c);
    NumberIntro(m, i, f, e);
  }

  lemma NumberIntro(m: string, i: string, f: string, e: string)
    requires Minus(m) && IntPart(i) && Fraction(f) && Exponent(e)
    ensures Number(m + i + f + e)
  {
    hide Minus, IntPart, Fraction, Exponent;
  }

  lemma IntParts(s: string, a: nat, b: nat)
    requires a <= b <= |s| && IntEnd(s, a) == Some(b)
    ensures IntPart(s[a..b])
  {
    DigitsEndStops(s, a);
    assert s[a..b][0] == s[a];
  }

  lemma FractionParts(s: string, b: nat, c: nat)
    requires b <= c <= |s| && FractionEnd(s, b) == Some(c)
    ensures Fraction(s[b..c])
  {
    if b < c {
      DigitsEndStops(s, b + 1);
      assert s[b..c][1..] == s[b + 1..c];
    }
  }

  lemma ExponentParts(s: string, c: nat)
    requires c <= |s| && ExponentEnd(s, c) == Some(|s|)
    ensures Exponent(s[c..])
  {
    if c == |s| {
      return;
    }
    var d := s[c..][1..];
    DigitsEndStops(s, c + 1);
    if c + 2 <= |s| {
      DigitsEndStops(s, c + 2);
    }
    if c + 1 < |s| && (s[c + 1] == '+' || s[c + 1] == '-') {
      assert d[0] == s[c + 1];
      assert d[1..] == s[c + 2..];
    } else {
      assert d == s[c + 1..];
    }
  }

  /** MAIN: the scan accepts exactly the number grammar. */
  lemma ScansIsNumber(s: string)
    ensures Scans(s) <==> Number(s)
  {
    if Scans(s) {
      ScanGivesParts(s);
    }
    if Number(s) {
      var m, i, f, e :| s == m + i + f + e && Minus(m) && IntPart(i) && Fraction(f) && Exponent(e);
      NumberScans(m, i, f, e);
    }
  }

  // ---------- The two readers

  /** json_bool */
  method JsonBool(body: string, key: string) returns (r: Option<bool>)
    ensures r == BoolOf(FindTopLevel(body, key))
  {
    hide FindTopLevel, FindMember;
    var token := FindTopLevelValue(body, key);
    if token == None {
      return None;
    }
    if token.value == "true" {
      return Some(true);
    }
    if token.value == "false" {
      return Some(false);
    }
    return None;
  }

  function BoolOf(token: Option<string>): Option<bool> {
    if token.None? then None
    else if token.value == "true" then Some(true)
    else if token.value == "false" then Some(false)
    else None
  }

  /** json_number up to the conversion: the token it hands to std::stod. */
  method JsonNumberToken(body: string, key: string) returns (r: Option<string>)
    ensures r == NumberOf(FindTopLevel(body, key))
  {
    var token := FindTopLevelValue(body, key);
    if token == None {
      return None;
    }
    var ok := IsJsonNumber(token.value);
    return if ok then token else None;
  }

  ghost function NumberOf(token: Option<string>): Option<string> {
    if token.Some? && Number(token.value) then token else None
  }

  // ---------- The printer

  function Escape(s: string): string {
    if s == "" then ""
    else (if s[0] == '"' || s[0] == '\\' then ['\\', s[0]] else [s[0]]) + Escape(s[1..])
  }

  /** json_escape */
  method JsonEscape(s: string) returns (out: string)
    ensures out == Escape(s)
  {
    hide Escape;
    out := "";
    assert s[0..] == s;
    for i := 0 to |s|
      invariant out + Escape(s[i..]) == Escape(s)
    {
      EscapeStep(out, s, i);
      var c := s[i];
      if c == '"' || c == '\\' {
        out := out + ['\\'];
      }
      out := out + [c];
    }
    EscapeEnd(out, s[|s|..]);
  }

  lemma EscapeEnd(out: string, s: string)
    requires s == ""
    ensures out + Escape(s) == out
  {
  }

  lemma EscapeStep(out: string, s: string, i: nat)
    requires i < |s|
    ensures var c := s[i];
            out + Escape(s[i..]) == (if c == '"' || c == '\\' then out + ['\\'] else out) + [c] + Escape(s[i + 1..])
  {
    assert s[i..][1..] == s[i + 1..];
  }

  lemma {:induction false} EscapeIsRaw(s: string)
    ensures RawString(Escape(s))
  {
    if s != "" {
      EscapeIsRaw(s[1..]);
      if s[0] == '"' || s[0] == '\\' {
        assert Escape(s)[2..] == Escape(s[1..]);
      } else {
        assert Escape(s)[1..] == Escape(s[1..]);
      }
    }
  }

  function BoolText(b: bool): string { if b then "true" else "false" }

  /** What json_num and the stream print for a number: a number token, or null. */
  ghost predicate Printed(token: string) {
    token == "null" || Number(token)
  }

  /** The reported target, its numbers as printed. */
  datatype TargetInfo = TargetInfo(found: bool, confirmed: bool, name: string, conf: string, xPx: string, yPx: string,
                                   detections: string, multi: bool, t: string, age: string)
  {
    ghost predicate Valid() {
      && Printed(conf) && Printed(xPx) && Printed(yPx) && Printed(detections) && Printed(t) && Printed(age)
    }
  }

  /** A key and its value as they appear between commas. */
  function Entry(key: string, value: string): string {
    "\"" + key + "\":" + value
  }

  function JoinComma(entries: seq<string>): string {
    if entries == [] then ""
    else if |entries| == 1 then entries[0]
    else entries[0] + "," + JoinComma(entries[1..])
  }

  /** The fields of the response, in print order. */
  function Fields(t: TargetInfo): seq<(string, Json)> {
    [("found", Bare(BoolText(t.found)))] + [("confirmed", Bare(BoolText(t.confirmed)))] +
    (if t.found then FoundFields(t) else []) + LastFields(t)
  }

  function Entries(fields: seq<(string, Json)>): (r: seq<string>)
    ensures |r| == |fields|
  {
    seq(|fields|, i requires 0 <= i < |fields| => Entry(fields[i].0, Print(fields[i].1)))
  }

  /** The response printed so far. */
  function Opened(fields: seq<(string, Json)>): string {
    "{" + JoinComma(Entries(fields))
  }

  function TargetText(t: TargetInfo): string {
    Opened(Fields(t)) + "}"
  }

  /** Adds one field to an unclosed body, with a comma before every field but the first. */
  method Append(body: string, ghost fields: seq<(string, Json)>, key: string, text: string, ghost value: Json)
    returns (out: string)
    requires body == Opened(fields) && text == Print(value)
    ensures out == Opened(fields + [(key, value)])
  {
    hide Entry, Print;
    out := body + (if body == "{" then "" else ",") + Entry(key, text);
    FirstField(fields);
    assert Entries(fields + [(key, value)]) == Entries(fields) + [Entry(key, text)];
    JoinAppend(Entries(fields), Entry(key, text));
  }

  lemma FirstField(fields: seq<(string, Json)>)
    ensures Opened(fields) == "{" <==> fields == []
  {
    if fields != [] {
      var es := Entries(fields);
      assert es[0] == Entry(fields[0].0, Print(fields[0].1)) && |es[0]| > 0;
      assert |JoinComma(es)| >= |es[0]|;
    }
  }

  lemma {:induction false} JoinAppend(es: seq<string>, e: string)
    ensures JoinComma(es + [e]) == if es == [] then e else JoinComma(es) + "," + e
  {
    if es == [] {
      assert es + [e] == [e];
    } else {
      assert (es + [e])[1..] == es[1..] + [e];
      JoinAppend(es[1..], e);
      if |es| > 1 {
        assert es[0] + "," + (JoinComma(es[1..]) + "," + e) == (es[0] + "," + JoinComma(es[1..])) + "," + e;
      } else {
        assert es[1..] == [];
        assert es[0] + "," + e == JoinComma(es) + "," + e;
      }
    }
  }

  /** The fields printed only for a found target. */
  function FoundFields(t: TargetInfo): seq<(string, Json)> {
    [("name", Str(Escape(t.name))), ("conf", Bare(t.conf)), ("x_px", Bare(t.xPx)), ("y_px", Bare(t.yPx))]
  }

  function LastFields(t: TargetInfo): seq<(string, Json)> {
    [("detections", Bare(t.detections)), ("multi", Bare(BoolText(t.multi))), ("t", Bare(t.t)),
     ("age_ms", Bare(t.age)), ("width", Bare("640")), ("height", Bare("480"))]
  }

  /** The body of the /target response. */
  method PrintTarget(t: TargetInfo) returns (body: string)
    ensures body == TargetText(t)
  {
    hide Opened, FoundFields, LastFields;
    OpenedEmpty();
    ghost var none: seq<(string, Json)> := [];
    body := "{";
    body := AppendBare(body, none, "found", BoolText(t.found));
    ghost var one := none + [("found", Bare(BoolText(t.found)))];
    body := AppendBare(body, one, "confirmed", BoolText(t.confirmed));
    ghost var head := one + [("confirmed", Bare(BoolText(t.confirmed)))];
    ghost var middle := if t.found then FoundFields(t) else [];
    if t.found {
      body := PrintFound(body, head, t);
    } else {
      assert head + middle == head;
    }
    body := PrintLast(body, head + middle, t);
    assert none + [("found", Bare(BoolText(t.found)))] == [("found", Bare(BoolText(t.found)))];
    body := body + "}";
  }

  method AppendBare(body: string, ghost fields: seq<(string, Json)>, key: string, token: string) returns (out: string)
    requires body == Opened(fields)
    ensures out == Opened(fields + [(key, Bare(token))])
  {
    hide Opened;
    out := Append(body, fields, key, token, Bare(token));
  }

  method PrintFound(body: string, ghost fields: seq<(string, Json)>, t: TargetInfo) returns (out: string)
    requires body == Opened(fields)
    ensures out == Opened(fields + FoundFields(t))
  {
    hide Opened, Escape;
    var name := JsonEscape(t.name);
    out := Append(body, fields, "name", "\"" + name + "\"", Str(Escape(t.name)));
    ghost var a := fields + [("name", Str(Escape(t.name)))];
    out := AppendBare(out, a, "conf", t.conf);
    ghost var b := a + [("conf", Bare(t.conf))];
    out := AppendBare(out, b, "x_px", t.xPx);
    ghost var c := b + [("x_px", Bare(t.xPx))];
    out := AppendBare(out, c, "y_px", t.yPx);
    assert c + [("y_px", Bare(t.yPx))] == fields + FoundFields(t);
  }

  method PrintLast(body: string, ghost fields: seq<(string, Json)>, t: TargetInfo) returns (out: string)
    requires body == Opened(fields)
    ensures out == Opened(fields + LastFields(t))
  {
    hide Opened, BoolText;
    out := AppendBare(body, fields, "detections", t.detections);
    ghost var a := fields + [("detections", Bare(t.detections))];
    out := AppendBare(out, a, "multi", BoolText(t.multi));
    ghost var b := a + [("multi", Bare(BoolText(t.multi)))];
    out := AppendBare(out, b, "t", t.t);
    ghost var c := b + [("t", Bare(t.t))];
    out := AppendBare(out, c, "age_ms", t.age);
    ghost var d := c + [("age_ms", Bare(t.age))];
    out := AppendBare(out, d, "width", "640");
    ghost var e := d + [("width", Bare("640"))];
    out := AppendBare(out, e, "height", "480");
    assert e + [("height", Bare("480"))] == fields + LastFields(t);
  }

  lemma PrintCases()
    ensures forall token :: Print(Bare(token)) == token
    ensures forall raw :: Print(Str(raw)) == "\"" + raw + "\""
  {
  }

  lemma OpenedEmpty()
    ensures Opened([]) == "{"
  {
  }

  // ---------- The printed body as a JSON text

  function MembersOf(fields: seq<(string, Json)>): Members {
    if fields == [] then NoMembers
    else Member("", fields[0].0, "", "", fields[0].1, "", MembersOf(fields[1..]))
  }

  lemma EntryPrints(key: string, value: Json)
    ensures "" + Quoted(key) + "" + ":" + "" + Print(value) + "" == Entry(key, Print(value))
  {
    hide Print;
  }

  lemma {:induction false} MembersPrint(fields: seq<(string, Json)>)
    ensures PrintMembers(MembersOf(fields)) == JoinComma(Entries(fields))
    decreases fields
  {
    hide Print, Entry, Quoted;
    if fields != [] {
      MembersPrint(fields[1..]);
      EntryPrints(fields[0].0, fields[0].1);
      assert Entries(fields)[1..] == Entries(fields[1..]);
      var e := Entry(fields[0].0, Print(fields[0].1));
      assert |fields| == 1 ==> e + "" == e;
    }
  }

  lemma {:induction false} MembersWellFormed(fields: seq<(string, Json)>)
    requires forall i :: 0 <= i < |fields| ==> RawString(fields[i].0) && WellFormed(fields[i].1)
    ensures WellFormedMembers(MembersOf(fields))
    decreases fields
  {
    if fields != [] {
      MembersWellFormed(fields[1..]);
    }
  }

  lemma {:induction false} LookupAt(fields: seq<(string, Json)>, key: string, i: nat)
    requires i < |fields| && fields[i].0 == key && '\\' !in key
    requires forall j :: 0 <= j < i ==> fields[j].0 != key
    ensures Lookup(MembersOf(fields), key) == Some(Print(fields[i].1))
    decreases i
  {
    hide Print;
    if i > 0 {
      LookupAt(fields[1..], key, i - 1);
    }
  }

  lemma {:induction false} LookupNone(fields: seq<(string, Json)>, key: string)
    requires forall j :: 0 <= j < |fields| ==> fields[j].0 != key
    ensures Lookup(MembersOf(fields), key) == None
    decreases fields
  {
    hide Print;
    if fields != [] {
      LookupNone(fields[1..], key);
    }
  }

  predicate NumberChar(c: char) {
    IsDigit(c) || c == '-' || c == '+' || c == '.' || c == 'e' || c == 'E'
  }

  predicate NumberChars(s: string) {
    forall i :: 0 <= i < |s| ==> NumberChar(s[i])
  }

  lemma NumberIsToken(s: string)
    requires Number(s)
    ensures Token(s) && (s[0] == '-' || IsDigit(s[0]))
  {
    hide IntPart, Fraction, Exponent, NumberChar, IsDigit;
    var m, i, f, e :| s == m + i + f + e && Minus(m) && IntPart(i) && Fraction(f) && Exponent(e);
    PartChars(m, i, f, e);
    assert NumberChars(s);
    assert m == "" ==> s[0] == i[0];
    CharsAreToken(s);
  }

  lemma CharsAreToken(s: string)
    requires s != "" && NumberChars(s)
    ensures Token(s)
  {
    assert forall i :: 0 <= i < |s| ==> NumberChar(s[i]) && TokenChar(s[i]);
  }

  lemma PartChars(m: string, i: string, f: string, e: string)
    requires Minus(m) && IntPart(i) && Fraction(f) && Exponent(e)
    ensures NumberChars(m) && NumberChars(i) && NumberChars(f) && NumberChars(e) && i != "" && IsDigit(i[0])
  {
    assert forall k :: 1 <= k < |f| ==> f[k] == f[1..][k - 1];
    if e != "" {
      var d := e[1..];
      assert forall k :: 1 <= k < |e| ==> e[k] == d[k - 1];
      assert forall k :: 1 <= k < |d| ==> d[k] == d[1..][k - 1];
    }
  }

  lemma PrintedIsToken(s: string)
    requires Printed(s)
    ensures Token(s)
  {
    if s != "null" {
      NumberIsToken(s);
    }
  }

  lemma FieldsWellFormed(t: TargetInfo)
    requires t.Valid()
    ensures forall i :: 0 <= i < |Fields(t)| ==> RawString(Fields(t)[i].0) && WellFormed(Fields(t)[i].1)
  {
    hide Number, Escape, Token, RawString, PlainKey;
    ConstantTokens();
    assert RawString(Escape(t.name)) by { EscapeIsRaw(t.name); }
    PrintedIsToken(t.conf);
    PrintedIsToken(t.xPx);
    PrintedIsToken(t.yPx);
    PrintedIsToken(t.detections);
    PrintedIsToken(t.t);
    PrintedIsToken(t.age);
    FieldsPlain(t);
    KeysAreRaw(Fields(t));
  }

  lemma ConstantTokens()
    ensures Token("true") && Token("false") && Token("640") && Token("480")
  {
  }

  /** Printable keys without quotes or backslashes. */
  predicate PlainKey(key: string) {
    forall i :: 0 <= i < |key| ==> key[i] != '"' && key[i] != '\\'
  }

  lemma {:induction false} PlainIsRaw(key: string)
    requires PlainKey(key)
    ensures RawString(key) && '\\' !in key
  {
    if key != "" {
      PlainIsRaw(key[1..]);
    }
  }

  lemma {:induction false} KeysAreRaw(fields: seq<(string, Json)>)
    requires forall i :: 0 <= i < |fields| ==> PlainKey(fields[i].0)
    ensures forall i :: 0 <= i < |fields| ==> RawString(fields[i].0)
  {
    hide RawString, PlainKey;
    forall i | 0 <= i < |fields|
      ensures RawString(fields[i].0)
    {
      PlainIsRaw(fields[i].0);
    }
  }

  lemma FieldsPlain(t: TargetInfo)
    ensures Fields(t) != [] && MembersOf(Fields(t)).Member?
    ensures forall i :: 0 <= i < |Fields(t)| ==> PlainKey(Fields(t)[i].0)
  {
    hide Escape, BoolText;
    assert PlainKey("found") && PlainKey("confirmed") && PlainKey("name") && PlainKey("conf");
    assert PlainKey("x_px") && PlainKey("y_px") && PlainKey("detections") && PlainKey("multi");
    assert PlainKey("t") && PlainKey("age_ms") && PlainKey("width") && PlainKey("height");
  }

  /** The printed body is an object text, so the reader's lookup is exact on it. */
  lemma BodyLookup(t: TargetInfo, key: string)
    requires t.Valid()
    ensures FindTopLevel(TargetText(t), key) == Lookup(MembersOf(Fields(t)), key)
  {
    hide FindTopLevel, Lookup, PrintMembers, JoinComma, Fields, Entries, WellFormedMembers;
    var fields := Fields(t);
    FieldsWellFormed(t);
    FieldsPlain(t);
    MembersWellFormed(fields);
    MembersPrint(fields);
    assert ObjectText("", "", MembersOf(fields), "") == TargetText(t);
    LookupExact("", "", MembersOf(fields), "", key);
  }

  /** Length and first character tell the twelve keys apart. */
  function Tag(key: string): (nat, char) {
    (|key|, if key == "" then ' ' else key[0])
  }

  lemma KeysDiffer(t: TargetInfo)
    ensures forall i, j :: 0 <= i < j < |Fields(t)| ==> Fields(t)[i].0 != Fields(t)[j].0
  {
    hide Escape, BoolText;
    var fs := Fields(t);
    assert forall i, j :: 0 <= i < j < |fs| ==> Tag(fs[i].0) != Tag(fs[j].0);
  }

  /** Looking up any field of the response gives its printed value. */
  lemma FieldAt(t: TargetInfo, i: nat)
    requires t.Valid() && i < |Fields(t)|
    ensures FindTopLevel(TargetText(t), Fields(t)[i].0) == Some(Print(Fields(t)[i].1))
  {
    var key := Fields(t)[i].0;
    KeysDiffer(t);
    FieldsPlain(t);
    hide *;
    BodyLookup(t, key);
    PlainIsRaw(key);
    LookupAt(Fields(t), key, i);
  }

  /** Which fields come where. */
  lemma Positions(t: TargetInfo)
    ensures var fs := Fields(t); var d := if t.found then 6 else 2;
            && |fs| == d + 6
            && fs[0] == ("found", Bare(BoolText(t.found))) && fs[1] == ("confirmed", Bare(BoolText(t.confirmed)))
            && fs[d] == ("detections", Bare(t.detections)) && fs[d + 1] == ("multi", Bare(BoolText(t.multi)))
            && fs[d + 2] == ("t", Bare(t.t)) && fs[d + 3] == ("age_ms", Bare(t.age))
            && fs[d + 4] == ("width", Bare("640")) && fs[d + 5] == ("height", Bare("480"))
    ensures t.found ==>
              var fs := Fields(t);
              && fs[2] == ("name", Str(Escape(t.name))) && fs[3] == ("conf", Bare(t.conf))
              && fs[4] == ("x_px", Bare(t.xPx)) && fs[5] == ("y_px", Bare(t.yPx))
  {
    hide Escape, BoolText;
  }

  lemma OnlyWhenFound(t: TargetInfo, key: string)
    requires t.Valid() && !t.found && key in {"name", "conf", "x_px", "y_px"}
    ensures FindTopLevel(TargetText(t), key) == None
  {
    NotAmongLast(t, key);
    hide *;
    BodyLookup(t, key);
    LookupNone(Fields(t), key);
  }

  lemma NotAmongLast(t: TargetInfo, key: string)
    requires !t.found && key in {"name", "conf", "x_px", "y_px"}
    ensures forall i :: 0 <= i < |Fields(t)| ==> Fields(t)[i].0 != key
  {
    hide Escape, BoolText, FoundFields;
    forall i | 0 <= i < |Fields(t)|
      ensures Tag(Fields(t)[i].0) != Tag(key)
    {
    }
  }

  /** What the reader makes of a field that is printed under this condition. */
  function WhenPrinted(printed: bool, token: string): Option<string> {
    if printed && token != "null" then Some(token) else None
  }

  /** MAIN: whatever bytes the class name holds - quotes, backslashes, text that looks like
      members - reading the printed body gives back exactly the three booleans, the name's
      literal, and each number field's token exactly when it is a number. */
  lemma ReadBack(t: TargetInfo)
    requires t.Valid()
    ensures BoolOf(FindTopLevel(TargetText(t), "found")) == Some(t.found)
    ensures BoolOf(FindTopLevel(TargetText(t), "confirmed")) == Some(t.confirmed)
    ensures BoolOf(FindTopLevel(TargetText(t), "multi")) == Some(t.multi)
    ensures NumberOf(FindTopLevel(TargetText(t), "conf")) == WhenPrinted(t.found, t.conf)
    ensures NumberOf(FindTopLevel(TargetText(t), "x_px")) == WhenPrinted(t.found, t.xPx)
    ensures NumberOf(FindTopLevel(TargetText(t), "y_px")) == WhenPrinted(t.found, t.yPx)
    ensures NumberOf(FindTopLevel(TargetText(t), "detections")) == WhenPrinted(true, t.detections)
    ensures NumberOf(FindTopLevel(TargetText(t), "t")) == WhenPrinted(true, t.t)
    ensures NumberOf(FindTopLevel(TargetText(t), "age_ms")) == WhenPrinted(true, t.age)
    ensures NumberOf(FindTopLevel(TargetText(t), "width")) == Some("640")
    ensures NumberOf(FindTopLevel(TargetText(t), "height")) == Some("480")
    ensures FindTopLevel(TargetText(t), "name") == if t.found then Some(Print(Str(Escape(t.name)))) else None
  {
    FlagsRead(t);
    NumbersReadAll(t);
    FoundRead(t);
  }

  lemma FlagsRead(t: TargetInfo)
    requires t.Valid()
    ensures BoolOf(FindTopLevel(TargetText(t), "found")) == Some(t.found)
    ensures BoolOf(FindTopLevel(TargetText(t), "confirmed")) == Some(t.confirmed)
    ensures BoolOf(FindTopLevel(TargetText(t), "multi")) == Some(t.multi)
  {
    hide *;
    Positions(t);
    FieldAt(t, 0);
    FieldAt(t, 1);
    FieldAt(t, if t.found then 7 else 3);
    BoolsRead(t.found);
    BoolsRead(t.confirmed);
    BoolsRead(t.multi);
  }

  lemma NumbersReadAll(t: TargetInfo)
    requires t.Valid()
    ensures NumberOf(FindTopLevel(TargetText(t), "detections")) == WhenPrinted(true, t.detections)
    ensures NumberOf(FindTopLevel(TargetText(t), "t")) == WhenPrinted(true, t.t)
    ensures NumberOf(FindTopLevel(TargetText(t), "age_ms")) == WhenPrinted(true, t.age)
    ensures NumberOf(FindTopLevel(TargetText(t), "width")) == Some("640")
    ensures NumberOf(FindTopLevel(TargetText(t), "height")) == Some("480")
  {
    hide *;
    var d := if t.found then 6 else 2;
    Positions(t);
    ValidPrints(t);
    FieldAt(t, d);
    FieldAt(t, d + 2);
    FieldAt(t, d + 3);
    FieldAt(t, d + 4);
    FieldAt(t, d + 5);
    NumbersRead(t.detections);
    NumbersRead(t.t);
    NumbersRead(t.age);
    SizesRead();
  }

  lemma FoundRead(t: TargetInfo)
    requires t.Valid()
    ensures NumberOf(FindTopLevel(TargetText(t), "conf")) == WhenPrinted(t.found, t.conf)
    ensures NumberOf(FindTopLevel(TargetText(t), "x_px")) == WhenPrinted(t.found, t.xPx)
    ensures NumberOf(FindTopLevel(TargetText(t), "y_px")) == WhenPrinted(t.found, t.yPx)
    ensures FindTopLevel(TargetText(t), "name") == if t.found then Some(Print(Str(Escape(t.name)))) else None
  {
    hide *;
    ValidPrints(t);
    NumbersRead(t.conf);
    NumbersRead(t.xPx);
    NumbersRead(t.yPx);
    if t.found {
      Positions(t);
      FieldAt(t, 2);
      FieldAt(t, 3);
      FieldAt(t, 4);
      FieldAt(t, 5);
    } else {
      OnlyWhenFound(t, "name");
      OnlyWhenFound(t, "conf");
      OnlyWhenFound(t, "x_px");
      OnlyWhenFound(t, "y_px");
    }
    NeverPrinted(t.conf);
    NeverPrinted(t.xPx);
    NeverPrinted(t.yPx);
  }

  lemma NeverPrinted(token: string)
    ensures WhenPrinted(false, token) == None
  {
  }

  lemma SizesRead()
    ensures NumberOf(Some(Print(Bare("640")))) == Some("640") && NumberOf(Some(Print(Bare("480")))) == Some("480")
  {
    hide NumberOf, WhenPrinted;
    assert "" + "640" + "" + "" == "640" && "" + "480" + "" + "" == "480";
    assert Minus("") && IntPart("640") && IntPart("480") && Fraction("") && Exponent("");
    NumbersRead("640");
    NumbersRead("480");
    NotNull();
  }

  lemma NotNull()
    ensures WhenPrinted(true, "640") == Some("640") && WhenPrinted(true, "480") == Some("480")
  {
    assert |"640"| != |"null"| && |"480"| != |"null"|;
  }

  lemma ValidPrints(t: TargetInfo)
    requires t.Valid()
    ensures Printed(t.age) && Printed(t.xPx) && Printed(t.yPx) && Printed(t.conf) && Printed(t.detections) && Printed(t.t)
  {
    hide Printed;
  }

  lemma BoolsRead(b: bool)
    ensures BoolOf(Some(Print(Bare(BoolText(b))))) == Some(b)
  {
    assert "true"[0] != "false"[0];
    PrintCases();
  }

  lemma NumbersRead(token: string)
    ensures Printed(token) ==> NumberOf(Some(Print(Bare(token)))) == WhenPrinted(true, token)
    ensures NumberOf(None) == None
  {
    hide Number;
    if Number("null") {
      NumberIsToken("null");
    }
    PrintCases();
  }

  // ---------- Undoing the escapes

  /** The text with each escaping backslash removed. */
  function Unescape(s: string): string {
    if s == "" then ""
    else if s[0] == '\\' && |s| >= 2 then [s[1]] + Unescape(s[2..])
    else [s[0]] + Unescape(s[1..])
  }

  /** Escaping loses nothing. */
  lemma {:induction false} UnescapeEscape(s: string)
    ensures Unescape(Escape(s)) == s
  {
    if s != "" {
      UnescapeEscape(s[1..]);
      var rest := Escape(s[1..]);
      if s[0] == '"' || s[0] == '\\' {
        assert Escape(s) == ['\\', s[0]] + rest;
        assert Escape(s)[2..] == rest;
      } else {
        assert Escape(s) == [s[0]] + rest;
        assert Escape(s)[1..] == rest;
      }
      assert s == [s[0]] + s[1..];
    }
  }

  /** How many characters need an escape. */
  function Special(s: string): nat {
    if s == "" then 0 else (if s[0] == '"' || s[0] == '\\' then 1 else 0) + Special(s[1..])
  }

  /** Escaping adds one backslash for each quote and backslash, and nothing else. */
  lemma {:induction false} EscapeLength(s: string)
    ensures |Escape(s)| == |s| + Special(s)
  {
    if s != "" {
      EscapeLength(s[1..]);
    }
  }
}
