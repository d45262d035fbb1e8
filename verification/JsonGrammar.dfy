/** JSON texts as the grammar of RFC 8259 builds them: any nesting, any white space between
    tokens, string contents with escapes.  String contents and bare tokens are taken from
    supersets of the standard's, so every well-formed text is covered. */
module JsonGrammar {
  import opened Text
  import opened Wrappers

  /** The inside of a string literal: no bare quote, every backslash escapes something. */
  predicate RawString(s: string) {
    if s == "" then true
    else if s[0] == '\\' then |s| >= 2 && RawString(s[2..])
    else s[0] != '"' && RawString(s[1..])
  }

  predicate TokenChar(c: char) {
    !IsSpace(c) && c !in {'"', '{', '}', '[', ']', ','}
  }

  /** A number, true, false or null. */
  predicate Token(s: string) {
    s != "" && forall i :: 0 <= i < |s| ==> TokenChar(s[i])
  }

  datatype Json =
    | Str(raw: string)
    | Bare(token: string)
    | Arr(pad: string, items: Items)
    | Obj(pad: string, members: Members)

  datatype Items = NoItems | Item(before: string, value: Json, after: string, rest: Items)

  datatype Members =
    | NoMembers
    | Member(before: string, key: string, colonBefore: string, colonAfter: string, value: Json, after: string,
             rest: Members)

  predicate WellFormed(v: Json) {
    match v
    case Str(raw) => RawString(raw)
    case Bare(token) => Token(token)
    case Arr(pad, items) => Blank(pad) && WellFormedItems(items)
    case Obj(pad, members) => Blank(pad) && WellFormedMembers(members)
  }

  predicate WellFormedItems(items: Items) {
    match items
    case NoItems => true
    case Item(before, value, after, rest) =>
      Blank(before) && Blank(after) && WellFormed(value) && WellFormedItems(rest)
  }

  predicate WellFormedMembers(members: Members) {
    match members
    case NoMembers => true
    case Member(before, key, colonBefore, colonAfter, value, after, rest) =>
      && Blank(before) && RawString(key) && Blank(colonBefore) && Blank(colonAfter) && Blank(after)
      && WellFormed(value) && WellFormedMembers(rest)
  }

  function Quoted(raw: string): string {
    "\"" + raw + "\""
  }

  function Print(v: Json): (s: string)
    ensures WellFormed(v) ==> s != "" && !IsSpace(s[0]) && !IsSpace(s[|s| - 1])
  {
    match v
    case Str(raw) => Quoted(raw)
    case Bare(token) => token
    case Arr(pad, items) => "[" + (if items.NoItems? then pad else PrintItems(items)) + "]"
    case Obj(pad, members) => "{" + (if members.NoMembers? then pad else PrintMembers(members)) + "}"
  }

  function PrintItems(items: Items): string {
    match items
    case NoItems => ""
    case Item(before, value, after, rest) =>
      before + Print(value) + after + if rest.NoItems? then "" else "," + PrintItems(rest)
  }

  function PrintMembers(members: Members): string {
    match members
    case NoMembers => ""
    case Member(before, key, colonBefore, colonAfter, value, after, rest) =>
      before + Quoted(key) + colonBefore + ":" + colonAfter + Print(value) + after +
      if rest.NoMembers? then "" else "," + PrintMembers(rest)
  }

  /** A whole text: an object with white space around it. */
  function ObjectText(lead: string, pad: string, members: Members, trail: string): string {
    lead + Print(Obj(pad, members)) + trail
  }

  /** The first top-level member with this key, keys written with escapes never matching. */
  function Lookup(members: Members, key: string): Option<string> {
    match members
    case NoMembers => None
    case Member(_, raw, _, _, value, _, rest) =>
      if raw == key && '\\' !in raw then Some(Print(value)) else Lookup(rest, key)
  }
}
