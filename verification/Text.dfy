/** White space and trimming, shared by the text readers. */
module Text {

  predicate IsSpace(c: char) {
    c == ' ' || c == '\t' || c == '\r' || c == '\n'
  }

  predicate Blank(s: string) {
    forall i :: 0 <= i < |s| ==> IsSpace(s[i])
  }

  function Spaces(s: string): (n: nat)
    ensures n <= |s|
    ensures n < |s| ==> !IsSpace(s[n])
  {
    if s != "" && IsSpace(s[0]) then 1 + Spaces(s[1..]) else 0
  }

  function SkipSpace(s: string): (t: string)
    ensures |t| <= |s|
  {
    s[Spaces(s)..]
  }

  function RTrim(s: string): (r: string)
    ensures |r| <= |s| && r == s[..|r|]
  {
    if s != "" && IsSpace(s[|s| - 1]) then RTrim(s[..|s| - 1]) else s
  }

  lemma {:induction false} SkipBlank(pad: string, rest: string)
    requires Blank(pad) && (rest == "" || !IsSpace(rest[0]))
    ensures SkipSpace(pad + rest) == rest
  {
    if pad == "" {
      assert pad + rest == rest;
    } else {
      assert (pad + rest)[1..] == pad[1..] + rest;
      SkipBlank(pad[1..], rest);
      assert (pad + rest)[1 + Spaces(pad[1..] + rest)..] == (pad[1..] + rest)[Spaces(pad[1..] + rest)..];
    }
  }

  lemma {:induction false} TrimBlank(s: string, after: string)
    requires Blank(after) && s != "" && !IsSpace(s[|s| - 1])
    ensures RTrim(s + after) == s
    decreases after
  {
    if after == "" {
      assert s + after == s;
    } else {
      assert (s + after)[..|s + after| - 1] == s + after[..|after| - 1];
      TrimBlank(s, after[..|after| - 1]);
    }
  }
}
