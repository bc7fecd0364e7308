/** The string functions the catalog and the transfer codec rely on. */
module Text {
  import opened Wrappers

  /** Unicode White_Space. */
  predicate IsSpace(c: char) {
    || '\U{9}' <= c <= '\U{D}'
    || c == ' ' || c == '\U{85}' || c == '\U{A0}' || c == '\U{1680}'
    || '\U{2000}' <= c <= '\U{200A}'
    || c == '\U{2028}' || c == '\U{2029}' || c == '\U{202F}' || c == '\U{205F}' || c == '\U{3000}'
  }

  function TrimStart(s: string): (t: string)
    ensures t != [] ==> !IsSpace(t[0])
    ensures s == [] || !IsSpace(s[0]) ==> t == s
  {
    if s != [] && IsSpace(s[0]) then TrimStart(s[1..]) else s
  }

  function TrimEnd(s: string): (t: string)
    ensures t <= s
    ensures t != [] ==> !IsSpace(t[|t| - 1])
    ensures s == [] || !IsSpace(s[|s| - 1]) ==> t == s
  {
    if s != [] && IsSpace(s[|s| - 1]) then TrimEnd(s[..|s| - 1]) else s
  }

  function Trim(s: string): string {
    TrimEnd(TrimStart(s))
  }

  predicate Trimmed(s: string) {
    s == [] || (!IsSpace(s[0]) && !IsSpace(s[|s| - 1]))
  }

  /** Trimming leaves exactly the trimmed strings alone. */
  lemma TrimFixpoint(s: string)
    ensures Trimmed(Trim(s))
    ensures Trim(s) == s <==> Trimmed(s)
  {
  }

  /** The trimmed text, unless nothing is left of it. */
  function NonEmpty(value: string): Option<string> {
    if Trim(value) == [] then None else Some(Trim(value))
  }

  function AsciiLower(s: string): string {
    if s == [] then []
    else [if 'A' <= s[0] <= 'Z' then s[0] - 'A' + 'a' else s[0]] + AsciiLower(s[1..])
  }

  /** Trimming cuts white space off both ends and nothing else. */
  lemma TrimExactly(s: string)
    ensures exists i, j :: 0 <= i <= j <= |s| && CutTo(s, Trim(s), i, j)
  {
    var i := StartCut(s);
    var j := EndCut(TrimStart(s));
    assert CutTo(s, Trim(s), i, i + j);
  }

  /** `t` is `s` from `i` to `j`, and all around it is white space. */
  predicate CutTo(s: string, t: string, i: nat, j: nat)
    requires i <= j <= |s|
  {
    t == s[i..j] && (forall k :: 0 <= k < i ==> IsSpace(s[k])) && forall k :: j <= k < |s| ==> IsSpace(s[k])
  }

  lemma {:induction false} StartCut(s: string) returns (i: nat)
    ensures i <= |s| && TrimStart(s) == s[i..] && forall k :: 0 <= k < i ==> IsSpace(s[k])
  {
    i := 0;
    if s != [] && IsSpace(s[0]) {
      var rest := StartCut(s[1..]);
      i := rest + 1;
    }
  }

  lemma {:induction false} EndCut(s: string) returns (j: nat)
    ensures j <= |s| && TrimEnd(s) == s[..j] && forall k :: j <= k < |s| ==> IsSpace(s[k])
  {
    j := |s|;
    if s != [] && IsSpace(s[|s| - 1]) { j := EndCut(s[..|s| - 1]); }
  }

  /** Of the ASCII characters six are white space: tab, line feed, vertical tab, form feed, carriage
      return and blank. */
  lemma AsciiSpaces(c: char)
    requires c < '\U{80}'
    ensures IsSpace(c) <==> c in {'\t', '\n', '\U{B}', '\U{C}', '\r', ' '}
  {
  }

  /** Lower-casing changes the letters A to Z, each to the one 32 places on, and nothing else. */
  lemma {:induction false} AsciiLowerExactly(s: string)
    ensures |AsciiLower(s)| == |s|
    ensures forall i :: 0 <= i < |s| ==>
      AsciiLower(s)[i] as int == s[i] as int + if 65 <= s[i] as int <= 90 then 32 else 0
  {
    if s != [] { AsciiLowerExactly(s[1..]); }
  }
}
