/** Python `str` helpers the core relies on: `lstrip`/`rstrip` of one
    character, `split(sep, 1)` and the `in` substring test. */
module Strings {

  import opened Common

  /** `s.lstrip(c)`: drops every leading occurrence of `c`. */
  function StripLeading(s: string, c: char): (r: string)
    ensures |r| <= |s| && r == s[|s| - |r|..]
    ensures forall i :: 0 <= i < |s| - |r| ==> s[i] == c
    ensures |r| > 0 ==> r[0] != c
    decreases |s|
  {
    if |s| > 0 && s[0] == c then StripLeading(s[1..], c) else s
  }

  /** `s.rstrip(c)`: drops every trailing occurrence of `c`. */
  function StripTrailing(s: string, c: char): (r: string)
    ensures |r| <= |s| && r == s[..|r|]
    ensures forall i :: |r| <= i < |s| ==> s[i] == c
    ensures |r| > 0 ==> r[|r| - 1] != c
    decreases |s|
  {
    if |s| > 0 && s[|s| - 1] == c then StripTrailing(s[..|s| - 1], c) else s
  }

  /** `s.strip(c)`: both ends. */
  function Strip(s: string, c: char): string
  {
    StripTrailing(StripLeading(s, c), c)
  }

  /** Position of the first `c` in `s`, if any. */
  function IndexOf(s: string, c: char): (r: Option<nat>)
    ensures r.None? <==> c !in s
    ensures r.Some? ==> r.value < |s| && s[r.value] == c && c !in s[..r.value]
    decreases |s|
  {
    if |s| == 0 then None
    else if s[0] == c then Some(0)
    else
      var rest := IndexOf(s[1..], c);
      if rest.None? then None else
      assert s[..rest.value + 1] == [s[0]] + s[1..][..rest.value];
      Some(rest.value + 1)
  }

  /** `prefix` is a prefix of `s`. */
  predicate StartsWith(s: string, prefix: string)
  {
    |prefix| <= |s| && s[..|prefix|] == prefix
  }

  /** Python's `needle in hay` on strings. */
  predicate Contains(hay: string, needle: string)
    decreases |hay|
  {
    StartsWith(hay, needle) || (|hay| > 0 && Contains(hay[1..], needle))
  }

  /** A needle holding a character the hay lacks never occurs in it. */
  lemma {:induction false} MissingCharNotContained(hay: string, needle: string, c: char)
    requires c in needle && c !in hay
    ensures !Contains(hay, needle)
    decreases |hay|
  {
    if |hay| > 0 {
      assert forall x :: x in hay[1..] ==> x in hay;
      MissingCharNotContained(hay[1..], needle, c);
    }
  }

  lemma ContainsSelf(s: string)
    ensures Contains(s, s)
  {
    assert s[..|s|] == s;
  }

  /** Leading `c`s are stripped from `u` alone when `u` ends with another
      character. */
  lemma {:induction false} StripLeadingConcat(u: string, v: string, c: char)
    requires |u| > 0 && u[|u| - 1] != c
    ensures StripLeading(u + v, c) == StripLeading(u, c) + v
    decreases |u|
  {
    if u[0] == c {
      assert (u + v)[1..] == u[1..] + v;
      StripLeadingConcat(u[1..], v, c);
    }
  }

  /** Trailing `c`s are stripped from `v` alone when `v` starts with another
      character. */
  lemma {:induction false} StripTrailingConcat(u: string, v: string, c: char)
    requires |v| > 0 && v[0] != c
    ensures StripTrailing(u + v, c) == u + StripTrailing(v, c)
    decreases |v|
  {
    var w := u + v;
    if v[|v| - 1] == c {
      assert w[..|w| - 1] == u + v[..|v| - 1];
      StripTrailingConcat(u, v[..|v| - 1], c);
    }
  }

  /** One more `c` at the end changes nothing once trailing `c`s are stripped. */
  lemma StripTrailingExtra(u: string, c: char)
    ensures StripTrailing(u + [c], c) == StripTrailing(u, c)
  {
    assert (u + [c])[..|u|] == u;
  }

  /** One more `c` at the front changes nothing once leading `c`s are stripped. */
  lemma StripLeadingExtra(c: char, v: string)
    ensures StripLeading([c] + v, c) == StripLeading(v, c)
  {
    assert ([c] + v)[1..] == v;
  }

  /** Stripping the front of a string that ends with another character
      keeps that end, so there is nothing left to strip at the back. */
  lemma StripLeadingKeepsEnd(u: string, c: char)
    requires |u| > 0 && u[|u| - 1] != c
    ensures StripTrailing(StripLeading(u, c), c) == StripLeading(u, c)
  {
    var r := StripLeading(u, c);
    assert |r| > 0;
    assert r[|r| - 1] == u[|u| - 1];
  }
}
