/** `src/core/utils.py`: slug generation and the upload content-type whitelist.
    Slugs are modelled on text that is already ASCII (the transliteration
    step is the identity there). */
module Utils {

  import opened Common
  import Strings

  /** The characters `[a-z0-9]` that survive the regular expression. */
  predicate IsAlnum(c: char)
  {
    ('a' <= c <= 'z') || ('0' <= c <= '9')
  }

  /** Characters a slug may hold. */
  predicate IsSlugChar(c: char)
  {
    IsAlnum(c) || c == '-'
  }

  predicate AllSlugChars(s: string)
  {
    forall i :: 0 <= i < |s| ==> IsSlugChar(s[i])
  }

  /** Positions `i` and `i + 1` of `s` are both hyphens. */
  predicate HyphenPairAt(s: string, i: nat)
    requires i + 1 < |s|
  {
    s[i] == '-' && s[i + 1] == '-'
  }

  predicate NoDoubleHyphen(s: string)
  {
    forall i: nat :: i + 1 < |s| ==> !HyphenPairAt(s, i)
  }

  /** A well-formed slug: `[a-z0-9]` words joined by single hyphens. */
  predicate IsSlug(s: string)
  {
    && AllSlugChars(s)
    && NoDoubleHyphen(s)
    && (|s| > 0 ==> s[0] != '-' && s[|s| - 1] != '-')
  }

  /** ASCII `str.lower` on one character. */
  function ToLower(c: char): (r: char)
    ensures 'A' <= c <= 'Z' ==> 'a' <= r <= 'z'
    ensures !('A' <= c <= 'Z') ==> r == c
  {
    if 'A' <= c <= 'Z' then (c as int + 32) as char else c
  }

  function Lower(s: string): (r: string)
    ensures |r| == |s|
    ensures forall i :: 0 <= i < |s| ==> r[i] == ToLower(s[i])
  {
    seq(|s|, i requires 0 <= i < |s| => ToLower(s[i]))
  }

  /** The letters and digits of `s`, in order. */
  function Alnums(s: string): string
    decreases |s|
  {
    if |s| == 0 then [] else (if IsAlnum(s[0]) then [s[0]] else []) + Alnums(s[1..])
  }

  /** `s` with every hyphen removed. */
  function RemoveHyphens(s: string): string
    decreases |s|
  {
    if |s| == 0 then [] else (if s[0] != '-' then [s[0]] else []) + RemoveHyphens(s[1..])
  }

  /** Consumes one maximal run of characters outside `[a-z0-9]`. */
  function DropSeparators(s: string): (r: string)
    ensures |r| <= |s| && r == s[|s| - |r|..]
    ensures |r| > 0 ==> IsAlnum(r[0])
    ensures forall i :: 0 <= i < |s| - |r| ==> !IsAlnum(s[i])
    decreases |s|
  {
    if |s| > 0 && !IsAlnum(s[0]) then
      var r := DropSeparators(s[1..]);
      assert forall i :: 1 <= i < |s| - |r| ==> s[i] == s[1..][i - 1];
      r
    else s
  }

  /** `re.sub(r'[^a-z0-9]+', '-', s)`: every maximal run of other characters
      becomes exactly one hyphen. */
  function Collapse(s: string): (r: string)
    decreases |s|
  {
    if |s| == 0 then []
    else if IsAlnum(s[0]) then [s[0]] + Collapse(s[1..])
    else "-" + Collapse(DropSeparators(s[1..]))
  }

  /** `generate_slug`: lower-case, collapse separator runs to '-', strip '-'. */
  function GenerateSlug(text: string): (slug: string)
    ensures IsSlug(slug)
    ensures RemoveHyphens(slug) == Alnums(Lower(text))
  {
    var collapsed := Collapse(Lower(text));
    CollapseShape(Lower(text));
    StripShape(collapsed);
    RemoveHyphensOfSlugChars(Strings.Strip(collapsed, '-'));
    Strings.Strip(collapsed, '-')
  }

  const AllowedContentTypes: seq<string> := ["image/jpeg", "image/png", "image/webp"]

  /** `is_allowed_content_type`: the upload's content type (absent when the
      client sent none) is one of the three image types. */
  function IsAllowedContentType(contentType: Option<string>): (allowed: bool)
    ensures allowed <==> contentType in {Some("image/jpeg"), Some("image/png"), Some("image/webp")}
  {
    contentType.Some? && contentType.value in AllowedContentTypes
  }

  // ---------------------------------------------------------------- lemmas

  lemma {:induction false} AlnumsConcat(a: string, b: string)
    ensures Alnums(a + b) == Alnums(a) + Alnums(b)
    decreases |a|
  {
    if |a| == 0 {
      assert a + b == b;
    } else {
      var h := if IsAlnum(a[0]) then [a[0]] else [];
      assert (a + b)[0] == a[0];
      assert (a + b)[1..] == a[1..] + b;
      AlnumsConcat(a[1..], b);
      assert Alnums(a + b) == h + (Alnums(a[1..]) + Alnums(b));
      assert Alnums(a) == h + Alnums(a[1..]);
      assert h + (Alnums(a[1..]) + Alnums(b)) == (h + Alnums(a[1..])) + Alnums(b);
    }
  }

  lemma {:induction false} AlnumsOfSeparators(s: string)
    requires forall i :: 0 <= i < |s| ==> !IsAlnum(s[i])
    ensures Alnums(s) == []
    decreases |s|
  {
    if |s| > 0 {
      AlnumsOfSeparators(s[1..]);
    }
  }

  lemma {:induction false} DropSeparatorsAlnums(s: string)
    ensures Alnums(DropSeparators(s)) == Alnums(s)
  {
    var r := DropSeparators(s);
    var k := |s| - |r|;
    var run := s[..k];
    assert r == s[k..];
    SplitAt(s, k);
    forall i | 0 <= i < |run|
      ensures !IsAlnum(run[i])
    {
      assert run[i] == s[i];
    }
    AlnumsConcat(run, r);
    AlnumsOfSeparators(run);
  }

  /** What the substitution step produces: slug characters only, never two
      hyphens in a row, the same letters and digits, and a leading hyphen
      exactly when the input starts with a separator. */
  lemma CollapseShape(s: string)
    ensures AllSlugChars(Collapse(s))
    ensures NoDoubleHyphen(Collapse(s))
    ensures Alnums(Collapse(s)) == Alnums(s)
    ensures |s| > 0 ==> |Collapse(s)| > 0 && (Collapse(s)[0] == '-' <==> !IsAlnum(s[0]))
  {
    CollapseChars(s);
    CollapseNoDoubleHyphen(s);
    CollapseAlnums(s);
  }

  lemma {:induction false} CollapseChars(s: string)
    ensures AllSlugChars(Collapse(s))
    decreases |s|
  {
    if |s| > 0 {
      if IsAlnum(s[0]) {
        CollapseChars(s[1..]);
      } else {
        CollapseChars(DropSeparators(s[1..]));
      }
    }
  }

  lemma {:induction false} CollapseNoDoubleHyphen(s: string)
    ensures NoDoubleHyphen(Collapse(s))
    decreases |s|
  {
    if |s| > 0 {
      if IsAlnum(s[0]) {
        CollapseNoDoubleHyphen(s[1..]);
        ConsNoDoubleHyphen(s[0], Collapse(s[1..]));
      } else {
        var tail := DropSeparators(s[1..]);
        CollapseNoDoubleHyphen(tail);
        if |tail| > 0 {
          assert Collapse(tail)[0] == tail[0];
        }
        ConsNoDoubleHyphen('-', Collapse(tail));
      }
    }
  }

  /** A character in front of a string keeps it free of "--" unless both
      it and the string's first character are hyphens. */
  lemma ConsNoDoubleHyphen(x: char, t: string)
    requires NoDoubleHyphen(t)
    requires x == '-' && |t| > 0 ==> t[0] != '-'
    ensures NoDoubleHyphen([x] + t)
  {
    var c := [x] + t;
    forall i: nat | i + 1 < |c|
      ensures !HyphenPairAt(c, i)
    {
      if i > 0 {
        assert !HyphenPairAt(t, i - 1);
      }
    }
  }

  lemma {:induction false} CollapseAlnums(s: string)
    ensures Alnums(Collapse(s)) == Alnums(s)
    decreases |s|
  {
    if |s| > 0 {
      if IsAlnum(s[0]) {
        CollapseAlnums(s[1..]);
        AlnumsConcat([s[0]], Collapse(s[1..]));
      } else {
        var rest := DropSeparators(s[1..]);
        CollapseAlnums(rest);
        DropSeparatorsAlnums(s[1..]);
        AlnumsConcat("-", Collapse(rest));
      }
    }
  }

  lemma {:induction false} AlnumsOfHyphens(s: string)
    requires forall i :: 0 <= i < |s| ==> s[i] == '-'
    ensures Alnums(s) == []
    decreases |s|
  {
    if |s| > 0 {
      AlnumsOfHyphens(s[1..]);
    }
  }

  lemma SliceShape(s: string, lo: nat, hi: nat)
    requires AllSlugChars(s) && NoDoubleHyphen(s)
    requires lo <= hi <= |s|
    ensures AllSlugChars(s[lo..hi]) && NoDoubleHyphen(s[lo..hi])
  {
    var t := s[lo..hi];
    assert forall i :: 0 <= i < |t| ==> t[i] == s[lo + i];
    forall i: nat | i + 1 < |t|
      ensures !HyphenPairAt(t, i)
    {
      assert !HyphenPairAt(s, lo + i);
    }
  }

  lemma HyphenPaddingAlnums(front: string, mid: string, back: string)
    requires forall i :: 0 <= i < |front| ==> front[i] == '-'
    requires forall i :: 0 <= i < |back| ==> back[i] == '-'
    ensures Alnums(front + mid + back) == Alnums(mid)
  {
    AlnumsConcat(front + mid, back);
    AlnumsConcat(front, mid);
    AlnumsOfHyphens(front);
    AlnumsOfHyphens(back);
  }

  /** Stripping hyphens from the collapsed text keeps a contiguous middle
      part, so it keeps the slug shape and loses no letter or digit. */
  lemma StripShape(s: string)
    requires AllSlugChars(s) && NoDoubleHyphen(s)
    ensures IsSlug(Strings.Strip(s, '-'))
    ensures Alnums(Strings.Strip(s, '-')) == Alnums(s)
  {
    var r := Strings.Strip(s, '-');
    var front, back := StripPieces(s);
    SliceShape(s, |front|, |front| + |r|);
    HyphenPaddingAlnums(front, r, back);
  }

  /** The hyphens `s.strip('-')` removes from each end of `s`. */
  function LeadingHyphens(s: string): string
  {
    s[..|s| - |Strings.StripLeading(s, '-')|]
  }

  function TrailingHyphens(s: string): string
  {
    var left := Strings.StripLeading(s, '-');
    left[|Strings.StripTrailing(left, '-')|..]
  }

  lemma {:induction false} StripCut(s: string)
    ensures var r := Strings.Strip(s, '-');
      && s == LeadingHyphens(s) + r + TrailingHyphens(s)
      && r == s[|LeadingHyphens(s)|..|LeadingHyphens(s)| + |r|]
  {
    LeadCut(s);
    TrailCut(s);
    Regroup(s, LeadingHyphens(s), Strings.StripLeading(s, '-'), Strings.Strip(s, '-'), TrailingHyphens(s));
  }

  lemma {:induction false} LeadCut(s: string)
    ensures s == LeadingHyphens(s) + Strings.StripLeading(s, '-')
  {
    var left := Strings.StripLeading(s, '-');
    var k := |s| - |left|;
    assert left == s[k..];
    SplitAt(s, k);
  }

  lemma {:induction false} TrailCut(s: string)
    ensures Strings.StripLeading(s, '-') == Strings.Strip(s, '-') + TrailingHyphens(s)
  {
    var left := Strings.StripLeading(s, '-');
    var r := Strings.StripTrailing(left, '-');
    assert r == left[..|r|];
    SplitAt(left, |r|);
  }

  lemma HyphenEnds(s: string)
    ensures forall i :: 0 <= i < |LeadingHyphens(s)| ==> LeadingHyphens(s)[i] == '-'
    ensures forall i :: 0 <= i < |TrailingHyphens(s)| ==> TrailingHyphens(s)[i] == '-'
  {
  }

  /** `s.strip('-')` cuts `s` into hyphens, the result, hyphens. */
  lemma StripPieces(s: string) returns (front: string, back: string)
    ensures s == front + Strings.Strip(s, '-') + back
    ensures Strings.Strip(s, '-') == s[|front|..|front| + |Strings.Strip(s, '-')|]
    ensures forall i :: 0 <= i < |front| ==> front[i] == '-'
    ensures forall i :: 0 <= i < |back| ==> back[i] == '-'
  {
    front, back := LeadingHyphens(s), TrailingHyphens(s);
    StripCut(s);
    HyphenEnds(s);
  }

  lemma SplitAt(s: string, k: nat)
    requires k <= |s|
    ensures s == s[..k] + s[k..]
  {
  }

  lemma Regroup(s: string, front: string, left: string, r: string, back: string)
    requires s == front + left && left == r + back
    ensures s == front + r + back
    ensures r == s[|front|..|front| + |r|]
  {
  }

  lemma {:induction false} RemoveHyphensOfSlugChars(s: string)
    requires AllSlugChars(s)
    ensures RemoveHyphens(s) == Alnums(s)
    decreases |s|
  {
    if |s| > 0 {
      RemoveHyphensOfSlugChars(s[1..]);
    }
  }

  lemma {:induction false} LowerOfSlugChars(s: string)
    requires AllSlugChars(s)
    ensures Lower(s) == s
  {
  }

  lemma {:induction false} CollapseOfSlugText(s: string)
    requires AllSlugChars(s) && NoDoubleHyphen(s)
    ensures Collapse(s) == s
    decreases |s|
  {
    if |s| > 0 {
      SliceShape(s, 1, |s|);
      assert s[1..|s|] == s[1..];
      if IsAlnum(s[0]) {
        CollapseOfSlugText(s[1..]);
      } else {
        if |s| > 1 {
          assert !HyphenPairAt(s, 0);
        }
        assert DropSeparators(s[1..]) == s[1..];
        CollapseOfSlugText(s[1..]);
      }
    }
  }

  /** Slugging a slug changes nothing. */
  lemma SlugIdempotent(text: string)
    ensures GenerateSlug(GenerateSlug(text)) == GenerateSlug(text)
  {
    var slug := GenerateSlug(text);
    LowerOfSlugChars(slug);
    CollapseOfSlugText(slug);
    assert Strings.StripLeading(slug, '-') == slug;
  }

  /** The slug is empty exactly when the text has no letter or digit. */
  lemma SlugEmptyIff(text: string)
    ensures GenerateSlug(text) == [] <==> Alnums(Lower(text)) == []
  {
    var slug := GenerateSlug(text);
    if slug != [] {
      assert IsAlnum(slug[0]);
      assert RemoveHyphens(slug)[0] == slug[0];
    }
  }

  predicate AllAlnum(w: string)
  {
    forall i :: 0 <= i < |w| ==> IsAlnum(w[i])
  }

  /** `AllAlnum`, one character at a time. */
  predicate AlnumWord(w: string)
    decreases |w|
  {
    |w| == 0 || (IsAlnum(w[0]) && AlnumWord(w[1..]))
  }

  lemma {:induction false} AlnumWordOf(w: string)
    requires AllAlnum(w)
    ensures AlnumWord(w)
    decreases |w|
  {
    if |w| > 0 {
      assert AllAlnum(w[1..]) by {
        forall i | 0 <= i < |w| - 1
          ensures IsAlnum(w[1..][i])
        {
          assert w[1..][i] == w[i + 1];
        }
      }
      AlnumWordOf(w[1..]);
    }
  }

  /** A letter or digit in front passes through the substitution. */
  lemma CollapseAlnumCons(c: char, rest: string)
    requires IsAlnum(c)
    ensures Collapse([c] + rest) == [c] + Collapse(rest)
  {
    ConsParts(c, rest);
  }

  lemma {:induction false} CollapseAlnumPrefix(w: string, rest: string)
    requires AlnumWord(w)
    ensures Collapse(w + rest) == w + Collapse(rest)
    decreases |w|
  {
    if |w| == 0 {
      EmptyPrefix(w, rest);
      EmptyPrefix(w, Collapse(rest));
    } else {
      var c, tail := w[0], w[1..];
      HeadTail(w);
      Associative([c], tail, rest);
      CollapseAlnumCons(c, tail + rest);
      CollapseAlnumPrefix(tail, rest);
      Associative([c], tail, Collapse(rest));
    }
  }

  lemma ConsParts(c: char, rest: string)
    ensures ([c] + rest)[0] == c && ([c] + rest)[1..] == rest
  {
  }

  lemma HeadTail(w: string)
    requires |w| > 0
    ensures w == [w[0]] + w[1..]
  {
  }

  lemma EmptyPrefix(w: string, rest: string)
    requires |w| == 0
    ensures w + rest == rest
  {
  }

  /** A space before a word becomes one hyphen. */
  lemma {:induction false} CollapseSpacedWord(w: string)
    requires |w| > 0 && AlnumWord(w)
    ensures Collapse(" " + w) == "-" + w
  {
    assert (" " + w)[1..] == w;
    assert DropSeparators(w) == w;
    CollapseAlnumPrefix(w, "");
    assert w + "" == w;
  }

  lemma {:induction false} CollapseTwoWords(w1: string, w2: string)
    requires |w2| > 0 && AlnumWord(w1) && AlnumWord(w2)
    ensures Collapse(w1 + " " + w2) == w1 + "-" + w2
  {
    Associative(w1, " ", w2);
    CollapseAlnumPrefix(w1, " " + w2);
    CollapseSpacedWord(w2);
    Associative(w1, "-", w2);
  }

  lemma Associative(a: string, b: string, c: string)
    ensures a + (b + c) == a + b + c
  {
  }

  lemma StripUnhyphenated(r: string)
    requires |r| > 0 && r[0] != '-' && r[|r| - 1] != '-'
    ensures Strings.Strip(r, '-') == r
  {
  }

  /** Two words separated by one space become two words joined by '-'. */
  lemma SlugOfTwoWords(text: string, w1: string, w2: string)
    requires Lower(text) == w1 + " " + w2
    requires |w1| > 0 && |w2| > 0 && AllAlnum(w1) && AllAlnum(w2)
    ensures GenerateSlug(text) == w1 + "-" + w2
  {
    AlnumWordOf(w1);
    AlnumWordOf(w2);
    CollapseTwoWords(w1, w2);
    var r := w1 + "-" + w2;
    assert r[0] == w1[0] && r[|r| - 1] == w2[|w2| - 1];
    StripUnhyphenated(r);
  }

  /** The title and the name used by the source's tests. */
  lemma SlugExampleBook(title: string)
    requires title == "Big Life"
    ensures GenerateSlug(title) == "big-life"
  {
    var w1, w2 := "big", "life";
    ExampleWords(title, w1, w2);
    SlugOfTwoWords(title, w1, w2);
  }

  lemma SlugExampleAuthor(name: string)
    requires name == "Thomas Shelby"
    ensures GenerateSlug(name) == "thomas-shelby"
  {
    var w1, w2 := "thomas", "shelby";
    AuthorWords(name, w1, w2);
    SlugOfTwoWords(name, w1, w2);
  }

  lemma ExampleWords(text: string, w1: string, w2: string)
    requires text == "Big Life" && w1 == "big" && w2 == "life"
    ensures Lower(text) == w1 + " " + w2
    ensures |w1| > 0 && |w2| > 0 && AllAlnum(w1) && AllAlnum(w2)
  {
  }

  lemma AuthorWords(text: string, w1: string, w2: string)
    requires text == "Thomas Shelby" && w1 == "thomas" && w2 == "shelby"
    ensures Lower(text) == w1 + " " + w2
    ensures |w1| > 0 && |w2| > 0 && AllAlnum(w1) && AllAlnum(w2)
  {
  }

  // ------------------------------------------------- separators and words

  /** Lower-casing works character by character. */
  lemma LowerConcat(u: string, v: string)
    ensures Lower(u + v) == Lower(u) + Lower(v)
  {
  }

  /** A text without letters or digits: its head is a separator and so is
      the rest. */
  lemma SeparatorsUnfold(m: string)
    requires |m| > 0 && Alnums(m) == []
    ensures !IsAlnum(m[0]) && Alnums(m[1..]) == []
  {
  }

  /** A run of separators in front is consumed with whatever follows it. */
  lemma {:induction false} DropSeparatorsOfSeparators(m: string, z: string)
    requires Alnums(m) == []
    ensures DropSeparators(m + z) == DropSeparators(z)
    decreases |m|
  {
    if |m| == 0 {
      EmptyPrefix(m, z);
    } else {
      SeparatorsUnfold(m);
      assert (m + z)[0] == m[0] && (m + z)[1..] == m[1..] + z;
      DropSeparatorsOfSeparators(m[1..], z);
    }
  }

  /** A non-empty run of separators in front becomes one hyphen. */
  lemma CollapseSeparatorsPrefix(m: string, z: string)
    requires |m| > 0 && Alnums(m) == []
    ensures Collapse(m + z) == "-" + Collapse(DropSeparators(z))
  {
    SeparatorsUnfold(m);
    assert (m + z)[0] == m[0] && (m + z)[1..] == m[1..] + z;
    DropSeparatorsOfSeparators(m[1..], z);
  }

  /** Text made of separators alone collapses to nothing or to one hyphen. */
  lemma CollapseOfSeparators(t: string)
    requires Alnums(t) == []
    ensures Collapse(t) == if |t| == 0 then "" else "-"
  {
    if |t| > 0 {
      CollapseSeparatorsPrefix(t, "");
      assert t + "" == t;
    }
  }

  /** The separators run of `y + z` stops inside `y` when `y` ends with a
      letter or digit. */
  lemma {:induction false} DropSeparatorsConcat(y: string, z: string)
    requires |y| > 0 && IsAlnum(y[|y| - 1])
    ensures DropSeparators(y + z) == DropSeparators(y) + z
    decreases |y|
  {
    if !IsAlnum(y[0]) {
      assert (y + z)[0] == y[0] && (y + z)[1..] == y[1..] + z;
      DropSeparatorsConcat(y[1..], z);
    } else {
      assert (y + z)[0] == y[0];
    }
  }

  /** What is left after the separators of a text that ends with a letter
      or digit still ends with it. */
  lemma DropSeparatorsKeepsEnd(y: string)
    requires |y| > 0 && IsAlnum(y[|y| - 1])
    ensures var d := DropSeparators(y); |d| > 0 && d[|d| - 1] == y[|y| - 1] && |d| < |y| + 1
  {
  }

  /** The substitution splits at a boundary right after a letter or digit. */
  lemma {:induction false} CollapseSplit(x: string, z: string)
    requires |x| == 0 || IsAlnum(x[|x| - 1])
    ensures Collapse(x + z) == Collapse(x) + Collapse(z)
    decreases |x|
  {
    if |x| == 0 {
      EmptyPrefix(x, z);
      EmptyPrefix(Collapse(x), Collapse(z));
    } else if IsAlnum(x[0]) {
      var tail := x[1..];
      HeadTail(x);
      Associative([x[0]], tail, z);
      CollapseAlnumCons(x[0], tail + z);
      CollapseSplit(tail, z);
      Associative([x[0]], Collapse(tail), Collapse(z));
    } else {
      var tail := x[1..];
      assert (x + z)[0] == x[0] && (x + z)[1..] == tail + z;
      DropSeparatorsKeepsEnd(tail);
      DropSeparatorsConcat(tail, z);
      var d := DropSeparators(tail);
      CollapseSplit(d, z);
      Associative("-", Collapse(d), Collapse(z));
    }
  }

  /** The last letter or digit cuts a text into a part ending with it and
      trailing separators. */
  lemma {:induction false} SplitTrailingSeparators(x: string) returns (x1: string, t: string)
    requires Alnums(x) != []
    ensures x == x1 + t && |x1| > 0 && IsAlnum(x1[|x1| - 1]) && Alnums(t) == []
    decreases |x|
  {
    var n := |x|;
    if IsAlnum(x[n - 1]) {
      x1, t := x, [];
    } else {
      var init := x[..n - 1];
      assert x == init + [x[n - 1]];
      AlnumsConcat(init, [x[n - 1]]);
      var t1;
      x1, t1 := SplitTrailingSeparators(init);
      t := t1 + [x[n - 1]];
      AlnumsConcat(t1, [x[n - 1]]);
      Associative(x1, t1, [x[n - 1]]);
    }
  }

  /** The first letter or digit cuts a text into leading separators and
      the rest. */
  lemma LeadingSeparators(y: string) returns (q: string)
    ensures y == q + DropSeparators(y) && Alnums(q) == []
  {
    var d := DropSeparators(y);
    q := y[..|y| - |d|];
    SplitAt(y, |y| - |d|);
    forall i | 0 <= i < |q|
      ensures !IsAlnum(q[i])
    {
      assert q[i] == y[i];
    }
    AlnumsOfSeparators(q);
  }

  /** The substitution of a non-empty text ending with a letter or digit
      ends with it. */
  lemma {:induction false} CollapseEndsAlnum(x: string)
    requires |x| > 0 && IsAlnum(x[|x| - 1])
    ensures var c := Collapse(x); |c| > 0 && c[|c| - 1] == x[|x| - 1]
    decreases |x|
  {
    if IsAlnum(x[0]) {
      if |x| > 1 {
        CollapseEndsAlnum(x[1..]);
      }
    } else {
      DropSeparatorsKeepsEnd(x[1..]);
      CollapseEndsAlnum(DropSeparators(x[1..]));
    }
  }

  /** A non-empty collapsed run of separators is one hyphen. */
  predicate HyphenOrEmpty(h: string)
  {
    h == "" || h == "-"
  }

  /** The substitution of `x + s + y`, with separators `s` between texts
      that each hold a letter or digit, is the substitution of `x` and of
      `y` (less their outer hyphen, if any) joined by one hyphen. */
  lemma CollapseJoin(x: string, s: string, y: string) returns (c1: string, h1: string, h2: string, c2: string)
    requires |s| > 0 && Alnums(s) == [] && Alnums(x) != [] && Alnums(y) != []
    ensures Collapse(x + s + y) == c1 + "-" + c2
    ensures Collapse(x) == c1 + h1 && Collapse(y) == h2 + c2
    ensures HyphenOrEmpty(h1) && HyphenOrEmpty(h2)
    ensures |c1| > 0 && c1[|c1| - 1] != '-' && |c2| > 0 && c2[0] != '-'
  {
    var x1, t := SplitTrailingSeparators(x);
    var q := LeadingSeparators(y);
    var y1 := DropSeparators(y);
    DropSeparatorsAlnums(y);
    assert |y1| > 0;
    var m := t + s + q;
    AlnumsConcat(t + s, q);
    AlnumsConcat(t, s);
    Regroup5(x1, t, s, q, y1);
    CollapseSplit(x1, m + y1);
    CollapseSeparatorsPrefix(m, y1);
    assert DropSeparators(y1) == y1;
    c1, c2 := Collapse(x1), Collapse(y1);
    Associative(c1, "-", c2);
    CollapseSplit(x1, t);
    CollapseOfSeparators(t);
    h1 := if |t| == 0 then "" else "-";
    CollapseAfterSeparators(q, y1);
    h2 := if |q| == 0 then "" else "-";
    CollapseEndsAlnum(x1);
    CollapseShape(y1);
  }

  lemma Regroup5(x1: string, t: string, s: string, q: string, y1: string)
    ensures (x1 + t) + s + (q + y1) == x1 + ((t + s + q) + y1)
  {
  }

  /** Leading separators before a letter or digit become at most one hyphen. */
  lemma CollapseAfterSeparators(q: string, y1: string)
    requires Alnums(q) == [] && |y1| > 0 && IsAlnum(y1[0])
    ensures Collapse(q + y1) == (if |q| == 0 then "" else "-") + Collapse(y1)
  {
    if |q| == 0 {
      EmptyPrefix(q, y1);
    } else {
      CollapseSeparatorsPrefix(q, y1);
    }
  }

  /** Stripping the joined text strips each side on its own. */
  lemma StripJoin(c1: string, h1: string, h2: string, c2: string)
    requires HyphenOrEmpty(h1) && HyphenOrEmpty(h2)
    requires |c1| > 0 && c1[|c1| - 1] != '-' && |c2| > 0 && c2[0] != '-'
    ensures Strings.Strip(c1 + "-" + c2, '-') == Strings.Strip(c1 + h1, '-') + "-" + Strings.Strip(h2 + c2, '-')
  {
    var lead := Strings.StripLeading(c1, '-');
    Associative(c1, "-", c2);
    Strings.StripLeadingConcat(c1, "-" + c2, '-');
    Associative(lead, "-", c2);
    Strings.StripTrailingConcat(lead + "-", c2, '-');
    StripOfWordEnd(c1, h1);
    StripOfWordStart(h2, c2);
  }

  /** A hyphen or nothing after a part that does not end with '-' goes
      away, as do the hyphens in front of it. */
  lemma StripOfWordEnd(c1: string, h1: string)
    requires HyphenOrEmpty(h1) && |c1| > 0 && c1[|c1| - 1] != '-'
    ensures Strings.Strip(c1 + h1, '-') == Strings.StripLeading(c1, '-')
  {
    var lead := Strings.StripLeading(c1, '-');
    Strings.StripLeadingConcat(c1, h1, '-');
    Strings.StripLeadingKeepsEnd(c1, '-');
    if h1 == "-" {
      Strings.StripTrailingExtra(lead, '-');
    } else {
      assert lead + h1 == lead;
    }
  }

  /** A hyphen or nothing before a part that does not start with '-' goes
      away, as do the hyphens after it. */
  lemma StripOfWordStart(h2: string, c2: string)
    requires HyphenOrEmpty(h2) && |c2| > 0 && c2[0] != '-'
    ensures Strings.Strip(h2 + c2, '-') == Strings.StripTrailing(c2, '-')
  {
    if h2 == "-" {
      Strings.StripLeadingExtra('-', c2);
    } else {
      assert h2 + c2 == c2;
    }
  }

  /** `generate_slug` of two texts, each with a letter or digit, separated
      by a non-empty run without letters or digits is the two slugs joined
      by exactly one hyphen. */
  lemma SlugJoin(a: string, sep: string, b: string)
    requires |sep| > 0 && Alnums(Lower(sep)) == []
    requires Alnums(Lower(a)) != [] && Alnums(Lower(b)) != []
    ensures GenerateSlug(a + sep + b) == GenerateSlug(a) + "-" + GenerateSlug(b)
  {
    LowerConcat(a + sep, b);
    LowerConcat(a, sep);
    var c1, h1, h2, c2 := CollapseJoin(Lower(a), Lower(sep), Lower(b));
    StripJoin(c1, h1, h2, c2);
  }

  /** Separators in front of a text do not reach its slug. */
  lemma SlugIgnoresLeadingSeparators(sep: string, a: string)
    requires Alnums(Lower(sep)) == []
    ensures GenerateSlug(sep + a) == GenerateSlug(a)
  {
    LowerConcat(sep, a);
    var s, x := Lower(sep), Lower(a);
    if |s| == 0 {
      EmptyPrefix(s, x);
    } else {
      CollapseSeparatorsPrefix(s, x);
      var d := DropSeparators(x);
      if |x| > 0 && !IsAlnum(x[0]) {
        assert Collapse(x) == "-" + Collapse(d);
      } else {
        assert d == x;
        Strings.StripLeadingExtra('-', Collapse(x));
      }
    }
  }

  /** Separators after a text do not reach its slug. */
  lemma SlugIgnoresTrailingSeparators(a: string, sep: string)
    requires Alnums(Lower(sep)) == []
    ensures GenerateSlug(a + sep) == GenerateSlug(a)
  {
    LowerConcat(a, sep);
    var x, s := Lower(a), Lower(sep);
    AlnumsConcat(x, s);
    if Alnums(x) == [] {
      SlugEmptyIff(a);
      SlugEmptyIff(a + sep);
    } else {
      var x1, t := SplitTrailingSeparators(x);
      assert x + s == x1 + (t + s);
      AlnumsConcat(t, s);
      CollapseSplit(x1, t + s);
      CollapseSplit(x1, t);
      CollapseOfSeparators(t + s);
      CollapseOfSeparators(t);
      CollapseEndsAlnum(x1);
      StripOfWordEnd(Collapse(x1), Collapse(t));
      StripOfWordEnd(Collapse(x1), Collapse(t + s));
    }
  }
}
