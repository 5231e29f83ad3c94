/**
 * The first step of the word counter: the global replacement of the pattern
 * `(< ([^>]+)<)` by nothing. A match is `<`, a space, one or more characters
 * other than `>`, and a closing `<`; the `+` is greedy, so among the matches
 * that start at a position the longest one is taken, and the scan resumes
 * after it. Ordinary tags such as `<b>` do not match.
 */
module TagStrip {
  import opened Wrappers

  /** n is the length of a match of the pattern at the head of s. */
  predicate IsTagAt(s: string, n: nat) {
    4 <= n <= |s| && s[0] == '<' && s[1] == ' ' && s[n - 1] == '<'
    && forall j :: 2 <= j < n - 1 ==> s[j] != '>'
  }

  /** Length of the longest prefix of s without `>`. */
  function GtFreeLen(s: string): (n: nat)
    ensures n <= |s|
    ensures forall j :: 0 <= j < n ==> s[j] != '>'
    ensures n == |s| || s[n] == '>'
  {
    if s != [] && s[0] != '>' then 1 + GtFreeLen(s[1..]) else 0
  }

  /** The last index in [lo, hi) that holds `<`, if any. */
  function LastLt(s: string, lo: nat, hi: nat): (r: Option<nat>)
    requires lo <= hi <= |s|
    ensures r.Some? ==> lo <= r.value < hi && s[r.value] == '<'
    ensures r.Some? ==> forall j :: r.value < j < hi ==> s[j] != '<'
    ensures r.None? ==> forall j :: lo <= j < hi ==> s[j] != '<'
    decreases hi - lo
  {
    if hi == lo then None
    else if s[hi - 1] == '<' then Some(hi - 1)
    else LastLt(s, lo, hi - 1)
  }

  /**
   * The regex engine at the head of s: `< ` is matched literally, `[^>]+`
   * first runs up to the first `>` (or the end) and then backs off to the
   * last `<` that leaves it non-empty.
   */
  function TagMatch(s: string): (r: Option<nat>)
    ensures r.Some? ==> IsTagAt(s, r.value)
    ensures r.Some? ==> forall n: nat :: IsTagAt(s, n) ==> n <= r.value
    ensures r.None? ==> forall n: nat :: !IsTagAt(s, n)
  {
    if |s| >= 2 && s[0] == '<' && s[1] == ' ' then
      var k := 2 + GtFreeLen(s[2..]);
      if k < 3 then None
      else
        match LastLt(s, 3, k)
        case Some(m) => Some(m + 1)
        case None => None
    else None
  }

  /** `replace(/(< ([^>]+)<)/g, '')`: every match, scanning left to right, is deleted. */
  function StripTags(s: string): (r: string)
    ensures |r| <= |s|
    decreases |s|
  {
    if s == [] then []
    else
      match TagMatch(s)
      case Some(n) => StripTags(s[n..])
      case None => [s[0]] + StripTags(s[1..])
  }

  /** s contains the two characters `< ` in a row somewhere. */
  predicate HasTagOpener(s: string) {
    exists i :: 0 <= i < |s| - 1 && s[i] == '<' && s[i + 1] == ' '
  }

  /** Text without `< ` passes through the strip step unchanged. */
  lemma {:induction false} StripTagsWithoutOpener(s: string)
    requires !HasTagOpener(s)
    ensures StripTags(s) == s
    decreases |s|
  {
    if s != [] {
      assert TagMatch(s) == None by {
        if |s| >= 2 {
          assert !(s[0] == '<' && s[1] == ' ');
        }
      }
      StripTagsWithoutOpener(s[1..]);
    }
  }

  lemma TagAtAppend(s: string, w: string, n: nat)
    requires '<' !in w
    ensures IsTagAt(s + w, n) <==> IsTagAt(s, n)
  {
    if 4 <= n <= |s| {
      assert forall j :: 0 <= j < n ==> (s + w)[j] == s[j];
    }
  }

  /** Appending text without `<` cannot change the match at the head. */
  lemma TagMatchAppend(s: string, w: string)
    requires '<' !in w
    ensures TagMatch(s + w) == TagMatch(s)
  {
    forall n: nat | true
      ensures IsTagAt(s + w, n) <==> IsTagAt(s, n)
    {
      TagAtAppend(s, w, n);
    }
    var a, b := TagMatch(s + w), TagMatch(s);
    if a.Some? && b.Some? {
      assert a.value <= b.value && b.value <= a.value;
    }
  }

  /** Text without `<` passes through the strip step unchanged. */
  lemma StripTagsWithoutLt(s: string)
    requires '<' !in s
    ensures StripTags(s) == s
  {
    StripTagsWithoutOpener(s);
  }

  /** A prefix without `<` is kept and does not change how the rest is stripped. */
  lemma {:induction false} StripTagsPrefix(w: string, s: string)
    requires '<' !in w
    ensures StripTags(w + s) == w + StripTags(s)
    decreases |w|
  {
    if w != [] {
      assert w[0] in w;
      assert TagMatch(w + s) == None;
      assert (w + s)[1..] == w[1..] + s;
      StripTagsPrefix(w[1..], s);
    } else {
      assert w + s == s;
    }
  }

  /** A suffix without `<` is kept and does not change how the text before it is stripped. */
  lemma {:induction false} StripTagsSuffix(s: string, w: string)
    requires '<' !in w
    ensures StripTags(s + w) == StripTags(s) + w
    decreases |s|
  {
    if s == [] {
      assert s + w == w;
      StripTagsWithoutLt(w);
    } else {
      TagMatchAppend(s, w);
      match TagMatch(s)
      case Some(n) =>
        assert (s + w)[n..] == s[n..] + w;
        StripTagsSuffix(s[n..], w);
      case None =>
        assert (s + w)[1..] == s[1..] + w;
        StripTagsSuffix(s[1..], w);
    }
  }
}
