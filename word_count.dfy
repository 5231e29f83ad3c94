/**
 * What `countWords` computes, and the sum over selections that
 * `_getWordCountForSelections` builds from it with `map` and `reduce`.
 */
module Counting {
  import opened Wrappers
  import opened TextSteps
  import opened TagStrip

  /**
   * The word count of a text: the number of maximal whitespace-free runs
   * left after the tag strip. It is 0 exactly when the stripped text is
   * empty or all whitespace, and a text of length L holds at most
   * (L + 1) / 2 words.
   */
  function WordCount(text: string): (n: nat)
    ensures n == 0 <==> AllWs(StripTags(text))
    ensures n <= (|text| + 1) / 2
  {
    WordsBlank(StripTags(text));
    WordsBound(StripTags(text));
    |Words(StripTags(text))|
  }

  /** Whitespace before and after the text does not change the count. */
  lemma CountIgnoresOuterWs(w1: string, text: string, w2: string)
    requires AllWs(w1) && AllWs(w2)
    ensures WordCount(w1 + text + w2) == WordCount(text)
  {
    var st := StripTags(text);
    StripOuterWs(w1, text, w2);
    WordsLeadingWs(w1, st + w2);
    WordsTrailingWs(st, w2);
  }

  lemma NoLtInWs(w: string)
    requires AllWs(w)
    ensures '<' !in w
  {
    assert !IsWs('<');
  }

  lemma StripOuterWs(w1: string, text: string, w2: string)
    requires AllWs(w1) && AllWs(w2)
    ensures StripTags(w1 + text + w2) == w1 + (StripTags(text) + w2)
  {
    NoLtInWs(w1);
    NoLtInWs(w2);
    assert w1 + text + w2 == w1 + (text + w2);
    StripTagsPrefix(w1, text + w2);
    StripTagsSuffix(text, w2);
  }

  /** Once the tag strip is done, the kind and length of the whitespace runs do not matter. */
  lemma CountIgnoresWsRuns(text: string)
    ensures |Words(CollapseWs(StripTags(text)))| == WordCount(text)
  {
    WordsOfCollapsed(StripTags(text));
  }

  /** In a text without `<`, collapsing whitespace runs before counting does not change the count. */
  lemma CountIgnoresWsRunsWithoutLt(text: string)
    requires '<' !in text
    ensures WordCount(CollapseWs(text)) == WordCount(text)
  {
    CollapseKeepsOut(text, '<');
    StripTagsWithoutLt(text);
    StripTagsWithoutLt(CollapseWs(text));
    WordsOfCollapsed(text);
  }

  /** With a `<` present the strip step sees the literal space, so a tab is not the same as a space. */
  lemma TabBeforeStripMatters()
    ensures CollapseWs("<\tx<") == "< x<"
    ensures WordCount("<\tx<") == 2 && WordCount("< x<") == 0
  {
    TabTextCollapse();
    TabTextCount();
    SpaceTextStrip();
  }

  lemma TabTextCollapse()
    ensures CollapseWs("<\tx<") == "< x<"
  {
    var t := "<\tx<";
    assert t[1..] == "\tx<" && "\tx<"[1..] == "x<";
    assert WsLen("x<") == 0;
    assert DropWs("\tx<") == "x<";
    assert CollapseWs("x<") == "x<" by {
      CollapseWord("x<", []);
      assert "x<" + [] == "x<";
    }
  }

  lemma TabTextCount()
    ensures WordCount("<\tx<") == 2
  {
    TabTextStrip();
    TabTextWords();
  }

  lemma TabTextStrip()
    ensures StripTags("<\tx<") == "<\tx<"
  {
    var t := "<\tx<";
    assert t[1] == '\t' && t[2] == 'x' && t[3] == '<';
    StripTagsWithoutOpener(t);
  }

  lemma TabTextWords()
    ensures |Words("<\tx<")| == 2
  {
    var t := "<\tx<";
    assert t == "<" + "\tx<";
    WordsCons("<", "\tx<");
    TabTailWords();
  }

  lemma TabTailWords()
    ensures Words("\tx<") == ["x<"]
  {
    var r := "\tx<";
    assert r[1..] == "x<";
    assert WsLen("x<") == 0;
    assert DropWs(r) == "x<";
    WordsAfterWs(r);
    WordsCons("x<", []);
    assert "x<" + [] == "x<";
    WordsBlank([]);
  }

  lemma SpaceTextStrip()
    ensures WordCount("< x<") == 0
  {
    var t := "< x<";
    assert t[2..] == "x<";
    assert GtFreeLen("x<") == 2 by {
      assert "x<"[1..] == "<";
      assert "<"[1..] == [];
    }
    assert LastLt(t, 3, 4) == Some(3);
    assert TagMatch(t) == Some(4);
    assert t[4..] == [];
    assert StripTags(t) == [];
    WordsBlank([]);
  }

  // ---------------------------------------------------------------------
  // selections

  /** A selection as a pair of offsets into the document text. */
  datatype Selection = Selection(start: nat, end: nat) {
    predicate IsEmpty() {
      start == end
    }

    predicate Within(text: string) {
      start <= end <= |text|
    }
  }

  predicate AllWithin(sels: seq<Selection>, text: string) {
    forall i :: 0 <= i < |sels| ==> sels[i].Within(text)
  }

  /** The `map` step: the word count of each selected substring, in order. */
  function SelectionCounts(text: string, sels: seq<Selection>): (counts: seq<nat>)
    requires AllWithin(sels, text)
    ensures |counts| == |sels|
  {
    seq(|sels|, i requires 0 <= i < |sels| => WordCount(text[sels[i].start..sels[i].end]))
  }

  /**
   * `reduce((acc, n) => acc + n)` without a seed: a left fold from the first
   * element. No count is larger than the total.
   */
  function ReduceAdd(xs: seq<nat>): (total: nat)
    requires |xs| > 0
    ensures forall i :: 0 <= i < |xs| ==> xs[i] <= total
  {
    if |xs| == 1 then xs[0] else ReduceAdd(xs[..|xs| - 1]) + xs[|xs| - 1]
  }

  /** The ordinary sum, 0 for the empty sequence. */
  function Sum(xs: seq<nat>): nat {
    if xs == [] then 0 else xs[0] + Sum(xs[1..])
  }

  lemma {:induction false} SumAppend(xs: seq<nat>, ys: seq<nat>)
    ensures Sum(xs + ys) == Sum(xs) + Sum(ys)
  {
    if xs == [] {
      assert xs + ys == ys;
    } else {
      assert (xs + ys)[1..] == xs[1..] + ys;
      SumAppend(xs[1..], ys);
    }
  }

  /** On a non-empty sequence the seedless reduce is the sum. */
  lemma {:induction false} ReduceAddIsSum(xs: seq<nat>)
    requires |xs| > 0
    ensures ReduceAdd(xs) == Sum(xs)
  {
    if |xs| == 1 {
      assert Sum(xs[1..]) == 0;
    } else {
      var init := xs[..|xs| - 1];
      ReduceAddIsSum(init);
      assert xs == init + [xs[|xs| - 1]];
      SumAppend(init, [xs[|xs| - 1]]);
    }
  }

  /** `_getWordCountForSelections`: the reduce over the mapped counts; the caller never passes an empty list. */
  function SelectionWordCount(text: string, sels: seq<Selection>): (n: nat)
    requires |sels| > 0 && AllWithin(sels, text)
    ensures forall i :: 0 <= i < |sels| ==> WordCount(text[sels[i].start..sels[i].end]) <= n
  {
    var counts := SelectionCounts(text, sels);
    assert forall i :: 0 <= i < |sels| ==> counts[i] == WordCount(text[sels[i].start..sels[i].end]);
    ReduceAdd(counts)
  }

  /** The selection count is the sum of the counts of the selected substrings. */
  lemma SelectionWordCountIsSum(text: string, sels: seq<Selection>)
    requires |sels| > 0 && AllWithin(sels, text)
    ensures SelectionWordCount(text, sels) == Sum(SelectionCounts(text, sels))
  {
    ReduceAddIsSum(SelectionCounts(text, sels));
  }

  lemma SelectionCountsAppend(text: string, a: seq<Selection>, b: seq<Selection>)
    requires AllWithin(a, text) && AllWithin(b, text)
    ensures AllWithin(a + b, text)
    ensures SelectionCounts(text, a + b) == SelectionCounts(text, a) + SelectionCounts(text, b)
  {
    var ab, ca, cb := SelectionCounts(text, a + b), SelectionCounts(text, a), SelectionCounts(text, b);
    forall i | 0 <= i < |ab|
      ensures ab[i] == (ca + cb)[i]
    {
      if i < |a| {
        assert (a + b)[i] == a[i];
      } else {
        assert (a + b)[i] == b[i - |a|];
      }
    }
  }

  /** Splitting the list of selections splits the count. */
  lemma SelectionWordCountAppend(text: string, a: seq<Selection>, b: seq<Selection>)
    requires |a| > 0 && |b| > 0 && AllWithin(a, text) && AllWithin(b, text)
    ensures AllWithin(a + b, text)
    ensures SelectionWordCount(text, a + b) == SelectionWordCount(text, a) + SelectionWordCount(text, b)
  {
    SelectionCountsAppend(text, a, b);
    SelectionWordCountIsSum(text, a + b);
    SelectionWordCountIsSum(text, a);
    SelectionWordCountIsSum(text, b);
    SumAppend(SelectionCounts(text, a), SelectionCounts(text, b));
  }

  /** One selection of the whole text counts what the document counts. */
  lemma WholeTextSelection(text: string)
    ensures AllWithin([Selection(0, |text|)], text)
    ensures SelectionWordCount(text, [Selection(0, |text|)]) == WordCount(text)
  {
    assert text[0..|text|] == text;
  }
}
