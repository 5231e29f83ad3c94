/**
 * The string steps the word counter applies to a text: JavaScript's `\s`
 * class, the whitespace collapse `replace(/\s+/g, ' ')`, the two trims
 * that replace the patterns `^\s\s*` and `\s\s*$` by nothing, and `split(" ")`.
 * Beside them, `Words`: the maximal non-whitespace runs of a text, the
 * reference the counter is proved against.
 */
module TextSteps {

  /**
   * The ECMAScript WhiteSpace and LineTerminator code points, one by one:
   * tab, line tabulation, form feed, space, no-break space, the byte order
   * mark, the Unicode space separators, line feed, carriage return, and the
   * line and paragraph separators.
   */
  const WsTable: set<char> := {
    '\t', '\U{000B}', '\U{000C}', ' ', '\U{00A0}', '\U{FEFF}',
    '\U{1680}', '\U{2000}', '\U{2001}', '\U{2002}', '\U{2003}', '\U{2004}', '\U{2005}',
    '\U{2006}', '\U{2007}', '\U{2008}', '\U{2009}', '\U{200A}', '\U{202F}', '\U{205F}', '\U{3000}',
    '\n', '\r', '\U{2028}', '\U{2029}'
  }

  /** JavaScript's `\s`, tested with one range for U+2000 to U+200A. */
  function IsWs(c: char): (b: bool)
    ensures b <==> c in WsTable
  {
    c == ' ' || c == '\t' || c == '\n' || c == '\r' || c == '\U{000B}' || c == '\U{000C}'
    || c == '\U{00A0}' || c == '\U{1680}' || ('\U{2000}' <= c <= '\U{200A}')
    || c == '\U{2028}' || c == '\U{2029}' || c == '\U{202F}' || c == '\U{205F}'
    || c == '\U{3000}' || c == '\U{FEFF}'
  }

  predicate AllWs(s: string) {
    forall i :: 0 <= i < |s| ==> IsWs(s[i])
  }

  predicate NoWs(s: string) {
    forall i :: 0 <= i < |s| ==> !IsWs(s[i])
  }

  /** Length of the leading whitespace run. */
  function WsLen(s: string): (n: nat)
    ensures n <= |s| && AllWs(s[..n])
    ensures n == |s| || !IsWs(s[n])
  {
    if s != [] && IsWs(s[0]) then 1 + WsLen(s[1..]) else 0
  }

  /** Drops the leading whitespace run; this is also the trim of the pattern `^\s\s*`. */
  function DropWs(s: string): (r: string)
    ensures |r| <= |s| && (r == [] || !IsWs(r[0]))
  {
    s[WsLen(s)..]
  }

  /** Length of the leading non-whitespace run. */
  function WordLen(s: string): (n: nat)
    ensures n <= |s| && NoWs(s[..n])
    ensures n == |s| || IsWs(s[n])
  {
    if s != [] && !IsWs(s[0]) then 1 + WordLen(s[1..]) else 0
  }

  /** The words of s: its maximal non-whitespace runs, in order. */
  function Words(s: string): (ws: seq<string>)
    ensures forall i :: 0 <= i < |ws| ==> ws[i] != [] && NoWs(ws[i])
    decreases |s|
  {
    var u := DropWs(s);
    if u == [] then []
    else
      var n := WordLen(u);
      [u[..n]] + Words(u[n..])
  }

  /** `replace(/\s+/g, ' ')`: every whitespace run becomes a single space. */
  function CollapseWs(s: string): (r: string)
    ensures |r| <= |s|
    ensures r == [] <==> s == []
    ensures s != [] && !IsWs(s[0]) ==> r[0] == s[0]
    ensures s != [] && IsWs(s[0]) ==> r[0] == ' '
    decreases |s|
  {
    if s == [] then []
    else if IsWs(s[0]) then " " + CollapseWs(DropWs(s))
    else [s[0]] + CollapseWs(s[1..])
  }

  /** The trim of the pattern `\s\s*$`: drops the trailing whitespace run. */
  function TrimEnd(s: string): (r: string)
    ensures |r| <= |s| && r == s[..|r|]
    ensures AllWs(s[|r|..])
    ensures r == [] || !IsWs(r[|r| - 1])
  {
    if s != [] && IsWs(s[|s| - 1]) then
      var r := TrimEnd(s[..|s| - 1]);
      assert s[|r|..] == s[..|s| - 1][|r|..] + [s[|s| - 1]];
      r
    else
      s
  }

  /** `split(sep)` with a one-character separator: the pieces between separators, at least one. */
  function Split(s: string, sep: char): (parts: seq<string>)
    ensures |parts| >= 1
    ensures forall i :: 0 <= i < |parts| ==> sep !in parts[i]
  {
    if s == [] then [[]]
    else
      var rest := Split(s[1..], sep);
      if s[0] == sep then [[]] + rest else [[s[0]] + rest[0]] + rest[1..]
  }

  /** The pieces glued back with one separator between neighbours. */
  function Join(parts: seq<string>, sep: char): string {
    if |parts| == 0 then []
    else if |parts| == 1 then parts[0]
    else parts[0] + [sep] + Join(parts[1..], sep)
  }

  // ---------------------------------------------------------------------
  // split and join are inverse to each other

  lemma {:induction false} JoinSplit(s: string, sep: char)
    ensures Join(Split(s, sep), sep) == s
  {
    if s != [] {
      JoinSplit(s[1..], sep);
      var rest := Split(s[1..], sep);
      if s[0] == sep {
        assert ([[]] + rest)[1..] == rest;
      } else if |rest| > 1 {
        assert ([[s[0]] + rest[0]] + rest[1..])[1..] == rest[1..];
        assert Join(rest, sep) == rest[0] + [sep] + Join(rest[1..], sep);
      }
    }
  }

  lemma {:induction false} SplitPrefix(w: string, x: string, sep: char)
    requires sep !in w
    ensures Split(w + x, sep) == [w + Split(x, sep)[0]] + Split(x, sep)[1..]
  {
    if w != [] {
      var sx := Split(x, sep);
      assert (w + x)[1..] == w[1..] + x;
      assert w[0] in w;
      SplitPrefix(w[1..], x, sep);
      var rest := Split(w[1..] + x, sep);
      assert rest == [w[1..] + sx[0]] + sx[1..];
      assert Split(w + x, sep) == [[w[0]] + rest[0]] + rest[1..];
      assert [w[0]] + rest[0] == w + sx[0];
      assert rest[1..] == sx[1..];
    } else {
      assert w + x == x;
      assert w + Split(x, sep)[0] == Split(x, sep)[0];
      assert Split(x, sep) == [Split(x, sep)[0]] + Split(x, sep)[1..];
    }
  }

  lemma {:induction false} SplitJoin(parts: seq<string>, sep: char)
    requires |parts| >= 1
    requires forall i :: 0 <= i < |parts| ==> sep !in parts[i]
    ensures Split(Join(parts, sep), sep) == parts
  {
    if |parts| == 1 {
      SplitPrefix(parts[0], [], sep);
      assert parts[0] + [] == parts[0];
      assert Split([], sep) == [[]];
      assert parts == [parts[0]];
    } else {
      var w, x := parts[0], Join(parts[1..], sep);
      SplitJoin(parts[1..], sep);
      assert w + [sep] + x == w + ([sep] + x);
      SplitPrefix(w, [sep] + x, sep);
      assert ([sep] + x)[1..] == x;
      assert Split([sep] + x, sep) == [[]] + parts[1..];
      assert Join(parts, sep) == w + ([sep] + x);
      assert w + [] == w;
      assert parts == [w] + parts[1..];
    }
  }

  lemma JoinNonEmpty(parts: seq<string>, sep: char)
    requires |parts| >= 1 && parts[0] != []
    ensures Join(parts, sep) != []
  {
  }

  // ---------------------------------------------------------------------
  // how the steps act on the pieces of a text

  lemma NoLeadingWsDrop(s: string)
    requires s == [] || !IsWs(s[0])
    ensures DropWs(s) == s
  {
  }

  lemma {:induction false} DropWsPrefix(w: string, s: string)
    requires AllWs(w)
    ensures DropWs(w + s) == DropWs(s)
  {
    if w != [] {
      assert (w + s)[1..] == w[1..] + s;
      DropWsPrefix(w[1..], s);
    } else {
      assert w + s == s;
    }
  }

  lemma {:induction false} CollapseWord(w: string, x: string)
    requires NoWs(w)
    ensures CollapseWs(w + x) == w + CollapseWs(x)
  {
    if w != [] {
      assert (w + x)[1..] == w[1..] + x;
      CollapseWord(w[1..], x);
    } else {
      assert w + x == x;
    }
  }

  lemma {:induction false} TrimEndAppend(a: string, b: string)
    requires b != [] && !IsWs(b[0])
    ensures TrimEnd(a + b) == a + TrimEnd(b)
    decreases |b|
  {
    if IsWs(b[|b| - 1]) {
      var b' := b[..|b| - 1];
      assert (a + b)[..|a + b| - 1] == a + b';
      TrimEndAppend(a, b');
    }
  }

  /** The collapse step followed by both trims yields the words joined by single spaces. */
  lemma {:induction false} NormalizedIsJoinedWords(s: string)
    ensures TrimEnd(DropWs(CollapseWs(s))) == Join(Words(s), ' ')
  {
    var u := DropWs(s);
    NoLeadingWsDrop(CollapseWs(u));
    if s != [] && IsWs(s[0]) {
      assert CollapseWs(s) == " " + CollapseWs(u);
      DropWsPrefix(" ", CollapseWs(u));
    } else {
      NoLeadingWsDrop(s);
    }
    assert DropWs(CollapseWs(s)) == CollapseWs(u);
    NoLeadingWsDrop(u);
    assert Words(s) == Words(u);
    CollapsedTrimmed(u);
  }

  lemma {:induction false} WordLenOfWord(w: string, r: string)
    requires NoWs(w)
    requires r == [] || IsWs(r[0])
    ensures WordLen(w + r) == |w|
  {
    if w != [] {
      assert (w + r)[1..] == w[1..] + r;
      WordLenOfWord(w[1..], r);
    } else {
      assert w + r == r;
    }
  }

  /** A word followed by whitespace or nothing: that word, then the words of the rest. */
  lemma WordsCons(w: string, r: string)
    requires w != [] && NoWs(w)
    requires r == [] || IsWs(r[0])
    ensures Words(w + r) == [w] + Words(r)
  {
    var u := w + r;
    NoLeadingWsDrop(u);
    WordLenOfWord(w, r);
    assert u[..|w|] == w && u[|w|..] == r;
  }

  /** A text that starts with whitespace has the words of the text after that run. */
  lemma WordsAfterWs(r: string)
    requires r != [] && IsWs(r[0])
    ensures Words(r) == Words(DropWs(r))
  {
    NoLeadingWsDrop(DropWs(r));
  }

  lemma CollapseWsLead(r: string)
    requires r != [] && IsWs(r[0])
    ensures CollapseWs(r) == " " + CollapseWs(DropWs(r))
  {
  }

  lemma JoinCons(w: string, ws: seq<string>, sep: char)
    requires ws != []
    ensures Join([w] + ws, sep) == w + [sep] + Join(ws, sep)
  {
    assert ([w] + ws)[1..] == ws;
  }

  lemma {:induction false} CollapsedTrimmed(u: string)
    requires u == [] || !IsWs(u[0])
    ensures TrimEnd(CollapseWs(u)) == Join(Words(u), ' ')
    decreases |u|
  {
    if u != [] {
      var n := WordLen(u);
      var w, r := u[..n], u[n..];
      assert u == w + r;
      if r == [] {
        assert u == w;
        LastWordCollapsed(w);
      } else {
        var v := DropWs(r);
        if v == [] {
          TrailingWsCollapsed(w, r);
        } else {
          CollapsedTrimmed(v);
          InnerWordCollapsed(w, r);
        }
      }
    }
  }

  /** The text is one word. */
  lemma LastWordCollapsed(w: string)
    requires w != [] && NoWs(w)
    ensures TrimEnd(CollapseWs(w)) == Join(Words(w), ' ')
  {
    CollapseWord(w, []);
    WordsCons(w, []);
    assert w + [] == w;
    assert Words([]) == [];
  }

  /** The text is one word followed by whitespace only. */
  lemma TrailingWsCollapsed(w: string, r: string)
    requires w != [] && NoWs(w)
    requires r != [] && IsWs(r[0]) && DropWs(r) == []
    ensures TrimEnd(CollapseWs(w + r)) == Join(Words(w + r), ' ')
  {
    CollapseWord(w, r);
    CollapseWsLead(r);
    assert CollapseWs(w + r) == w + " ";
    WordsCons(w, r);
    WordsAfterWs(r);
    assert Words(w + r) == [w];
    assert (w + " ")[..|w|] == w;
  }

  /** The text is a word, whitespace, then more text that starts with a word. */
  lemma InnerWordCollapsed(w: string, r: string)
    requires w != [] && NoWs(w)
    requires r != [] && IsWs(r[0]) && DropWs(r) != []
    requires TrimEnd(CollapseWs(DropWs(r))) == Join(Words(DropWs(r)), ' ')
    ensures TrimEnd(CollapseWs(w + r)) == Join(Words(w + r), ' ')
  {
    InnerWordTrim(w, r);
    InnerWordJoin(w, r);
  }

  lemma InnerWordTrim(w: string, r: string)
    requires NoWs(w)
    requires r != [] && IsWs(r[0]) && DropWs(r) != []
    ensures TrimEnd(CollapseWs(w + r)) == (w + " ") + TrimEnd(CollapseWs(DropWs(r)))
  {
    CollapseWord(w, r);
    CollapseWsLead(r);
    SpaceThenTrim(w, CollapseWs(DropWs(r)));
  }

  lemma SpaceThenTrim(a: string, b: string)
    requires b != [] && !IsWs(b[0])
    ensures TrimEnd(a + (" " + b)) == (a + " ") + TrimEnd(b)
  {
    assert a + (" " + b) == (a + " ") + b;
    TrimEndAppend(a + " ", b);
  }

  lemma InnerWordJoin(w: string, r: string)
    requires w != [] && NoWs(w)
    requires r != [] && IsWs(r[0]) && DropWs(r) != []
    ensures Join(Words(w + r), ' ') == (w + " ") + Join(Words(DropWs(r)), ' ')
  {
    var v := DropWs(r);
    WordsCons(w, r);
    WordsAfterWs(r);
    NonEmptyHasWord(v);
    JoinCons(w, Words(v), ' ');
  }

  lemma NonEmptyHasWord(v: string)
    requires v != [] && !IsWs(v[0])
    ensures Words(v) != []
  {
    NoLeadingWsDrop(v);
  }

  /** No word contains a space, so joining and splitting at spaces recovers the words. */
  lemma SplitJoinedWords(s: string)
    ensures var ws := Words(s);
      ws != [] ==> Split(Join(ws, ' '), ' ') == ws
  {
    var ws := Words(s);
    assert IsWs(' ');
    if ws != [] {
      SplitJoin(ws, ' ');
    }
  }

  /**
   * After the collapse and both trims, the text is empty exactly when there
   * are no words, and otherwise `split(" ")` yields one piece per word.
   */
  lemma SplitCountsWords(s: string)
    ensures var n := TrimEnd(DropWs(CollapseWs(s)));
      (n == [] <==> Words(s) == []) && (n != [] ==> |Split(n, ' ')| == |Words(s)|)
  {
    NormalizedIsJoinedWords(s);
    SplitJoinedWords(s);
    if Words(s) != [] {
      JoinNonEmpty(Words(s), ' ');
    }
  }

  // ---------------------------------------------------------------------
  // what the words of a text do not depend on

  /** A text has no words exactly when it is all whitespace (the empty text included). */
  lemma WordsBlank(s: string)
    ensures Words(s) == [] <==> AllWs(s)
  {
    var n := WsLen(s);
    if n == |s| {
      assert s[..n] == s;
    }
  }

  lemma WordsDropWs(s: string)
    ensures Words(s) == Words(DropWs(s))
  {
    if s != [] && IsWs(s[0]) {
      WordsAfterWs(s);
    } else {
      NoLeadingWsDrop(s);
    }
  }

  /** Leading whitespace does not change the words. */
  lemma WordsLeadingWs(w: string, s: string)
    requires AllWs(w)
    ensures Words(w + s) == Words(s)
  {
    DropWsPrefix(w, s);
    WordsDropWs(w + s);
    WordsDropWs(s);
  }

  lemma {:induction false} WsLenAppend(s: string, x: string)
    requires WsLen(s) < |s|
    ensures WsLen(s + x) == WsLen(s)
    decreases |s|
  {
    if IsWs(s[0]) {
      assert (s + x)[1..] == s[1..] + x;
      WsLenAppend(s[1..], x);
    }
  }

  /** Trailing whitespace does not change the words. */
  lemma {:induction false} WordsTrailingWs(s: string, w: string)
    requires AllWs(w)
    ensures Words(s + w) == Words(s)
    decreases |s|, 1
  {
    WordsBlank(s);
    if AllWs(s) {
      assert AllWs(s + w);
      WordsBlank(s + w);
    } else {
      var u := DropWs(s);
      DropWsAppend(s, w);
      WordsDropWs(s + w);
      WordsDropWs(s);
      WordStartTrailingWs(u, w);
    }
  }

  lemma DropWsAppend(s: string, x: string)
    requires !AllWs(s)
    ensures DropWs(s) != [] && DropWs(s + x) == DropWs(s) + x
  {
    assert s[..|s|] == s;
    assert WsLen(s) < |s|;
    WsLenAppend(s, x);
  }

  lemma {:induction false} WordStartTrailingWs(u: string, w: string)
    requires AllWs(w)
    requires u != [] && !IsWs(u[0])
    ensures Words(u + w) == Words(u)
    decreases |u|, 0
  {
    var n := WordLen(u);
    var r := u[n..];
    assert u == u[..n] + r;
    if r == [] {
      WordsCons(u, w);
      WordsCons(u, []);
      assert u + [] == u;
      WordsBlank(w);
      WordsBlank([]);
    } else {
      assert u + w == u[..n] + (r + w);
      WordsCons(u[..n], r + w);
      WordsCons(u[..n], r);
      WordsTrailingWs(r, w);
    }
  }

  /** Each word takes a character and each gap between words another one. */
  lemma {:induction false} WordsBound(s: string)
    ensures 2 * |Words(s)| <= |s| + 1
    decreases |s|
  {
    var u := DropWs(s);
    if u != [] {
      var n := WordLen(u);
      var r := u[n..];
      assert u == u[..n] + r;
      WordsCons(u[..n], r);
      WordsDropWs(s);
      if r != [] {
        WordsDropWs(r);
        WordsBound(DropWs(r));
      }
    }
  }

  lemma {:induction false} CollapseIdempotent(s: string)
    ensures CollapseWs(CollapseWs(s)) == CollapseWs(s)
    decreases |s|
  {
    if s != [] {
      if IsWs(s[0]) {
        var x := CollapseWs(DropWs(s));
        NoLeadingWsDrop(DropWs(s));
        NoLeadingWsDrop(x);
        CollapseWsLead(" " + x);
        DropWsPrefix(" ", x);
        CollapseIdempotent(DropWs(s));
      } else {
        CollapseWord([s[0]], CollapseWs(s[1..]));
        CollapseIdempotent(s[1..]);
      }
    }
  }

  /** Two texts with the same joined words have the same words. */
  lemma JoinedWordsInjective(s: string, t: string)
    requires Join(Words(s), ' ') == Join(Words(t), ' ')
    ensures Words(s) == Words(t)
  {
    SplitJoinedWords(s);
    SplitJoinedWords(t);
    if Words(s) != [] {
      JoinNonEmpty(Words(s), ' ');
    }
    if Words(t) != [] {
      JoinNonEmpty(Words(t), ' ');
    }
  }

  /** Replacing every whitespace run by one space does not change the words. */
  lemma WordsOfCollapsed(s: string)
    ensures Words(CollapseWs(s)) == Words(s)
  {
    NormalizedIsJoinedWords(CollapseWs(s));
    CollapseIdempotent(s);
    NormalizedIsJoinedWords(s);
    JoinedWordsInjective(CollapseWs(s), s);
  }

  /** The collapse step adds only spaces. */
  lemma {:induction false} CollapseKeepsOut(s: string, c: char)
    requires c != ' ' && c !in s
    ensures c !in CollapseWs(s)
    decreases |s|
  {
    if s != [] {
      if IsWs(s[0]) {
        var d := DropWs(s);
        assert forall i :: 0 <= i < |d| ==> d[i] == s[WsLen(s) + i];
        CollapseKeepsOut(d, c);
      } else {
        assert forall i :: 0 <= i < |s| - 1 ==> s[1..][i] == s[i + 1];
        CollapseKeepsOut(s[1..], c);
      }
    }
  }
}
