/**
 * The status-bar labels. Both forms carry the `$(pencil) ` icon prefix, and
 * in both the choice between "Word" and "Words" is made by the word count of
 * the whole document, never by the count of the selection.
 */
module Labels {
  import opened Numerals

  const Pencil: string := "$(pencil) "

  /**
   * The label when nothing is selected: "$(pencil) n Words", or the literal
   * "$(pencil) 1 Word". Both are the numeral followed by "Word" and an "s"
   * exactly when the count is not 1.
   */
  function DocLabel(n: nat): (caption: string)
    ensures caption == Pencil + Decimal(n) + " Word" + PluralS(n)
    ensures EndsWith(caption, "Words") <==> n != 1
  {
    assert n == 1 ==> Decimal(n) == "1";
    if n != 1 then Pencil + Decimal(n) + " Words" else "$(pencil) 1 Word"
  }

  /** The label for a selection: "$(pencil) s of d Word(s)", plural unless d is 1. */
  function SelectionLabel(s: nat, d: nat): (caption: string)
    ensures caption == Pencil + Decimal(s) + " of " + Decimal(d) + " Word" + PluralS(d)
    ensures EndsWith(caption, "Words") <==> d != 1
  {
    if d != 1 then Pencil + Decimal(s) + " of " + Decimal(d) + " Words"
    else Pencil + Decimal(s) + " of " + Decimal(d) + " Word"
  }

  predicate EndsWith(s: string, suffix: string) {
    |suffix| <= |s| && s[|s| - |suffix|..] == suffix
  }

  lemma CommonPrefix(p: string, x: string, y: string)
    requires p + x == p + y
    ensures x == y
  {
    assert x == (p + x)[|p|..];
    assert y == (p + y)[|p|..];
  }

  /** Position of the first space in t, or |t| when there is none. */
  function SpaceIndex(t: string): nat {
    if t == [] || t[0] == ' ' then 0 else 1 + SpaceIndex(t[1..])
  }

  lemma {:induction false} SpaceIndexAfter(a: string, x: string)
    requires ' ' !in a
    ensures SpaceIndex(a + " " + x) == |a|
  {
    if a != [] {
      assert a[0] in a;
      assert (a + " " + x)[1..] == a[1..] + " " + x;
      SpaceIndexAfter(a[1..], x);
    }
  }

  /** Two texts that each run up to their first space agree on that part and on what follows it. */
  lemma FirstSpace(a1: string, x1: string, a2: string, x2: string)
    requires ' ' !in a1 && ' ' !in a2
    requires a1 + " " + x1 == a2 + " " + x2
    ensures a1 == a2 && x1 == x2
  {
    var t := a1 + " " + x1;
    SpaceIndexAfter(a1, x1);
    SpaceIndexAfter(a2, x2);
    assert a1 == t[..|a1|] == a2;
    assert x1 == t[|a1| + 1..] == x2;
  }

  /** The label shown for a document determines its word count. */
  lemma DocLabelInjective(a: nat, b: nat)
    requires DocLabel(a) == DocLabel(b)
    ensures a == b
  {
    var tail1, tail2 := "Word" + PluralS(a), "Word" + PluralS(b);
    RegroupWord(Pencil, Decimal(a), PluralS(a));
    RegroupWord(Pencil, Decimal(b), PluralS(b));
    CommonPrefix(Pencil, Decimal(a) + " " + tail1, Decimal(b) + " " + tail2);
    DecimalHasNoSpace(a);
    DecimalHasNoSpace(b);
    FirstSpace(Decimal(a), tail1, Decimal(b), tail2);
    DecimalInjective(a, b);
  }

  lemma RegroupWord(p: string, x: string, e: string)
    ensures p + x + " Word" + e == p + (x + " " + ("Word" + e))
  {
    assert " Word" == " " + "Word";
  }

  function PluralS(n: nat): string {
    if n == 1 then "" else "s"
  }

  /** The selection label cut at its two spaces that follow the numerals. */
  lemma SelectionLabelParts(s: nat, d: nat)
    ensures SelectionLabel(s, d)
      == Pencil + (Decimal(s) + " " + ("of " + (Decimal(d) + " " + ("Word" + PluralS(d)))))
  {
    var ending := if d != 1 then " Words" else " Word";
    assert ending == " " + ("Word" + PluralS(d));
    assert SelectionLabel(s, d) == Pencil + Decimal(s) + " of " + Decimal(d) + ending;
    Regroup(Pencil, Decimal(s), Decimal(d), "Word" + PluralS(d));
  }

  lemma Regroup(p: string, x: string, y: string, w: string)
    ensures p + x + " of " + y + (" " + w) == p + (x + " " + ("of " + (y + " " + w)))
  {
    assert " of " == " " + "of ";
    assert p + x + " of " + y + (" " + w) == p + (x + (" of " + (y + (" " + w))));
    assert " of " + (y + (" " + w)) == " " + ("of " + (y + " " + w));
  }

  /** The label shown for a selection determines both the selection count and the document count. */
  lemma SelectionLabelInjective(s1: nat, d1: nat, s2: nat, d2: nat)
    requires SelectionLabel(s1, d1) == SelectionLabel(s2, d2)
    ensures s1 == s2 && d1 == d2
  {
    var tail1 := Decimal(d1) + " " + ("Word" + PluralS(d1));
    var tail2 := Decimal(d2) + " " + ("Word" + PluralS(d2));
    SelectionLabelParts(s1, d1);
    SelectionLabelParts(s2, d2);
    CommonPrefix(Pencil, Decimal(s1) + " " + ("of " + tail1), Decimal(s2) + " " + ("of " + tail2));
    DecimalHasNoSpace(s1);
    DecimalHasNoSpace(s2);
    FirstSpace(Decimal(s1), "of " + tail1, Decimal(s2), "of " + tail2);
    DecimalInjective(s1, s2);
    CommonPrefix("of ", tail1, tail2);
    DecimalHasNoSpace(d1);
    DecimalHasNoSpace(d2);
    FirstSpace(Decimal(d1), "Word" + PluralS(d1), Decimal(d2), "Word" + PluralS(d2));
    DecimalInjective(d1, d2);
  }
}
