/**
 * The word counter's status item and the controller that drives it. The
 * item is created on the first update; after that every update either shows
 * it with a freshly computed label (markdown documents) or hides it and
 * leaves its text as it was (no editor, or another language).
 */
module Extension {
  import opened Wrappers
  import opened TextSteps
  import opened TagStrip
  import opened Counting
  import opened Labels

  /** The active text editor, as far as the counter looks at it. */
  datatype Editor = Editor(languageId: string, text: string)

  /** The item is shown only for an active editor whose language is markdown. */
  function IsMarkdown(editor: Option<Editor>): (shown: bool)
    ensures editor.None? ==> !shown
    ensures shown ==> editor.value.languageId == "markdown"
  {
    editor.Some? && editor.value.languageId == "markdown"
  }

  /** The host only hands over selections that lie inside the active document. */
  predicate SelectionsFit(editor: Option<Editor>, selections: Option<seq<Selection>>) {
    editor.Some? && selections.Some? ==> AllWithin(selections.value, editor.value.text)
  }

  /** `selections.every(s => s.isEmpty)`, which holds for an empty list too. */
  function AllEmpty(sels: seq<Selection>): (b: bool)
    ensures sels == [] ==> b
    ensures !b ==> |sels| > 0 && exists i :: 0 <= i < |sels| && sels[i].start != sels[i].end
  {
    forall i :: 0 <= i < |sels| ==> sels[i].IsEmpty()
  }

  /**
   * The label an update puts on the item for a markdown document: the
   * selection label when there are selections, the document label otherwise.
   * Either way it is plural exactly when the document count is not 1.
   */
  function StatusText(docText: string, selections: Option<seq<Selection>>): (caption: string)
    requires selections.Some? ==> AllWithin(selections.value, docText)
    ensures |Pencil| <= |caption| && caption[..|Pencil|] == Pencil
    ensures EndsWith(caption, "Words") <==> WordCount(docText) != 1
  {
    if selections.Some? && |selections.value| > 0 then
      SelectionLabel(SelectionWordCount(docText, selections.value), WordCount(docText))
    else
      DocLabel(WordCount(docText))
  }

  /** Without a selection the label is "$(pencil) 1 Word" exactly when the document has one word. */
  lemma StatusTextSingular(docText: string)
    ensures StatusText(docText, None) == "$(pencil) 1 Word" <==> WordCount(docText) == 1
    ensures WordCount(docText) != 1 ==>
      StatusText(docText, None) == Pencil + Numerals.Decimal(WordCount(docText)) + " Words"
  {
    assert !EndsWith("$(pencil) 1 Word", "Words");
  }

  /** The status item and the word counter that owns it. */
  class WordCounter {
    /** `_statusBarItem` has been created. */
    var created: bool
    /** The item is shown rather than hidden. */
    var visible: bool
    /** The item's text. */
    var text: string
    /** The item has been disposed of. */
    var disposed: bool

    /** An item that does not exist yet is neither shown nor labelled nor disposed. */
    ghost predicate Valid()
      reads this
    {
      !created ==> !visible && text == [] && !disposed
    }

    constructor ()
      ensures Valid() && !created
    {
      created, visible, text, disposed := false, false, [], false;
    }

    /** `updateWordCount(selections?)`. */
    method UpdateWordCount(editor: Option<Editor>, selections: Option<seq<Selection>>)
      requires Valid() && SelectionsFit(editor, selections)
      modifies this
      ensures Valid() && created && disposed == old(disposed)
      ensures visible <==> IsMarkdown(editor)
      ensures text == if IsMarkdown(editor) then StatusText(editor.value.text, selections) else old(text)
    {
      if !created {
        created, visible, text := true, false, [];
      }
      if editor.None? {
        visible := false;
        return;
      }
      var doc := editor.value;
      if doc.languageId == "markdown" {
        var statusBarItemText: string;
        if selections.Some? && |selections.value| > 0 {
          var wordCount := SelectionWordCount(doc.text, selections.value);
          var docWordCount := GetWordCountForDoc(doc.text);
          statusBarItemText := SelectionLabel(wordCount, docWordCount);
        } else {
          var wordCount := GetWordCountForDoc(doc.text);
          statusBarItemText := DocLabel(wordCount);
        }
        text := statusBarItemText;
        visible := true;
      } else {
        visible := false;
      }
    }

    /** `_getWordCountForDoc`: the count of the whole document text. */
    method GetWordCountForDoc(docText: string) returns (n: nat)
      ensures n == WordCount(docText)
    {
      n := CountWords(docText);
    }

    /**
     * `countWords`: strip the tag fragments, collapse whitespace runs, trim
     * both ends, and count the pieces between spaces (none for an empty text).
     */
    method CountWords(input: string) returns (wordCount: nat)
      ensures wordCount == |Words(StripTags(input))|
    {
      var t := CollapseWs(StripTags(input));
      t := TrimEnd(DropWs(t));
      wordCount := 0;
      if t != [] {
        wordCount := |Split(t, ' ')|;
      }
      SplitCountsWords(StripTags(input));
    }

    /** `dispose`: fails, as the source's call on an undefined item does, when the item was never created. */
    method Dispose() returns (ok: bool)
      requires Valid()
      modifies this
      ensures Valid()
      ensures ok == old(created)
      ensures created == old(created) && text == old(text)
      ensures disposed == (old(disposed) || ok)
      ensures visible == (old(visible) && !ok)
    {
      ok := created;
      if ok {
        visible, disposed := false, true;
      }
    }
  }

  /** Forwards the editor's events to the word counter. */
  class WordCounterController {
    const wordCounter: WordCounter

    /** Takes the counter and updates it once for the editor that is active at start-up. */
    constructor (wordCounter: WordCounter, editor: Option<Editor>)
      requires wordCounter.Valid()
      modifies wordCounter
      ensures this.wordCounter == wordCounter
      ensures wordCounter.Valid() && wordCounter.created && wordCounter.disposed == old(wordCounter.disposed)
      ensures wordCounter.visible <==> IsMarkdown(editor)
      ensures wordCounter.text == if IsMarkdown(editor) then StatusText(editor.value.text, None)
                                  else old(wordCounter.text)
    {
      this.wordCounter := wordCounter;
      new;
      wordCounter.UpdateWordCount(editor, None);
    }

    /** `_onEvent`: the active editor changed; recount the whole document. */
    method OnEvent(editor: Option<Editor>)
      requires wordCounter.Valid()
      modifies wordCounter
      ensures wordCounter.Valid() && wordCounter.created && wordCounter.disposed == old(wordCounter.disposed)
      ensures wordCounter.visible <==> IsMarkdown(editor)
      ensures wordCounter.text == if IsMarkdown(editor) then StatusText(editor.value.text, None)
                                  else old(wordCounter.text)
    {
      wordCounter.UpdateWordCount(editor, None);
    }

    /**
     * `_onSelectionEvent`: when every selection is empty (or there is none)
     * this is the plain whole-document update; otherwise the selections are
     * counted.
     */
    method OnSelectionEvent(editor: Option<Editor>, selections: seq<Selection>)
      requires wordCounter.Valid()
      requires editor.Some? ==> AllWithin(selections, editor.value.text)
      modifies wordCounter
      ensures wordCounter.Valid() && wordCounter.created && wordCounter.disposed == old(wordCounter.disposed)
      ensures wordCounter.visible <==> IsMarkdown(editor)
      ensures AllEmpty(selections) ==>
                wordCounter.text == (if IsMarkdown(editor) then StatusText(editor.value.text, None)
                                     else old(wordCounter.text))
      ensures !AllEmpty(selections) ==>
                wordCounter.text == (if IsMarkdown(editor) then StatusText(editor.value.text, Some(selections))
                                     else old(wordCounter.text))
    {
      if AllEmpty(selections) {
        wordCounter.UpdateWordCount(editor, None);
      } else {
        wordCounter.UpdateWordCount(editor, Some(selections));
      }
    }
  }
}
