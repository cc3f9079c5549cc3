/** The program itself: read the clipboard, stop if there is nothing on it,
    otherwise report the word and character counts. */
module ClipCount {
  import opened Text

  /** What `get_contents()` gives back: the clipboard text, or a failure. */
  datatype ClipboardRead = Contents(text: string) | ReadFailed

  /** What the program reports. */
  datatype Report =
    | NothingOnClipboard
    | Counts(wordCount: nat, characterCount: nat)

  /** A failed read counts as an empty clipboard. */
  function TextOf(read: ClipboardRead): (text: string)
    ensures read.Contents? ==> text == read.text
    ensures read.ReadFailed? ==> text == []
    ensures text == [] <==> read.ReadFailed? || read.text == []
  {
    match read
    case Contents(text) => text
    case ReadFailed => ""
  }

  /** One run of the program on the result of reading the clipboard. */
  function Run(read: ClipboardRead): (r: Report)
    ensures read.ReadFailed? ==> r == NothingOnClipboard
    ensures r == NothingOnClipboard <==> read.ReadFailed? || read.text == []
    ensures r.Counts? ==> r.wordCount == |SplitWhitespace(read.text)|
    ensures r.Counts? ==> r.characterCount == |read.text| >= 1
    ensures r.Counts? ==> 2 * r.wordCount <= r.characterCount + 1
  {
    var text := TextOf(read);
    if text == [] then NothingOnClipboard
    else
      WordCountBound(text);
      Counts(WordCount(text), CharCount(text))
  }

  /** A clipboard holding whitespace alone still gets counts: no words, and
      every whitespace character counted as a character. */
  lemma WhitespaceOnlyReport(text: string)
    requires AllWhitespace(text) && text != []
    ensures Run(Contents(text)) == Counts(0, |text|)
  {
    WhitespaceOnlyCounts(text);
  }
}
