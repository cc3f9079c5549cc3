# clipcount, modelled in Dafny

clipcount is a one-shot command-line tool. It reads the text on the system
clipboard, prints "Nothing on the clipboard" when there is none, and
otherwise prints a word count and a character count. This project models
that counting and proves its properties.

- `text.dfy`, module `Text`. A text is a `string`, that is, a sequence of
  Unicode scalar values. Whitespace is the Unicode White_Space property
  (`IsWhitespace`, 25 code points), which is what `char::is_whitespace`
  tests.
  - The word count follows `split_whitespace().count()` as the Rust standard
    library defines it. `Split` cuts the text at every whitespace character.
    It is a left-to-right scan (`SplitFrom`) that grows the current piece
    until a whitespace character closes it. `NonEmptyPieces` drops the empty
    pieces. `WordCount` is the number of pieces left.
  - `RunCount` is an independent definition: the number of maximal runs of
    non-whitespace characters. The two are proved equal.
  - `CountWords` is a one-pass scan with an "inside a word" flag. It is
    proved to give the same count.
  - The character count follows `chars().count()`: one per scalar value.
- `clipcount.dfy`, module `ClipCount`. One run of `main`:
  - a failed clipboard read becomes the empty text;
  - an empty text gives `NothingOnClipboard`;
  - any other text gives `Counts(wordCount, characterCount)`.

The program counts words and characters only:
- it counts no lines;
- a character is a scalar value, not a grapheme cluster;
- a word is a maximal run of non-whitespace characters, not a UAX #29 word
  segment, so punctuation stays attached to its word.

## Model

| member | source | states |
|---|---|---|
| ClipCount.Run | src/main.rs:9-22 | A failed read gives the "nothing on the clipboard" outcome. The outcome is "nothing" exactly when the read failed or the text is empty. Otherwise the word count is the number of whitespace-separated words, the character count is the text's length and at least 1, and 2·words ≤ characters + 1. |
| ClipCount.TextOf | src/main.rs:9-12 | A successful read gives the clipboard text unchanged, and a failed read gives the empty text. The text is empty exactly when the read failed or the clipboard held the empty string. |
| ClipCount.WhitespaceOnlyReport | src/main.rs:15-22 | A non-empty clipboard of whitespace alone is counted, with 0 words and its full length as the character count. |
| Text.IsWhitespace | src/main.rs:21 | A character is whitespace exactly when it is one of the 25 code points of the Unicode White_Space property, listed in `WhiteSpace`. |
| Text.WordCount | src/main.rs:21 | The word count equals `RunCount`, the number of maximal runs of non-whitespace characters. It is 0 exactly when the text is all whitespace. 2·words ≤ length + 1. |
| Text.CharCount | src/main.rs:22 | Every character is counted once, either as a whitespace character or inside exactly one word: the count is the number of whitespace characters plus the total length of the words. |
| Text.NonEmptyPiecesTotalLength | src/main.rs:21 | Dropping the empty pieces loses no characters: the total length is unchanged. |
| Text.SplitFrom | src/main.rs:21 | While scanning, with a piece already started: one more piece than there are whitespace characters left to read. No piece holds whitespace. The pieces' total length plus the whitespace characters left to read equals the started piece plus the text left to read. |
| Text.Split | src/main.rs:21 | Splitting at every whitespace character gives one more piece than there are whitespace characters. No piece holds whitespace. The pieces' lengths plus the separators add up to the text's length. |
| Text.NonEmptyPieces | src/main.rs:21 | Every piece kept is non-empty and is one of the given pieces. It keeps no more pieces than it was given, and no more than their total length. |
| Text.SplitWhitespace | src/main.rs:21 | Every word is non-empty and holds no whitespace. |
| Text.SplitAcrossSeparator | src/main.rs:21 | Splitting `a + [w] + b` at a whitespace character `w` gives the pieces of `a` followed by the pieces of `b`. |
| Text.WordsAcrossSeparator | src/main.rs:21 | For a whitespace character `w`, the words of `a + [w] + b` are the words of `a` followed by those of `b`. |
| Text.WordCountAcrossSeparator | src/main.rs:21 | For a whitespace character `w`, the word count of `a + [w] + b` is the word count of `a` plus that of `b`. |
| Text.LeadingWhitespace | src/main.rs:21 | Whitespace in front of a text adds no words. |
| Text.TrailingWhitespace | src/main.rs:21 | Whitespace after a text adds no words. |
| Text.SurroundingWhitespace | src/main.rs:21 | Whitespace on both sides of a text leaves its words unchanged. |
| Text.NoWordsIffAllWhitespace | src/main.rs:21 | `split_whitespace` yields no word if and only if every character is whitespace. |
| Text.WhitespaceOnlyCounts | src/main.rs:21-22 | A whitespace-only text has 0 words. Its character count equals its number of whitespace characters, which is its length. |
| Text.CollapseWhitespaceRun | src/main.rs:21 | Replacing a non-empty run of whitespace by one space leaves the words and the word count unchanged. |
| Text.WordCountBound | src/main.rs:21-22 | 2·words ≤ characters + 1, so words ≤ characters. |
| Text.CharCountAppend | src/main.rs:22 | The character count of a concatenation is the sum of the character counts. |
| Text.SplitLastPiece | src/main.rs:21 | Appending a non-whitespace character adds it to the end of the last piece. |
| Text.LastPieceEmpty | src/main.rs:21 | The last piece is empty exactly when the text is empty or ends in whitespace. |
| Text.WordCountSnoc | src/main.rs:21 | Appending a character to a text adds one word exactly when it starts a new run of non-whitespace characters, and none otherwise. |
| Text.WordCountIsRunCount | src/main.rs:21 | The number of words `split_whitespace` yields equals the number of maximal runs of non-whitespace characters. |
| Text.CountWords | src/main.rs:21 | A left-to-right scan with an in-word flag returns the word count. |
| Text.SingleWord | src/main.rs:21 | A non-empty text without whitespace is exactly one word, the text itself. |
| Text.SplitJoinWords | src/main.rs:21 | Join non-empty, whitespace-free words with single spaces, then split the result: you get the same words back. |
| Text.NormalizeSpacing | src/main.rs:21 | Re-spacing a text's words with single spaces keeps its words and its word count. |

## Left out

- Clipboard access (`ClipboardProvider::new`, `get_contents`) is platform I/O through a foreign crate. It becomes the datatype `ClipboardRead`, either the text or `ReadFailed`, which `Run` takes as its argument.
- The panic from `unwrap()` on a failed clipboard provider is not modelled: it is a failure of the foreign library.
- Printing (`println!`) is not modelled. The model returns the `Report` value that would be printed.
- UTF-8 storage is not modelled. The text is a sequence of scalar values, which is the level `chars()` works at. `str::is_empty` on bytes matches an empty scalar sequence.
