# Bible interlinear maker — a Dafny model of the parsing and alignment core

BibleInterlinearMakerChirho builds an interlinear Bible: a verse range is
read from two editions (an original-language text tagged with Strong's
concordance numbers and a tagged translation), each edition's raw text is cut
into verses, every verse is turned into tokens (runs of words followed by the
Strong's ids that describe them), and the two editions' tokens are aligned
through shared ids. This project models that core as pure Dafny functions and
proves what each step computes:

- `Strongs` — the marker pattern `<([GgHh](\d+)?)>` and
  `_parse_strongs_to_common_chirho`. A marker is normalised to an upper-case
  `G`/`H` followed by the canonical decimal form of its number. A marker with
  no digits is the `MalformedMarker` error, where Python's `int("")` raises.
  The error value carrying the marker belongs to the model: Python's
  `ValueError` names only the empty string `''`.
- `Text` — the Python string operations the core relies on:
  - `str.isspace`.
  - `strip()`, the only trimming the program calls. `LStrip` and `RStrip`
    are helpers of the model: `Strip` uses `RStrip`, and `Segmenter.Content`
    uses `LStrip` to read `\s+(.+)$`.
  - `split()` and `split('\n')`.
  - `" ".join`.
  - The `<`/`>` padding applied before lines are split.
- `Tokens` — `_parse_bible_str_tokens_chirho`, as a scan of the whitespace
  tokens followed by a fold over them.
- `Dicts` — an insertion-ordered dictionary with `defaultdict(str)`
  appending, as an association list without repeated keys.
- `Segmenter` — `_parse_bible_str_chirho`. It has a recogniser for the verse
  line pattern, with soundness and completeness lemmas, and states the
  version line pattern `^\(\w+\)$` as a predicate. Line classification
  follows the loop's branches. The loop itself is
  a fold, proved equal to a declarative reading: what each line contributes,
  under the key of the last header before it.
- `Aligner` — `_separate_chirho`. The consumable copy of the translated list
  is modelled as a sequence of positions into it. The loop is proved to make
  exactly the greedy choices. It emits one entry per match, covering the run
  of original tokens since the previous match. Leftover tokens become one
  untranslated entry.
- `Zipper` — `_parse_bible_str_dict_tokens_chirho`,
  `_zip_bible_dict_tokens_chirho`, and the composition of the whole pipeline
  from two raw texts. The program's `sys.exit(1)` on differing verse sets
  becomes the `KeyMismatch` error.

Behaviour of the program that the model keeps:

- A marker without digits makes the whole conversion fail. Python raises
  from inside the dictionary comprehension; the code does not reject just the
  offending token.
- Verse keys are the text of the first group of the verse-line pattern,
  such as `Genesis 1:1:`.
- A continuation line before any header is appended under the empty key.
- Unmatched translated tokens are dropped.

## Model

| member | source | states |
|---|---|---|
| Strongs.MatchMarker | bible_interlinear_maker_chirho.py:38 | the anchored prefix match of `<([GgHh](\d+)?)>`: when it succeeds the token starts with `<`, a letter from `GgHh`, digits and `>`, and the group is that text; when any such prefix exists the match succeeds with exactly it |
| Strongs.Decimal | bible_interlinear_maker_chirho.py:51 | `str(n)` is a canonical numeral (no leading zero unless it is `0`) whose value is `n` |
| Strongs.DecimalOfCanonical | bible_interlinear_maker_chirho.py:51 | `str(int(ds))` gives back `ds` when `ds` is already canonical |
| Strongs.Normalise | bible_interlinear_maker_chirho.py:49-51 | fails exactly when the marker has no digits, with an error value that names the marker (the model's choice; Python's `ValueError` names only `''`); otherwise the result is a canonical id whose letter is the upper-cased marker letter and whose number has the marker's value |
| Strongs.CanonicalIsFixed | bible_interlinear_maker_chirho.py:49-51 | a canonical id is a valid marker and normalises to itself |
| Strongs.NormaliseIdempotent | bible_interlinear_maker_chirho.py:49-51 | normalising a normalised id changes nothing |
| Strongs.NormaliseAgrees | bible_interlinear_maker_chirho.py:49-51 | two markers normalise to the same id exactly when their letters agree up to case and their numbers have the same value |
| Strongs.NormaliseExamples | bible_interlinear_maker_chirho.py:49-51 | `g7`, `G07` and `g007` all give `G7`; `G` alone is an error |
| Text.Strip | bible_interlinear_maker_chirho.py:108 | `strip()` returns the middle of the line with only whitespace cut from both ends; it is empty exactly when the line is all whitespace |
| Text.Split | bible_interlinear_maker_chirho.py:60 | `split()` returns non-empty pieces without whitespace |
| Text.SplitGaps | bible_interlinear_maker_chirho.py:60 | every text is its `split()` pieces woven between runs of whitespace (empty only at the two ends), so `split()` cuts at whitespace and nowhere else |
| Text.SplitWoven | bible_interlinear_maker_chirho.py:60 | whitespace-free words woven between whitespace gaps of any width split back into exactly those words: the pieces are the maximal non-whitespace runs |
| Text.SplitKeepsText | bible_interlinear_maker_chirho.py:60 | the pieces of `split()`, concatenated, are the text with its whitespace removed |
| Text.SplitJoin | bible_interlinear_maker_chirho.py:60 | splitting words joined by single spaces gives back the words |
| Text.Pad | bible_interlinear_maker_chirho.py:105 | after the two `replace` calls every `<` has a space before it and every `>` a space after it |
| Text.PadRoundTrip | bible_interlinear_maker_chirho.py:105 | the padding loses nothing: removing the inserted spaces gives back the raw text |
| Text.SplitLines | bible_interlinear_maker_chirho.py:105 | `split('\n')` gives at least one line, no line holds a newline, and joining the lines with newlines gives back the text |
| Text.SplitLinesJoin | bible_interlinear_maker_chirho.py:105 | splitting newline-free lines joined by newlines gives back the lines |
| Tokens.ScanOne | bible_interlinear_maker_chirho.py:65-84 | a token that does not start with a marker is a word; one that does is that marker's normalised id, or the malformed-marker error when the marker has no digits |
| Tokens.Scan | bible_interlinear_maker_chirho.py:62-84 | scans every whitespace token in order; on failure the error is that of the first failing token |
| Tokens.Fold | bible_interlinear_maker_chirho.py:62-84 | the loop loses and repeats no word or id: the built tokens' words followed by the pending words are the words read, their ids are the ids read, every built token has an id, and only the first can lack words |
| Tokens.StepKeeps | bible_interlinear_maker_chirho.py:65-84 | one iteration adds exactly the word or id it reads and keeps the shape of the tokens built so far |
| Tokens.Group | bible_interlinear_maker_chirho.py:62-90 | after the trailing words are flushed, the tokens hold exactly the words and ids read; reading each token back as its words followed by its ids gives the pieces in order; only the last token can lack ids, only the first can lack words, and no input gives no tokens |
| Tokens.GroupIsOnly | bible_interlinear_maker_chirho.py:62-90 | a token list is the grouping of the pieces exactly when it is well shaped and reads back to them, so each run of words is attached to the markers that follow it and to no others |
| Tokens.ExtractSpec | bible_interlinear_maker_chirho.py:53-90 | the tokens' words are the non-marker whitespace tokens of the verse in order; there is one id per marker token, each the normalisation of that marker in order; reading the tokens back gives, one for one, the reading of each whitespace token; only the last token can lack ids; only the first can lack words; an empty verse gives no tokens |
| Tokens.ExtractIsOnly | bible_interlinear_maker_chirho.py:53-90 | extraction gives a token list exactly when that list is well shaped and reads back, piece by piece, to the readings of the verse's whitespace tokens |
| Tokens.ExtractFails | bible_interlinear_maker_chirho.py:65-81 | extraction fails exactly when some whitespace token is a marker without digits, and the error names the first such marker |
| Tokens.ExtractPlainText | bible_interlinear_maker_chirho.py:85-89 | a verse without markers gives one token holding all its words and no ids |
| Tokens.GroupLeadingMarker | bible_interlinear_maker_chirho.py:66-72 | a marker before any word opens a token without words, and later words start a new group |
| Tokens.GroupMarkerRun | bible_interlinear_maker_chirho.py:73-89 | consecutive markers all describe the group just closed, and trailing words form a token without ids |
| Dicts.Get | bible_interlinear_maker_chirho.py:120 | a lookup finds a value exactly when the key is present, and that value is stored under the key |
| Dicts.Append | bible_interlinear_maker_chirho.py:120 | `d[k] += v` keeps keys distinct and adds `k` at the end only when it is new |
| Dicts.AppendGet | bible_interlinear_maker_chirho.py:120 | after `d[k] += v` the value of `k` is its old value (or `""`) followed by `v`, and every other key keeps its value |
| Segmenter.Chapter | bible_interlinear_maker_chirho.py:36 | a book-and-chapter part `((\w|\s)+)\s(\d+):` it reports is one: word characters or spaces, one whitespace, digits, a colon |
| Segmenter.ChapterComplete | bible_interlinear_maker_chirho.py:36 | wherever a line has a book-and-chapter part, the recogniser finds exactly that one, so it is the only possible one |
| Segmenter.Verse | bible_interlinear_maker_chirho.py:36 | a verse-number part `(\d+):` it reports follows the chapter's colon directly with digits |
| Segmenter.VerseComplete | bible_interlinear_maker_chirho.py:36 | wherever a verse-number part follows the chapter, the recogniser finds exactly that one |
| Segmenter.Content | bible_interlinear_maker_chirho.py:36 | the group 6 it reports is a tail of `\s+(.+)$` after the key: whitespace before it and a non-empty text that starts with whitespace only when it is the last character |
| Segmenter.ContentComplete | bible_interlinear_maker_chirho.py:36 | every group 6 the pattern allows after the key is the one the recogniser reports |
| Segmenter.HeaderPartsComplete | bible_interlinear_maker_chirho.py:36 | when chapter, verse number and the whitespace after the key are all present, the header's parts are found at exactly those positions |
| Segmenter.MatchHeaderSound | bible_interlinear_maker_chirho.py:114-117 | when the recogniser accepts a line, the line matches the verse pattern with that key as group 1 and that content as group 6 |
| Segmenter.MatchHeaderComplete | bible_interlinear_maker_chirho.py:114-117 | every match of the verse pattern is found by the recogniser, with the same groups |
| Segmenter.Classify | bible_interlinear_maker_chirho.py:107-119 | a line is skipped exactly when it is blank or its stripped text is a version label; a header's key and content are the groups of a verse-pattern match; otherwise the line contributes its non-empty stripped text |
| Segmenter.ClassifyContinuation | bible_interlinear_maker_chirho.py:108-119 | a line continues the current verse exactly when it is not blank, not a version label, and does not match the verse pattern |
| Segmenter.CollectSpec | bible_interlinear_maker_chirho.py:120 | appending the pieces one after another gives each key the concatenation of its pieces' contents, holds exactly the keys that occur, and orders them by first occurrence |
| Segmenter.RunIsCollect | bible_interlinear_maker_chirho.py:104-120 | the loop's dictionary is the collection of each line's contribution under the key of the last header before it, and its final key is that of the last header |
| Segmenter.SegmentSpec | bible_interlinear_maker_chirho.py:99-122 | for the whole raw text: each key's value is the separator-free concatenation of its contents in line order, the keys are exactly those that receive content, and they appear in first-seen order |
| Segmenter.SegmentKeys | bible_interlinear_maker_chirho.py:114-120 | every key is a group 1 of the verse pattern, or the empty key of lines before any header |
| Segmenter.HeaderExample | bible_interlinear_maker_chirho.py:114-117 | `Genesis 1:1: In the beginning` is a header with key `Genesis 1:1:` and content `In the beginning` |
| Segmenter.VersionExample | bible_interlinear_maker_chirho.py:111-113 | a ` (KJV) ` line is skipped |
| Segmenter.ContinuationExample | bible_interlinear_maker_chirho.py:118-119 | a line without a verse key contributes its stripped text |
| Aligner.FirstMatch | bible_interlinear_maker_chirho.py:135-142 | the inner loop finds the first pool token sharing an id with the original token, and no earlier pool token shares one |
| Aligner.FirstMatchIsGreedy | bible_interlinear_maker_chirho.py:135-145 | over a pool that holds exactly the untaken translated tokens in order, the first match is the lowest-numbered untaken translated token sharing an id, or none when there is no such token |
| Aligner.GreedyIsAlign | bible_interlinear_maker_chirho.py:124-147 | the choices the loop makes are exactly the greedy ones: each original token takes the lowest-numbered untaken translated token sharing an id with it |
| Aligner.TakenOnce | bible_interlinear_maker_chirho.py:126-145 | no translated token is taken twice, and the untaken tokens stay in the pool in their original relative order |
| Aligner.SeparateSpec | bible_interlinear_maker_chirho.py:124-152 | one entry per matched original token, covering the tokens since the previous match and carrying the taken translated token's words, then one untranslated entry for the tokens after the last match when there are any |
| Aligner.SeparateRuns | bible_interlinear_maker_chirho.py:124-152 | the `k`-th entry's original text is the texts of the `k`-th run of original tokens (those after the previous match up to the `k`-th match) joined by spaces, and its translation is the words of the translated token that match took; the entry after them holds the leftover tokens' texts and no translation |
| Aligner.RunsCover | bible_interlinear_maker_chirho.py:130-151 | the runs of the entries followed by the leftover tokens are exactly the original tokens in order |
| Aligner.SeparateSize | bible_interlinear_maker_chirho.py:124-152 | there are at most as many entries as original tokens, and none exactly when there are no original tokens |
| Aligner.NoIdsNoMatch | bible_interlinear_maker_chirho.py:135-142 | an original token without ids never takes a translated token |
| Aligner.EmptyTranslation | bible_interlinear_maker_chirho.py:148-151 | with no translated tokens, the original tokens form one untranslated entry |
| Aligner.Untagged | bible_interlinear_maker_chirho.py:148-151 | original tokens without ids form one untranslated entry, whatever the translation |
| Aligner.UntaggedExample | bible_interlinear_maker_chirho.py:124-152 | `In`, `the`, `beginning` without ids give one entry `In the beginning` with no translation |
| Aligner.PairExample | bible_interlinear_maker_chirho.py:124-152 | `created` H1254 against `creó` H1254 gives one entry pairing them |
| Aligner.ConsumedExample | bible_interlinear_maker_chirho.py:138-147 | two original tokens tagged H430 and one translated token tagged H430: the first takes it, the second is left untranslated |
| Zipper.ExtractAll | bible_interlinear_maker_chirho.py:92-97 | every verse is tokenised under the same key, in the same order; a failure is a malformed marker |
| Zipper.ExtractAllFails | bible_interlinear_maker_chirho.py:92-97 | tokenising the verses fails exactly when some verse fails, with the error of the first failing verse in key order |
| Zipper.Zip | bible_interlinear_maker_chirho.py:154-176 | fails with `KeyMismatch` exactly when the two key sets differ; otherwise keeps both names and the original's key order, and gives each verse the original tokens, the translation's text and the alignment, using the translation's tokens under the same key |
| Zipper.ZipGet | bible_interlinear_maker_chirho.py:168-174 | looking a key up in the result finds a verse exactly when the original has the key, built from both editions' tokens under that key |
| Zipper.Interlinearize | bible_interlinear_maker_chirho.py:178-188 | succeeds exactly when both editions tokenise and segment to the same key set, keyed then as the segmented original with both names kept; a bad marker in the original is reported first, then one in the translation; it gives `KeyMismatch` exactly when both editions tokenise and their key sets differ |
| Zipper.InterlinearizeVerses | bible_interlinear_maker_chirho.py:183-188 | on success the `i`-th verse is the original's `i`-th key paired with that verse's tokens and the tokens of the translation's text under the same key |
| Zipper.MismatchExample | bible_interlinear_maker_chirho.py:162-166 | an original with Genesis 1:1 and 1:2 against a translation with only Genesis 1:1 gives `KeyMismatch` |
| Zipper.ReorderedExample | bible_interlinear_maker_chirho.py:168-174 | the verses follow the original's order and are paired by key, whatever the translation's order |

## Left out

- Fetching the raw text through the `diatheke` subprocess (lines 178-182): the raw strings are parameters of `Zipper.Interlinearize`.
- The command-line parser and `main_chirho` (lines 12-24, 250-281): process glue. `sys.exit(1)` and the message printed before it become the `KeyMismatch` result.
- The Jinja2 environment and template rendering (lines 27-32, 271-276): they call a foreign library.
- `_verse_dict_chirho` and `get_translation_dict_chirho` (lines 191-247): presentation only, with CSS column classes chosen by floating-point division.
- Segmenter.Chapter: `\w` is ASCII letters, digits and `_`, and `\d` is the ASCII digits. Python matches Unicode letters and digits there, so a book name or number in another script is not recognised as a key here.
- Strongs.Normalise: `int` is applied only to ASCII digits, so Unicode decimal digits in a marker are not modelled.
- Segmenter.MatchHeaderComplete: in `HeaderMatch` the pattern's `.` matches any character and `$` only the end of the line. Python's `.` does not match `\n`, and its `$` also matches before a final `\n`. So the model agrees with the pattern only on lines without `\n`. Every line the loop sees comes from `split('\n')` and has none.
- Segmenter.IsVersionLabel: `\w` is ASCII letters, digits and `_`. Python's `\w` also matches Unicode letters, so a label such as `(Библия)` is skipped by the program but is a continuation line here.
- Strongs.MatchMarker: `\d` is the ASCII digits. Python's `\d` also matches other Unicode decimal digits, such as `<H٤٣٠>`, which the program would then read with `int`.
- Aligner.Separate: the caller's translated list is not mutated because Dafny sequences are values. The pool is a sequence of positions into the list rather than a copy of its tokens.
- The words of translated tokens left in the pool after the alignment are dropped, as in the code; no property claims them.
