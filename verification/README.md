# BolderPlus core, modelled in Dafny

BolderPlus is a small desktop tool that bolds (or un-bolds) chosen words in a Google Docs
document, and that keeps a list of favourite documents. This project models two parts of
it and proves what they do:

- **`toggle_bold`** (`functions/google_docs.py`). It walks the document body. For every
  text run inside a paragraph, and for every word in the list, it finds each whole-word
  occurrence, optionally ignoring case. For each occurrence it builds one `updateTextStyle`
  request that sets only `bold`. The batch is submitted only when it is non-empty, and the
  function returns the number of requests.
- **The favourites map** (`functions/ui.py`). This is an insertion-ordered `name -> URL`
  dictionary. It has four operations:
  - add, which assigns one key;
  - remove, which deletes the selected key;
  - import, which reads `name|id` lines and turns each id into
    `https://docs.google.com/document/d/<id>/edit`;
  - edit, which rebuilds the dictionary so that the edited entry keeps its place.

Modules, one per file:

| module | file | contents |
|---|---|---|
| `Wrappers` | `wrappers.dfy` | `Option` |
| `Strings` | `strings.dfy` | the parts of Python's `str` the code uses: `lower`, `find`, `strip`, `split` on one character, `isalnum` |
| `WordScan` | `word_scan.dfy` | the scan of one text run for one word (lines 19-49), as a function and as a loop |
| `GoogleDocs` | `google_docs.dfy` | the document tree, the runs that take part, the hits in request order, the requests, and `ToggleBold` |
| `ToggleBoldProperties` | `toggle_bold_properties.dfy` | what the submitted batch satisfies |
| `ToggleBoldExamples` | `toggle_bold_examples.dfy` | worked instances under ASCII character classes |
| `OrderedMap` | `ordered_map.dfy` | Python `dict` semantics on a sequence of pairs: get, assignment, `del`, `update` |
| `Favorites` | `favorites.dfy` | `AddFavorite`, `RemoveFavorite`, `ImportFavorite`, `EditFavorite` |
| `FavoritesProperties` | `favorites_properties.dfy` | what those four promise |

Character classes are a parameter. Python's `str.lower` and `str.isalnum` are passed in as
a `CharClass`: a character mapping and a character predicate. Every property of
`toggle_bold` therefore holds for any such pair, given that lower-casing maps each
character to exactly one character. That assumption, and the one that the Docs API counts
indices in the same units as Python, are stated under "## Left out".

Side effects become values:
- the Docs service call `documents().get` is the `Document` argument;
- `batchUpdate` is the `submitted` field of the result, which is `None` when it is not called;
- `save_favorites` is the `saved` flag;
- an error message box, or an uncaught `KeyError`, is the `error` field. For a failed
  import this is the kind of failure (`TooManyFields`), because the message shows only
  the exception's text and names no line;
- a dialog's answer, the list-box selection and the lines of the chosen file are arguments.

Behaviour a reader might not expect, kept as the code has it:
- When a candidate fails the whole-word check, the code moves the cursor past the whole
  candidate (`start_index += len(normalized_word)`), not one character on.
  `WordScan.ScanMissesOnlyOverlapped` and `ToggleBoldExamples.RejectedCandidateHidesOverlap`
  show the effect: a whole-word occurrence that overlaps a rejected candidate is never
  reported.
- Only `bold` is ever written. No italic, underline or strikethrough field is set.
- Spans are non-overlapping only within one scan, meaning one run and one word. Words are
  scanned independently, so a word listed twice yields two identical requests
  (`ToggleBoldExamples.DuplicateWordTwice`).

## Model

| member | source | states |
|---|---|---|
| Strings.Lower | functions/google_docs.py:8 | `lower` keeps the length and maps character by character |
| Strings.FindSpec | functions/google_docs.py:22 | `find(word, start)` returns the least occurrence at or after `start`; -1 (None) means there is none |
| Strings.StripKeeps | functions/ui.py:81-82 | a non-whitespace character (such as `|`) is in the stripped line exactly when it is in the line |
| Strings.StripKeepsCount | functions/ui.py:81-82 | stripping leaves the number of each non-whitespace character (such as `|`) as it was |
| Strings.StripAround | functions/ui.py:81 | stripping `a + c + b` around a non-whitespace `c` takes only leading whitespace off `a` and only trailing whitespace off `b` |
| Strings.StripTrimmed | functions/ui.py:81 | removing some of the surrounding whitespace before `strip` does not change what `strip` gives |
| Strings.StripIdentity | functions/ui.py:81 | `strip` changes nothing exactly when there is no whitespace at either end |
| Strings.JoinSplit | functions/ui.py:83 | `split('|')` loses nothing: joining the pieces with `|` gives the string back |
| Strings.SplitPair | functions/ui.py:83 | a string with one `|` splits into exactly the two sides |
| WordScan.ScanSound | functions/google_docs.py:19-49 | every accepted start is an occurrence of the word, with no alphanumeric character just before or just after it; accepted starts are at least one word length apart, so they increase and do not overlap |
| WordScan.ScanRun | functions/google_docs.py:19-49 | the `while True` loop, cursor and all, accepts exactly the starts of the recursive scan |
| WordScan.ScannedIsWholeWord | functions/google_docs.py:26-32 | a start the scan reports is a whole-word occurrence |
| WordScan.ScanMissesOnlyOverlapped | functions/google_docs.py:29-32 | a whole-word occurrence the scan does not report overlaps an earlier occurrence of the word |
| WordScan.ScanExact | functions/google_docs.py:19-49 | when occurrences of the word cannot overlap, the scan reports exactly the whole-word occurrences |
| WordScan.RejectedCandidateSkipped | functions/google_docs.py:29-32 | after a rejected candidate at `i`, no start before `i + len(word)` is reported |
| GoogleDocs.ElementRunsSpec | functions/google_docs.py:13-15 | a paragraph contributes exactly its `textRun` elements that have `content` |
| GoogleDocs.RunsSpec | functions/google_docs.py:11-15 | exactly the text runs of paragraph elements are scanned; other structural elements add nothing |
| GoogleDocs.ElementRunsAppend | functions/google_docs.py:13 | the elements of a paragraph are visited once each, in order: the runs of `a + b` are those of `a` followed by those of `b` |
| GoogleDocs.ElementRunsOne | functions/google_docs.py:13-15 | one element yields the single run `r` exactly when it is a `textRun` whose `content` is `r`'s text at `r`'s start, and yields nothing otherwise |
| GoogleDocs.RunsAppend | functions/google_docs.py:11 | the body's structural elements are visited once each, first to last: the runs of `a + b` are those of `a` followed by those of `b` |
| GoogleDocs.RunsOne | functions/google_docs.py:11-13 | a paragraph yields the runs of its elements, and any other structural element yields none |
| GoogleDocs.WordHitsSpec | functions/google_docs.py:19-49 | the hits of one run and word are the scan's starts, left to right |
| GoogleDocs.RunHitsSpec | functions/google_docs.py:18-49 | the hits of one run are those of each word in list order |
| GoogleDocs.HitsFromSpec | functions/google_docs.py:11-49 | a hit is produced exactly when the scan of its run for its word reports it, and hits come run by run, then word by word, then left to right |
| GoogleDocs.Requests | functions/google_docs.py:36-48 | one request is built per hit |
| ToggleBoldProperties.HitRequestRange | functions/google_docs.py:35-41 | the `k`-th submitted range starts at the `k`-th hit's offset plus its run's start index and is as long as the hit's word |
| ToggleBoldProperties.SubmittedIsHit | functions/google_docs.py:34-47 | the `k`-th submitted request is the request for the `k`-th hit, and that hit is reported by its scan |
| ToggleBoldProperties.CountMatchesBatch | functions/google_docs.py:48-55 | the returned count is the number of requests; `batchUpdate` is called exactly when it is positive; an empty word list submits nothing |
| ToggleBoldProperties.SubmittedRangeInsideRun | functions/google_docs.py:11-15 | every range is as long as its word and lies inside a run that is a `textRun` with `content` in a paragraph of the body |
| ToggleBoldProperties.NormalizedMatch | functions/google_docs.py:8-22 | where the normalised word occurs in the normalised text, the raw text there equals the word, case-insensitively when `ignore_case` is set |
| ToggleBoldProperties.ReportedHitHoldsWholeWord | functions/google_docs.py:27-41 | the request for a reported hit covers its word as a whole word |
| ToggleBoldProperties.SubmittedHoldsWholeWord | functions/google_docs.py:16-41 | every submitted range covers its word in the run, compared case-insensitively or exactly, and the characters around it are not alphanumeric |
| ToggleBoldProperties.SubmittedSetsOnlyBold | functions/google_docs.py:42-45 | every request sets `bold` to the flag and names only `bold` in `fields` |
| ToggleBoldProperties.SubmittedOrder | functions/google_docs.py:11-49 | requests come run by run, then word by word; for one run and word they are left to right with no overlap |
| ToggleBoldProperties.ScannedStartIsHit | functions/google_docs.py:11-22 | every start a run's scan accepts becomes a hit |
| ToggleBoldProperties.ScannedStartIsSubmitted | functions/google_docs.py:34-53 | every start a run's scan accepts is submitted, as the range of its word at that place |
| ToggleBoldProperties.WholeWordOccurrenceIsSubmitted | functions/google_docs.py:19-53 | when a word's occurrences in a run cannot overlap, every whole-word occurrence is submitted |
| ToggleBoldExamples.WholeWordOnly | functions/google_docs.py:26-32 | in `cat cats`, only the first `cat` is a whole word |
| ToggleBoldExamples.RejectedCandidateHidesOverlap | functions/google_docs.py:29-32 | in `ba.a.a` the word `a.a` occurs as a whole word at 3, yet the scan reports nothing |
| ToggleBoldExamples.OneWholeWordRequest | functions/google_docs.py:34-55 | one run `cat cats` at index 1 gives one request, for range 1 to 4 |
| ToggleBoldExamples.WordAcrossRunsNotFound | functions/google_docs.py:11-15 | a word split over two runs is not found |
| ToggleBoldExamples.CaseFolding | functions/google_docs.py:8-16 | `cAT` matches `Cat` only when case is ignored |
| ToggleBoldExamples.DuplicateWordTwice | functions/google_docs.py:18 | a word listed twice gives two identical requests |
| OrderedMap.PutGet | functions/ui.py:55 | after `d[k] = v`, `k` maps to `v` and every other key is unchanged |
| OrderedMap.PutKeys | functions/ui.py:55 | after `d[k] = v`, a present key keeps its place and a new key goes last; keys stay distinct |
| OrderedMap.DeleteGet | functions/ui.py:64 | after `del d[k]`, `k` is gone and every other key is unchanged |
| OrderedMap.DeleteKeys | functions/ui.py:64 | after `del d[k]`, the other keys keep their order and stay distinct |
| OrderedMap.PutAllAppend | functions/ui.py:80-86 | assigning `s + t` in order is assigning `s`, then `t` |
| OrderedMap.PutAllFresh | functions/ui.py:113-118 | assigning distinct new keys appends them as they are |
| OrderedMap.PutAllGet | functions/ui.py:80-86 | after assigning a sequence, a key maps to its last value in it, or keeps its old value if the sequence does not mention it |
| OrderedMap.PutAllAbsent | functions/ui.py:80-86 | assigning entries that never mention a key leaves that key's value as it was |
| OrderedMap.PutAllLast | functions/ui.py:80-86 | the value at a key's last mention in the assigned sequence is the value the key ends with |
| OrderedMap.PutAllOneRepeat | functions/ui.py:113-118 | assigning a sequence whose only repeated key appears at `a` and later at `b` gives one entry for that key, at `a`, holding the value from `b` |
| FavoritesProperties.AddFavoriteSpec | functions/ui.py:53-58 | a confirmed add assigns `name -> url` and is saved; no other key changes; a new name goes last; a cancelled add changes nothing |
| FavoritesProperties.RemoveFavoriteSpec | functions/ui.py:61-66 | removing deletes only the selected key and is saved; the others keep their values and order; a missing key is a `KeyError`; no selection does nothing |
| FavoritesProperties.DocUrlRoundTrip | functions/ui.py:85 | the id is recovered from the URL built for it, and only such URLs yield one |
| FavoritesProperties.ParseLineCases | functions/ui.py:81-83 | a line without `|` is skipped; a line with exactly one `|` gives an entry whose fields are stripped and contain no `|`; a line with two or more fails to unpack |
| FavoritesProperties.ParseOnePipe | functions/ui.py:81-83 | a line `a|b`, where neither part contains `|`, is the entry whose name is `a` stripped and whose id is `b` stripped |
| FavoritesProperties.FormatThenParse | functions/ui.py:81-83 | a `name|id` line with clean fields parses back to those fields |
| FavoritesProperties.ParseThenFormat | functions/ui.py:81-83 | every entry line means the same as the `name|id` line of its fields |
| FavoritesProperties.ApplyIsReplay | functions/ui.py:80-90 | the import loop assigns the entries before the first malformed line, in file order; it is saved exactly when no line is malformed |
| FavoritesProperties.ImportIsReplay | functions/ui.py:78-91 | an import is `update` with the entry lines before the first malformed one; otherwise it reports the unpacking failure, keeps the earlier assignments and does not save |
| FavoritesProperties.ImportLaterLineWins | functions/ui.py:80-86 | a name takes the URL of its last applied line, or keeps its old value if no applied line names it |
| FavoritesProperties.ImportKeepsKeysDistinct | functions/ui.py:68-91 | an import never duplicates a key; no file chosen changes nothing |
| FavoritesProperties.ImportRoundTrip | functions/ui.py:80-87 | importing `name|id` lines written from distinct, clean pairs into an empty list gives exactly those names, in order, with their URLs |
| FavoritesProperties.RebuildIsReplay | functions/ui.py:113-118 | the rebuild loop is `update` with the entries, the edited one replaced by the new pair |
| FavoritesProperties.EditIsReplay | functions/ui.py:108-122 | a confirmed edit of a present name is that replay, and it is saved |
| FavoritesProperties.EditInPlace | functions/ui.py:108-122 | when the new name is the old one or is not taken, the new pair replaces the entry at its position; the length and every other entry are unchanged |
| FavoritesProperties.EditOntoEarlier | functions/ui.py:113-118 | when the new name is an earlier key, that entry keeps its place and takes the new URL; the edited entry goes, so the list is one shorter |
| FavoritesProperties.EditOntoLater | functions/ui.py:113-118 | when the new name is a later key, the merged entry sits at the edited position with the later entry's old URL; the new URL is dropped and the list is one shorter |
| FavoritesProperties.EditRejected | functions/ui.py:95-108 | no selection, a selected name that is not a key, or a cancelled or empty dialog leaves the map unchanged and unsaved |
| FavoritesProperties.EditKeepsKeysDistinct | functions/ui.py:108-122 | an edit never duplicates a key |

## Left out

- functions/auth.py, functions/updater.py and main.py: OAuth, token files, self-update and
  start-up wiring are outside this model.
- functions/favorites.py: loading and saving the JSON file. A save is the `saved` flag; a
  loaded map is any sequence with distinct keys.
- The Tk layer is not modelled:
  - dialog construction, plus the stripping and non-empty check in `open_favorite_dialog`
    (lines 28-36), whose results are arguments;
  - message boxes;
  - list refresh, and the reselection after an edit (lines 124-129).
- The Docs service is not modelled: the network, HTTP errors, the atomicity of
  `batchUpdate`, and documents changing between `get` and `batchUpdate`.
- Full Unicode is not modelled. `lower` and `isalnum` are abstract, and lower-casing is
  assumed to map one character to one character, independently of its neighbours.
  Python's `lower` can lengthen a string, which would shift the offsets. It is also not a
  per-character map even when it keeps the length: a capital sigma becomes `ς` or `σ`
  depending on the letters around it. The whitespace `strip` removes covers only its ASCII
  part.
- Index units are not modelled. The Docs API counts UTF-16 code units and Python counts
  code points. The model uses one index per character.
- GoogleDocs.ToggleBold: every word is required to be non-empty. With an empty word the
  source loops forever as soon as there is one text run with `content`, even empty
  content, because `find` keeps returning the cursor and the cursor never moves. When
  there is no such run it returns 0, and that case is excluded too.
- GoogleDocs.Document: every paragraph element is taken to have a `startIndex`. The
  source reads it only when it builds a request (line 39), so a missing `startIndex`
  raises `KeyError` only for an element in which some candidate passes the whole-word
  check.
- GoogleDocs.Document: every paragraph is taken to have an `elements` list, and the
  document a `body`. The source raises `KeyError` at line 13 for a paragraph without
  `elements`, and at line 11 for a document without `body` or a `body` without `content`.
- Favorites.ImportFavorite: the file is given as its lines, already split. Errors other
  than a line that does not unpack into two fields are not modelled. Those include
  failing to open or decode the file, and failing to save; `except Exception` would
  catch them too.
- WordScan.ScanExact: the exact characterisation assumes that occurrences of the word
  cannot overlap. Without that, `WordScan.ScanMissesOnlyOverlapped` is the bound proved.
