# tagger core in Dafny

A Dafny model of the core of `tagger`, a command-line tool that tags a
Last.fm user's albums with genres and descriptors looked up on Rate Your
Music (RYM). The model covers:

- how the free-text genre and descriptor fields of a lookup are split and
  cleaned into Last.fm-safe tags (`clean_tags` and the list handling of
  `get_tags`);
- how an album title is normalised for the fallback lookup
  (`clean_album_title`);
- the per-album decisions of the run controller: the skip-offset gate, the
  already-tagged check on the `auto-tagged` marker tag, the lookup with one
  retry on the cleaned title, and the writes of `tag_album`.

Both services are outside the model. The RYM lookup is a function
parameter `string -> Option<RymAlbum>`: `None` is a missing entry, and a
field that is absent is `None` inside the record. Each album's remote tags
are a `set<string>` of tag names. The mutation calls a run makes are
recorded as a sequence of `Write` values, so "no mutation" is an equation
and not a comment.

Files:

- `wrappers.dfy` holds `Option`.
- `text.dfy` models the Python string operations the core relies on:
  - `str.strip()` with Python's whitespace set;
  - `str.lower()` on ASCII letters;
  - `str.replace` for a term and for a single character;
  - the `[^…]` character filter;
  - `re.split(r'\n|,', …)`.
- `sanitizer.dfy` models `clean_tags` and `clean_album_title`. The latter's
  regular expression is modelled as a left-to-right scanner.
- `controller.dfy` models `get_tags`, `tag_album`, `already_tagged` and the
  main loop.
- `sanitizer_examples.dfy` and `controller_examples.dfy` derive the worked
  inputs from the general lemmas.

`clean_tags` (main.py:99) replaces `&` with `n` and keeps the spaces around
it, so `"Rock & Roll"` becomes `"Rock n Roll"`
(`Sanitizer.CleanTagsRockAndRoll`).

The skip option is modelled as written: an album at 0-based index `i` is
processed only when `i + 1 >= skip`. So `--skip N` leaves the first `N - 1`
albums untouched, and `--skip 0` and `--skip 1` both process every album.

## Model

| member | source | states |
|---|---|---|
| Text.Strip | main.py:99 | the result starts and ends with non-whitespace; every character of it comes from the input; every non-whitespace character of the input survives; an already-trimmed string is left as it is (that only the ends are removed is `Text.StripBounds`) |
| Text.StripBounds | main.py:91 | stripping removes only whitespace at the two ends: the result is the slice `s[i..j]`, and every character before `i` and from `j` on is whitespace |
| Text.Lower | main.py:88 | lower-casing keeps the length, leaves no capital letter, keeps every non-capital character, and moves each capital letter to its lower-case partner |
| Text.LowerOfLowerCase | main.py:88 | lower-casing a lower-case title again changes nothing, which is why the repeated `lower()` in the loop is harmless |
| Text.RemoveAll | main.py:88 | `replace(term, "")` never lengthens the title and never introduces a character |
| Text.RemoveAllSkipPrefix | main.py:88 | the scan keeps, unchanged, a prefix at none of whose positions an occurrence begins: the leftmost occurrence is the first one deleted |
| Text.RemoveAllAtHead | main.py:88 | an occurrence at the head is deleted and the scan resumes after it, so occurrences never overlap |
| Text.RemoveAllAbsent | main.py:88 | deleting a term that does not occur leaves the title unchanged |
| Text.RemoveAllChar | main.py:87-88 | deleting a one-character term such as `-` or `&` leaves no copy of that character |
| Text.RemoveAllOnce | main.py:88 | a single occurrence, after text without the term's first letter and before text missing one of its letters, is the only thing deleted |
| Text.RemoveAllMissingChar | main.py:88 | a term with a letter the title lacks does not match, so the title is unchanged |
| Text.Filter | main.py:99 | `re.sub(r"[^0-9A-Za-z -]+", "", …)`: a character is in the result exactly when it is in the input and allowed; a single character is kept or dropped on its own (with `Text.FilterAppend` this fixes the result) |
| Text.FilterAppend | main.py:99 | the filter works character by character, keeping order and multiplicity: filtering a concatenation concatenates the filtered parts |
| Text.FilterAllKept | main.py:99 | an item made only of allowed characters passes the filter whole |
| Text.ReplaceChar | main.py:99 | `replace("&", "n")`: same length, no `&` left, and every other position unchanged |
| Text.ReplaceCharChars | main.py:99 | the replacement keeps every other character, puts `n` in wherever there was an `&`, and brings in no character but `n` |
| Text.SplitFields | main.py:22 | `re.split(r'\n|,', …)` gives one more piece than there are separators, and no piece holds a separator or a foreign character |
| Text.SplitJoin | main.py:22 | splitting loses nothing: joining the pieces with commas rebuilds the field, with newlines read as commas |
| Text.SplitFieldsCons | main.py:22 | a separator-free piece followed by a separator splits off as its own first piece |
| Text.SplitFieldsNone | main.py:22 | a field without separators is one piece, itself |
| Sanitizer.CleanTag | main.py:99 | each cleaned item is a valid tag, with allowed characters only and trimmed; an `&` in the item yields an `n`; no character appears that was not in the item, except that `n`; every allowed non-space character of the item is kept; the result is never longer than the item |
| Sanitizer.CleanTagSlice | main.py:99 | the cleaned item is a contiguous slice of the `&`-replaced, filtered item, and only plain spaces lie outside it |
| Sanitizer.CleanTagOfTagChars | main.py:99 | an item with only allowed characters is just stripped |
| Sanitizer.CleanTagOfTag | main.py:97-99 | a string that already is a valid tag is its own clean form |
| Sanitizer.CleanTagIdempotent | main.py:99 | cleaning a cleaned item changes nothing |
| Sanitizer.CleanTags | main.py:94-101 | exactly one output per input item, in order, each the cleaned item and each a valid tag, with no deduplication and no dropping of empty results |
| Sanitizer.CleanTagsIdempotent | main.py:94-101 | `clean_tags(clean_tags(x)) == clean_tags(x)` |
| Sanitizer.CleanTagsAppend | main.py:22-30 | cleaning the genres and descriptors separately and concatenating is cleaning the concatenation |
| Sanitizer.CleanTagReplacesAmpersand | main.py:99 | the ampersand is replaced and not deleted: an item that becomes a valid tag once `&` reads as `n` is cleaned to exactly that |
| Sanitizer.CleanTagsRockAndRoll | main.py:94-101 | `clean_tags(["Rock & Roll"]) == ["Rock n Roll"]` |
| Sanitizer.StripTerms | main.py:86-88 | after the term loop the title is lower-case, holds only characters of the lower-cased input, and holds none of the one-character terms |
| Sanitizer.StripTermsAppend | main.py:86-88 | the term loop is a fold: running it over two lists of terms in turn runs it over their concatenation |
| Sanitizer.StripTermsSkip | main.py:88 | a term with a letter the title lacks only lower-cases the title |
| Sanitizer.StripTermsRemoveOnce | main.py:88 | a term occurring once is deleted, and the loop goes on with the remaining terms |
| Sanitizer.StripTermsNoneApply | main.py:86-88 | a lower-case title that lacks some letter of every term leaves the loop unchanged |
| Sanitizer.CloserFrom | main.py:91 | the lazy `.*?[)\]]` finds the first closing bracket before any newline, and finds nothing exactly when no closing bracket precedes the first newline |
| Sanitizer.RemoveBrackets | main.py:91 | deleting bracketed text never lengthens the title and never introduces a character |
| Sanitizer.RemoveBracketsSkip | main.py:91 | text without an opening bracket passes through unchanged |
| Sanitizer.RemoveBracketsDropSpan | main.py:91 | a bracket, text with no newline or closing bracket, and a closing bracket are deleted together, and scanning resumes after them |
| Sanitizer.RemoveBracketsKeepOpener | main.py:91 | an opener with no closer before the next newline is kept and scanning resumes at the next character |
| Sanitizer.RemoveBracketsNoSpan | main.py:91 | no match of `[(\[].*?[)\]]` is left in the result |
| Sanitizer.RemoveBracketsUnchanged | main.py:91 | a title with no match is left unchanged |
| Sanitizer.RemoveBracketsIdempotent | main.py:91 | removing bracketed text twice is removing it once |
| Sanitizer.CleanAlbumTitle | main.py:85-91 | the cleaned title is lower-case and trimmed, has no `-` or `&`, and holds only characters of the lower-cased title |
| Sanitizer.CleanAlbumTitleNoSpan | main.py:85-91 | the cleaned title contains no bracketed span |
| SanitizerExamples.CleanAlbumTitleDeluxe | main.py:85-91 | `clean_album_title("Album (Deluxe Edition) [Remastered]") == "album"` |
| SanitizerExamples.RemoveAllLeftmost | main.py:88 | `"eep".replace("ep", "") == "e"` |
| SanitizerExamples.RemoveAllNoOverlap | main.py:88 | `"aaa".replace("aa", "") == "a"` |
| SanitizerExamples.RemoveBracketsUnclosedOpener | main.py:91 | the pattern turns `"(a\n(b)"` into `"(a\n"`: the first opener has no closer on its line |
| Controller.ComputeTags | main.py:14-32 | the lookup succeeds exactly when there is a match with genres, and with descriptors when those are used. The tags are the cleaned genre pieces followed by the cleaned descriptor pieces. Their number is one more than the genre separators, plus one more than the descriptor separators when descriptors are used. Every tag is valid |
| ControllerExamples.CleanTagsCommaSpace | main.py:22 | a field `"a, b"` of two plain tags is cleaned to `[a, b]`: the space after the comma is stripped |
| ControllerExamples.ComputeTagsTwoFields | main.py:22-30 | genres `"g0, g1"` and descriptors `"d0, d1"` give `[g0, g1, d0, d1]`, genres first; without descriptors they give `[g0, g1]` |
| ControllerExamples.ComputeTagsRockPop | main.py:22-30 | genres `"Rock, Pop"` with descriptors `"Melodic, Energetic"` give `["Rock", "Pop", "Melodic", "Energetic"]` |
| Controller.Query | main.py:19 | the query is the artist, `" - "`, then the title, and both can be read back from their positions |
| Controller.TagWrites | main.py:35-44 | a dry run makes no write at all. Otherwise there is one write per enabled step, and the writes are, in order: remove the current tags (exactly when removal is on), add the marker (exactly when the marker is on), and last, add the computed tags. The album ends with the kept old tags, the marker if added, and the computed tags |
| Controller.AlreadyTagged | main.py:54-61 | only with skipping on can an album count as tagged; an album carrying the marker tag itself counts; counting needs a tag at least as long as the marker's name (both directions of the substring test: `AlreadyTaggedContains` and `AlreadyTaggedOnlyIfContains`) |
| Controller.AlreadyTaggedOnlyIfContains | main.py:57-59 | converse of the substring test: an album counts as tagged only if skipping is on and some tag has the form before + `auto-tagged` + after |
| Controller.AlreadyTaggedContains | main.py:58 | the test is a substring test: any tag that contains `auto-tagged` counts |
| Controller.AlreadyTaggedNeedsLongTag | main.py:54-61 | an album whose tags are all shorter than the marker's name never counts as tagged |
| Controller.MarkerMakesAlreadyTagged | main.py:54-61 | after a real write with the marker on, `already_tagged` holds when skipping is on |
| Controller.LookupWithRetry | main.py:210-222 | the first lookup uses `"<artist> - <title>"`. A second lookup, with the cleaned title, happens exactly when the first fails. The tags come from the last lookup made |
| Controller.LookupWithRetryFinds | main.py:210-224 | the album is found exactly when the raw-title or the cleaned-title lookup yields tags |
| Controller.RetryOfCleanTitleRepeats | main.py:210-222 | for a title that cleaning leaves unchanged, the retry repeats the first query word for word and fails again |
| Controller.ProcessAlbum | main.py:204-225 | an album is reached exactly when `i + 1 >= skip`. It is skipped exactly when it is reached and already tagged, and then it makes no lookup and no write. Otherwise its lookups are those of the retry. It is not found exactly when both lookups fail, and then it makes no write. It counts as a fallback exactly when the second lookup succeeds. When found, its writes are those of `tag_album`. A dry run writes nothing |
| Controller.RerunSkipsTagged | main.py:204-225 | processing an album again after it was tagged with the marker skips it, with no lookup and no write |
| Controller.RunAll | main.py:204-226 | every album is processed in order at its 0-based index. The albums before the skip offset are not reached. In a dry run every album keeps its tags |

## Left out

- Network access to Last.fm and RYM, including authentication and closing the browser. The lookup is a parameter, and the writes are recorded rather than performed.
- Argument parsing, `.env` loading and the `--hash` mode. The settings are the fields of `Config`.
- `get_albums`, `--week` and `--limit`. The album list is a parameter of `RunAll`.
- `message`, with its progress bar and ETA, the `--print` and `--silent` output, and every other `print`. These have no effect on tags.
- `time.sleep(2.5)`. It only paces the requests.
- Exception types. An `IndexError`, `AttributeError` or `TypeError` from the lookup is a `None` lookup or a `None` field. Any other exception would end the run and is not modelled.
- What Last.fm does with a written tag: case folding, deduplication, or refusing an empty tag. `ApplyWrite` treats tags as a plain set of names.
- Text.Lower: lower-cases ASCII letters only, because Python's full Unicode `lower()` table is not modelled. Titles with non-ASCII capitals are lower-cased only partly.
- Controller.RunAll: returns each album's step rather than the final tag sets. `ApplyWrites` on a step's writes gives that album's resulting tags.
- A lookup whose answer changes between calls. The lookup is one fixed function for the whole run.
