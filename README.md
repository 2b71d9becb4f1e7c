# Snapshot inspector: keyword and heuristic job filter

`parse_last_response.py` is a debugging helper of a job-search bot. It loads a
saved results page (`last_response.html`), hands it to the scraper's page
parser, and then filters the parsed job postings. A posting is kept when its
lower-cased title contains one of the normalised (stripped, lower-cased,
non-blank) search keywords and the scraper's `looks_automated` heuristic does
not flag it. The helper prints the raw count, the filtered count and the kept
postings.

This project models that filter and the control flow of `main()` around it:

- `text.dfy` (module `Text`) holds the three Python string operations the
  filter relies on: `str.strip()` with no argument, `str.lower()`, and the
  substring test `key in text`.
- `parse_last_response.dfy` (module `ParseLastResponse`) holds the rest:
  - a job posting (`Job`);
  - the keyword normalisation `[k.strip().lower() for k in SEARCH_KEYWORDS if k.strip()]`
    (`NormalizeKeys`);
  - the keep condition (`Keep`; `KeepWith` turns it into the function value
    the filter takes);
  - a pure specification of the filter (`Filter`);
  - the append loop that the helper runs (`FilterJobs`, a method proved equal
    to `Filter`);
  - one run of `main()` (`Inspect`) and its exit status.

The page parser, the keyword list and the `looks_automated` heuristic come
from the bot's `main` module, which is not part of this model. The model
takes them as parameters: the parser as a function `string -> seq<Job>`, the
keywords as a `seq<string>`, and the heuristic as a function `Job -> bool`.
The snapshot file becomes an `Option<string>` that is `None` when the file
does not exist.

A `Job` carries `title: Option<string>`. `None` covers both a posting without
a `title` field and one whose title is `None`; `j.get('title') or ''` then
gives the empty string (`TitleText`). The other fields the parser produces are
kept in `fields`, which the filter never reads.

## Model

| member | source | states |
|---|---|---|
| `Text.IsSpace` | parse_last_response.py:39 | the characters `strip()` removes include space, tab, line feed, carriage return, vertical tab and form feed, and never an ASCII letter or digit |
| `Text.LowerChar` | parse_last_response.py:39 | one character lower-cased: the result is never an upper-case letter, any other character is unchanged, and whitespace stays whitespace |
| `Text.Lower` | parse_last_response.py:39 | `lower()` keeps the length of the string |
| `Text.LowerSpec` | parse_last_response.py:39 | the result of `lower()` has no upper-case letter; every other character is unchanged; each upper-case letter becomes the letter 32 code points above it; whitespace stays whitespace and nothing else becomes whitespace |
| `Text.LowerOfLowercase` | parse_last_response.py:39 | a string with no upper-case letter is its own `lower()` |
| `Text.LowerIdempotent` | parse_last_response.py:39 | applying `lower()` twice gives the same result as applying it once |
| `Text.LowerKeepsNoEdgeSpace` | parse_last_response.py:39 | lower-casing a string with no whitespace at its ends gives a string with no whitespace at its ends |
| `Text.LeadingSpaces` | parse_last_response.py:39 | the leading whitespace run is maximal: all of it is whitespace and the next character is not |
| `Text.TrailingSpaces` | parse_last_response.py:39 | the trailing whitespace run is maximal: all of it is whitespace and the character before it is not |
| `Text.Strip` | parse_last_response.py:39 | `strip()` never makes a string longer |
| `Text.StripSpec` | parse_last_response.py:39 | the stripped string has no whitespace at either end, and it is empty exactly when the input is whitespace only (the `if k.strip()` test) |
| `Text.StripIsStripOf` | parse_last_response.py:39 | the stripped string is a contiguous piece of the input, and only whitespace lies before and after it |
| `Text.StripUnique` | parse_last_response.py:39 | any piece of the input with whitespace-only surroundings and no whitespace at its own ends is the stripped string (so `strip()` is fully determined) |
| `Text.StripIdempotent` | parse_last_response.py:39 | applying `strip()` twice gives the same result as applying it once |
| `Text.Occurs` | parse_last_response.py:45 | `key in text` holds exactly when `key` occurs at some offset of `text` |
| `Text.OccursEdgeCases` | parse_last_response.py:45 | the empty key occurs in every text; a non-empty key never occurs in the empty text |
| `ParseLastResponse.IsBlank` | parse_last_response.py:39 | an entry is dropped (`k.strip()` is empty) exactly when it is whitespace only |
| `ParseLastResponse.NormalizeKey` | parse_last_response.py:39 | `k.strip().lower()` is empty exactly when `k` is blank; otherwise it has no edge whitespace and no upper-case letter |
| `ParseLastResponse.NormalizeKeys` | parse_last_response.py:39 | there are no more keys than entries, and every key is non-empty, has no edge whitespace and has no upper-case letter |
| `ParseLastResponse.NormalizeEntry` | parse_last_response.py:39 | one entry gives at most one key, and that key has the form above |
| `ParseLastResponse.NormalizeKeysAppend` | parse_last_response.py:39 | normalisation works entry by entry and keeps the entries' order: normalising `a + b` gives the keys of `a` followed by the keys of `b` |
| `ParseLastResponse.NormalizeKeysMembership` | parse_last_response.py:39 | a string is a normalised key exactly when some non-blank entry normalises to it |
| `ParseLastResponse.PositionsSnoc` | parse_last_response.py:39-46 | appending one element adds one position to the set of positions that satisfy a test when the element passes it, and none otherwise |
| `ParseLastResponse.NormalizeKeysCount` | parse_last_response.py:39 | normalisation drops exactly the blank entries: the number of keys equals the number of positions that hold a non-blank entry |
| `ParseLastResponse.NormalizeKeysEmpty` | parse_last_response.py:39 | there are no keys exactly when every entry is blank |
| `ParseLastResponse.AnyOccurs` | parse_last_response.py:45 | `any(k in title for k in keys)` holds exactly when some key occurs in the title |
| `ParseLastResponse.TitleText` | parse_last_response.py:43 | `j.get('title') or ''` is the title when there is one, and it is empty exactly when the title is missing, `None` or empty |
| `ParseLastResponse.Keep` | parse_last_response.py:43-45 | a posting passes exactly when some key occurs in its lower-cased title and the heuristic does not flag it |
| `ParseLastResponse.Filter` | parse_last_response.py:41-46 | the filter specification: the result is no longer than the input and every posting in it passes the keep test |
| `ParseLastResponse.FilterJobs` | parse_last_response.py:41-46 | the append loop over the postings yields exactly the filter specification for the lower-cased-title-contains-a-key-and-not-automated test |
| `ParseLastResponse.KeptIffMatchingAndNotAutomated` | parse_last_response.py:39-46 | a posting ends up in `filtered` exactly when it is one of the parsed postings, some normalised keyword occurs in its lower-cased title (empty when missing), and the heuristic does not flag it |
| `ParseLastResponse.FilterAppend` | parse_last_response.py:41-46 | filtering works posting by posting: filtering `a + b` gives the filtered `a` followed by the filtered `b` |
| `ParseLastResponse.FilterMembership` | parse_last_response.py:41-46 | a posting is in `filtered` exactly when it is one of the parsed postings and passes the keep test |
| `ParseLastResponse.FilterMultiplicity` | parse_last_response.py:41-46 | no posting is duplicated or invented: a posting that passes occurs in `filtered` as often as in the input, and any other posting does not occur |
| `ParseLastResponse.FilterIsSubsequence` | parse_last_response.py:41-46 | `filtered` is a subsequence of the parsed postings, so their relative order is kept |
| `ParseLastResponse.FilterCount` | parse_last_response.py:41-48 | the filtered count equals the number of postings that pass the keep test |
| `ParseLastResponse.FilterIdempotent` | parse_last_response.py:41-46 | filtering the filtered postings again changes nothing |
| `ParseLastResponse.BlankKeywordsKeepNothing` | parse_last_response.py:39-46 | when every configured keyword is blank there are no keys, and `any` over no keys is false, so nothing is kept |
| `ParseLastResponse.UntitledNeverKept` | parse_last_response.py:43-45 | a posting with a missing, `None` or empty title is never kept, whatever the keywords and the heuristic |
| `ParseLastResponse.ExitStatus` | parse_last_response.py:27-29 | of the outcomes the model has, a missing snapshot gives exit status 2 and a normal completion gives 0 |
| `ParseLastResponse.Inspect` | parse_last_response.py:26-48 | one run: a missing snapshot stops the run; otherwise the raw count is the number of parsed postings; no filtering happens when there are none; otherwise the filtered postings are the filter specification applied to the normalised keywords and the heuristic |
| `ParseLastResponse.EngineerKey` | parse_last_response.py:39 | the single keyword "engineer" normalises to itself |
| `ParseLastResponse.SeniorEngineerMatches` | parse_last_response.py:43-45 | "engineer" occurs in the lower-cased title "Senior Engineer" |
| `ParseLastResponse.SeniorEngineerKept` | parse_last_response.py:43-45 | a posting titled "Senior Engineer" passes the keep test for the key "engineer" when the heuristic flags nothing |
| `ParseLastResponse.InternDropped` | parse_last_response.py:43-45 | a posting titled "Intern" fails the keep test for the key "engineer" |
| `ParseLastResponse.EngineerExampleKeep` | parse_last_response.py:39-45 | with the keyword "engineer" and a heuristic that flags nothing, "Senior Engineer" passes the keep test and "Intern" does not |
| `ParseLastResponse.EngineerExample` | parse_last_response.py:39-46 | with the postings "Senior Engineer" and "Intern", the keyword "engineer" and a heuristic that flags nothing, only "Senior Engineer" is kept |

## Left out

- Setting the `DRY_RUN`, `TELEGRAM_TOKEN` and `TELEGRAM_CHAT_ID` defaults in the environment (lines 16-19). This is process-global state with no logic.
- The import from the bot's `main` module (line 21), and the construction of `SeekScraper` (line 25). `SEARCH_KEYWORDS` is a parameter. `looks_automated` is an arbitrary function parameter, and nothing is assumed about its behaviour.
- `SeekScraper._parse_response` (line 32). It is an external parser, taken as an arbitrary function from page text to postings.
- The file check, the UTF-8 read and `sys.exit(2)` (lines 26-31). These are filesystem and process I/O. The model keeps only their outcome: the snapshot is either missing (`SnapshotMissing`, exit status 2) or present as text.
- The model has no crash outcome. `SeekScraper()` (line 25), the read of the file (line 31, which fails on invalid UTF-8 or when the path is a directory), the parser (line 32) and the heuristic can raise, and the process then ends with a traceback and exit status 1. None of these failures is represented: `Outcome` covers only a missing snapshot and a normal completion, and the 0 that `ExitStatus` gives means normal completion only.
- All printing, including the `json.dumps` output of the kept postings (lines 34, 48-50). `Inspect` returns the raw count and the kept postings that these lines print.
- Text.Lower, Text.LowerChar: map only the ASCII letters A-Z to lower case. Python's `str.lower()` also lower-cases non-ASCII letters, and a few of them change length (for example U+0130). Those cases are outside this model.
- Whitespace (`Text.IsSpace`) follows Python's `str.isspace`, including the information separators U+001C-U+001F and the Unicode space characters. It is written out as a fixed list of code points, not taken from the Unicode database.
- Posting fields other than the title are kept as text (`fields: map<string, string>`). A title that is present but not a string is not modelled.
- Python's `and` short-circuits, so `looks_automated` is called only for postings whose title matches a key. The heuristic is modelled as a pure function, so this only changes which calls happen. The model does not capture an exception that the heuristic raises.
