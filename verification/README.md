# BookDownloader search core in Dafny

BookDownloader is a small macOS script (`book_downloader.py`). It asks for a book title,
looks for matching `.epub` files in GitHub repositories, lets the user pick one and
downloads it. This project models the script's decision logic as pure Dafny functions and
proves properties about them:

- **Keyword tokenizer** (`keywords.dfy`). Both comma styles (`,` and the full-width `，`)
  become spaces. The title is split on whitespace with Python's `str.split()` semantics,
  each piece is stripped, and empty pieces are dropped.
- **Repository tree matcher** (`tree_match.dfy`, `search_repo_for_epub`). From one
  repository's recursive listing it keeps the `.epub` paths where a keyword is a substring
  of the path or of the file name. The test is made exactly and again after lower-casing
  both sides. Each match gives one `{name, path, repository}` hit, in listing order.
- **Cascading search** (`search.dfy`, `search_github` and `search_github_repos`).
  1. The five known repositories are scanned in list order. Scanning stops after the first
     repository at which 10 or more hits have accumulated. If anything was found, at most
     the first 15 hits are returned.
  2. Otherwise one code-search call is made, and a non-empty answer is returned unchanged.
  3. Otherwise a repository-name search runs, at most its first 3 repositories are scanned
     the same way, and every hit gathered from them is returned, with no cap.
- **Presentation** (`present.dfy`, the body of `main`):
  - each result gets a label `"name (repo-short-name)"`, truncated to 60 characters
    (57 plus `...`);
  - the picked label is mapped back to a result by its first position in the list;
  - `sanitize_filename` builds the proposed file name;
  - `.epub` is appended to the save path when it is missing.

  `Session` strings these steps together into one run of `main`.
- **Helpers** (`text.dfy`, `wrappers.dfy`): Python's `split`, `strip`, `in`, `endswith`,
  `os.path.basename` and `lower` on strings, plus an `Option` type. The slice `[:n]` is
  `Search.Take` in `search.dfy`.

The remote services and the dialogs are inputs. `Search.Remote` holds:

- the tree listing of each repository, `None` when the fetch fails;
- the code-search items, `None` when the call fails;
- the repository names the repository search returned, `None` when it fails.

`Present.Dialogs` holds the title typed in, the label picked and the save path chosen.
Python's per-character case mapping is a parameter `lower: char -> char`. The
percent-encoding of the download path is a parameter `quote`.

Behaviour of `book_downloader.py` worth noting:

- Only the known-repository stage is capped: it returns at most its first 15 hits
  (book_downloader.py:118). A non-empty code-search answer is returned as it came
  (book_downloader.py:135). The repository-name stage returns every hit it gathered
  (book_downloader.py:167), so one repository holding 25 matching `.epub` files gives 25
  results.
- `sanitize_filename` only removes characters. The `.epub` extension is added to the chosen
  save path instead. `Present.SanitizeExample` shows that `"Report: Draft/Final?.epub"`
  sanitizes to `"Report DraftFinal.epub"`, with no space between "Draft" and "Final".
- Every dialog answer is stripped (book_downloader.py:22), so a title of only whitespace
  arrives empty and ends the run (book_downloader.py:241-242). A title holding a comma and
  otherwise only separators, such as `","`, is not rejected: it yields no keywords and so no
  known-repository hit (`Search.SearchBlankTitle`), and the search falls through to code
  search.
- Labels are not one-to-one with results. Two results with the same file name in
  repositories with the same short name share a label, and picking it always selects the
  first of them (`Present.SelectSharedLabel`). With pairwise-distinct labels, picking a
  label selects exactly its result (`Present.SelectLabel`), as long as the dialog hands the
  label back as listed. The script strips the answer (book_downloader.py:22), so a label
  that starts with whitespace, which happens when the file name does (`" Clean Code.epub"`
  in `owner/books`), comes back without it. `items.index` at book_downloader.py:276 then
  raises a `ValueError` that nothing catches.

## Model

| member | source | states |
|---|---|---|
| `Text.Split` | book_downloader.py:190 | `str.split()`: every piece is non-empty and contains no whitespace |
| `Text.SplitFlatten` | book_downloader.py:190 | the pieces, concatenated, are exactly the input's non-whitespace characters in order |
| `Text.SplitJoin` | book_downloader.py:190 | splitting words joined by single spaces returns the words |
| `Text.Strip` | book_downloader.py:190 | `k.strip()`: the result is the input with only a run of leading and a run of trailing whitespace cut off; it neither starts nor ends with whitespace, and a string without whitespace is unchanged |
| `Text.StripIdempotent` | book_downloader.py:190 | stripping twice is stripping once |
| `Text.LastSegment` | book_downloader.py:195 | `os.path.basename` / `split('/')[-1]`: a slash-free suffix of the input that is preceded by a slash or is the whole input |
| `Text.Contains` | book_downloader.py:202 | a definition with no contract of its own: Python's substring test `needle in hay`, as an occurrence of the needle at some index; `Text.ContainsSuffix` carries it from a suffix to the whole string, which `TreeMatch.KeywordHitsOnPath` uses |
| `Text.EndsWith` | book_downloader.py:194 | a definition with no contract of its own: `s.endswith(suffix)`, the last `len(suffix)` characters equal the suffix; it is also the test at book_downloader.py:293, which `Present.EnsureEpub` states its contract with |
| `Text.Lower` | book_downloader.py:197-201 | a definition: `s.lower()` as the case mapping applied to each character, keeping the length; `Text.LowerSlice` states that lower-casing commutes with slicing |
| `Keywords.ReplaceChar` | book_downloader.py:190 | `str.replace` of one character: the length is kept, and no occurrence of the target is left when the replacement differs from it |
| `Keywords.ReplaceCharAppend` | book_downloader.py:190 | replacing works character by character: it distributes over concatenation |
| `Keywords.ReplaceCharInverse` | book_downloader.py:190 | when the replacement character does not occur in the input, replacing it back restores the input |
| `Keywords.StripAll` | book_downloader.py:190 | the strip-and-drop-empty comprehension: every kept piece is non-empty, and there are no more pieces than went in |
| `Keywords.StripAllSingle` | book_downloader.py:190 | one piece gives its stripped form when that is non-empty, and nothing otherwise |
| `Keywords.StripAllAppend` | book_downloader.py:190 | the comprehension distributes over concatenation, so with `StripAllSingle` it keeps exactly the stripped non-blank pieces, in order |
| `Keywords.Normalize` | book_downloader.py:190 | after both comma replacements no comma is left, and a character is whitespace exactly where the title had a separator |
| `Keywords.Tokenize` | book_downloader.py:190 | every keyword is non-empty and holds no whitespace, no `,` and no `，` |
| `Keywords.TokenizeIsSplit` | book_downloader.py:190 | the strip-and-drop-empty step never changes the split pieces |
| `Keywords.TokenizeFlatten` | book_downloader.py:190 | the keywords, concatenated, are the title's non-separator characters in their original order |
| `Keywords.TokenizeEmptyIff` | book_downloader.py:190 | there are no keywords exactly when the title consists only of separators |
| `Keywords.TokenizeJoin` | book_downloader.py:190 | keywords joined by single spaces tokenize back to the same list |
| `Keywords.TokenizeMixedCommas` | book_downloader.py:190 | `"Clean Code, 代码整洁之道"` gives `["Clean", "Code", "代码整洁之道"]` |
| `TreeMatch.KeywordHits` | book_downloader.py:202 | a definition with no contract of its own: the four substring tests of one keyword; `TreeMatch.KeywordHitsOnPath` reduces them to the two path tests |
| `TreeMatch.IsHit` | book_downloader.py:194-202 | a definition with no contract of its own: a `.epub` path that some keyword hits; `TreeMatch.MatchTreeIsFilter`, `TreeMatch.MatchTreeComplete` and `TreeMatch.MatchTreeNoEpub` state what it selects |
| `TreeMatch.CandidateFor` | book_downloader.py:203-207 | the hit keeps the path and the repository, and its name is the whole part of the path after its last slash (`os.path.basename`) |
| `TreeMatch.AnyKeywordHits` | book_downloader.py:197-208 | an entry matches exactly when some keyword is a substring of the path or file name, as written or with both sides lower-cased |
| `TreeMatch.KeywordHitsOnPath` | book_downloader.py:195-202 | the file-name tests are redundant: a keyword hits exactly when it is in the path, as written or lower-cased |
| `TreeMatch.MatchTree` | book_downloader.py:192-208 | there are no more hits than entries, and every hit is attributed to the scanned repository |
| `TreeMatch.MatchTreeFound` | book_downloader.py:192-208 | every hit is a matching `.epub` path of the listing, named by its base name, of the scanned repository |
| `TreeMatch.SearchRepo` | book_downloader.py:172-212 | a failed fetch gives no hits; otherwise there are no more hits than listing entries, all attributed to the repository |
| `TreeMatch.SearchRepoFound` | book_downloader.py:172-212 | every hit is a listed `.epub` path that matches one of the title's keywords, named by its base name |
| `TreeMatch.MatchTreeAppend` | book_downloader.py:192-208 | matching a listing in two parts gives the first part's hits followed by the second's |
| `TreeMatch.MatchTreeIsFilter` | book_downloader.py:192-208 | the hits are the in-order subsequence of listing entries that match, one hit per entry |
| `TreeMatch.MatchTreeComplete` | book_downloader.py:192-208 | every matching `.epub` entry of the listing is reported |
| `TreeMatch.MatchTreeCount` | book_downloader.py:192-208 | there are at most as many hits as `.epub` entries |
| `TreeMatch.MatchTreeNoKeywords` | book_downloader.py:200-208 | an empty keyword list matches nothing |
| `TreeMatch.MatchTreeNoEpub` | book_downloader.py:194 | a listing without `.epub` entries gives no hit |
| `TreeMatch.SearchRepoBlankTitle` | book_downloader.py:188-210 | a title made only of separators finds nothing in any listing |
| `TreeMatch.MatchTreeExample` | book_downloader.py:192-207 | the listing `["books/Clean_Code.epub"]` with keyword `Clean` gives exactly one hit, named `Clean_Code.epub` |
| `Search.Take` | book_downloader.py:118 | `s[:n]` is the prefix of length `min(n, len(s))` |
| `Search.ScanRepo` | book_downloader.py:111-112 | a failed listing fetch gives no hits, and every hit is attributed to the scanned repository |
| `Search.Gather` | book_downloader.py:110-114 | the scanning loop keeps the hits it started with in front, and every added hit is attributed to a scanned repository |
| `Search.GatherFound` | book_downloader.py:110-114 | every hit the loop adds is a well-formed hit of the repository it names |
| `Search.GatherStops` | book_downloader.py:110-114 | the loop returns exactly the hits of the repositories up to the first one at which 10 hits have accumulated, or of all of them |
| `Search.GatherIsPrefix` | book_downloader.py:110-114 | the loop's result is a prefix of all the list's hits, and equals all of them when it holds fewer than 10 |
| `Search.GatherAllFail` | book_downloader.py:110-114 | when every listing fetch fails, the loop finds nothing and does not fail |
| `Search.GatherFrame` | book_downloader.py:161-165 | the loop's result depends only on the listings of the repositories in its list |
| `Search.KnownStage` | book_downloader.py:107-114 | every hit comes from one of the known repositories |
| `Search.RepoNameStage` | book_downloader.py:142-170 | a failed repository search gives `[]`; every hit comes from one of the first 3 repositories returned |
| `Search.SearchGithub` | book_downloader.py:105-140 | when the known repositories yield hits, the result is the first 15 of them in scan order, or all when fewer; its other properties are the lemmas below (`SearchProvenance`, `SearchCodeSearchVerbatim`, `SearchRepoNameFallback`, `SearchEmptyIff`) |
| `Search.SearchProvenance` | book_downloader.py:105-140 | every result is a code-search item, or a well-formed hit of a known repository or of one of the first 3 returned repositories |
| `Search.SearchKnownShortCircuit` | book_downloader.py:110-118 | when the known repositories yield hits, the result is the first 15 of them in list order, or all when fewer, and does not depend on the code or repository search |
| `Search.KnownStageStops` | book_downloader.py:110-114 | the known-repository stage ends at a repository boundary: its stopping point |
| `Search.SearchCodeSearchVerbatim` | book_downloader.py:121-135 | with no known-repository hit, a non-empty code-search answer is returned unchanged |
| `Search.SearchRepoNameFallback` | book_downloader.py:136-170 | with no earlier results, the result is `[]` when the repository search fails, and otherwise the scan of its first 3 repositories, unaffected by any other listing |
| `Search.SearchAllKnownFail` | book_downloader.py:110-140 | when every known repository's fetch fails, the search moves on to code search |
| `Search.SearchEmptyIff` | book_downloader.py:105-140 | the search returns nothing exactly when all three stages found nothing |
| `Search.SearchBlankTitle` | book_downloader.py:110-118 | a title made only of separators finds nothing in the known repositories |
| `Search.SearchEndToEnd` | book_downloader.py:105-118 | "Clean Code" with only `src/books/CleanCode.epub` in the third known repository gives exactly that one hit |
| `Present.Display` | book_downloader.py:259-260 | a definition with no contract of its own; `Present.DisplayShape` states its form |
| `Present.DisplayShape` | book_downloader.py:259-260 | the display text is the file name, then ` (`, then the whole part of the repository's full name after its last slash, then `)` |
| `Present.Label` | book_downloader.py:256-264 | a label has at most 60 characters; it equals the display text exactly when that fits; it keeps the display's first 57 characters; a truncated label is 60 long and ends in `...` |
| `Present.LabelsOf` | book_downloader.py:256-264 | one label per result, in result order |
| `Present.LabelNonEmpty` | book_downloader.py:260-273 | a label is never empty (so it is never taken for a cancelled dialog) and starts with a short file name |
| `Present.LabelsDistinguishNames` | book_downloader.py:259-263 | file names that differ at a position below 57 that both names have give different labels |
| `Present.IndexOf` | book_downloader.py:276 | `list.index`: the first position holding the value; `None` exactly when it is absent |
| `Present.Select` | book_downloader.py:266-277 | a cancelled or empty answer cancels; a non-empty answer that is not a label is unlisted; a pick is the first result carrying the chosen label |
| `Present.IndexOfDistinct` | book_downloader.py:276 | in a list without repetitions, `index` of the element at position `i` is `i` |
| `Present.SelectLabel` | book_downloader.py:276-277 | with pairwise-distinct labels, choosing a result's label selects exactly that result |
| `Present.SelectSharedLabel` | book_downloader.py:256-277 | two different results can share a label, and then the second cannot be selected |
| `Present.IsUnsafe` | book_downloader.py:235 | a definition with no contract of its own: the nine characters `<>:"/\|?*` that `sanitize_filename` removes; `Present.Sanitize` and `Present.SanitizeSafe` state their removal |
| `Present.Sanitize` | book_downloader.py:233-235 | no `<>:"/\|?*` is left, and exactly as many characters are removed as the name held of them |
| `Present.SanitizeSafe` | book_downloader.py:235 | a name without those characters is unchanged |
| `Present.SanitizeIdempotent` | book_downloader.py:235 | sanitizing twice is sanitizing once |
| `Present.SanitizeAppend` | book_downloader.py:235 | sanitizing works character by character in order: it distributes over concatenation, dropping unsafe characters and keeping every other |
| `Present.SanitizeExample` | book_downloader.py:235 | `"Report: Draft/Final?.epub"` becomes `"Report DraftFinal.epub"` |
| `Present.EnsureEpub` | book_downloader.py:292-294 | the save path ends in `.epub`; it is unchanged if it already did, and otherwise the whole five-character `.epub` is appended to it |
| `Present.EnsureEpubIdempotent` | book_downloader.py:293-294 | ensuring the extension twice is ensuring it once |
| `Present.DownloadUrl` | book_downloader.py:282 | a definition with no contract of its own; `Present.DownloadUrlShape` states its form |
| `Present.DownloadUrlShape` | book_downloader.py:282 | the address starts with `https://github.com/` followed by the result's repository, and ends with the encoded path |
| `Present.Session` | book_downloader.py:237-297 | an empty title exits; "not found" happens exactly when a non-empty title's search is empty; the selection error happens exactly when a non-empty answer is not one of the labels; a download always targets a path ending in `.epub` and the address of one of the results |
| `Present.SessionDownloadsPicked` | book_downloader.py:275-297 | with distinct labels, the picked result is downloaded to the chosen path (with `.epub` ensured), and the proposed file name is its sanitized name |

## Left out

- The AppleScript dialogs, notifications and alerts (book_downloader.py:14-94) are external user-interface calls. Their answers are the `Dialogs` inputs, and the alert shown when the repository search fails is not modelled.
- The HTTP requests, JSON decoding, timeouts and the `gh` subprocess are network I/O. Each call is an input whose failure is `None`.
- A repository is assumed to return the same listing each time it is fetched within one search.
- Missing JSON fields are not modelled: a code-search item or a repository-search item without the keys `main` reads, or a tree entry without a path. The `per_page` limits of 10 and 5 that the remote calls request are not modelled either: any answer length is accepted.
- `download_file`, the file write and the `open` call are I/O. The model ends at the `Download(url, savePath)` request.
- The recursive restart of `main` (after "not found" or "continue") and the `sys.exit` calls are interactive session control. The model returns `NotFound` or `Exit` instead. The `ValueError` that `items.index` would raise for an unlisted answer is the `SelectionError` outcome.
- `urllib.parse.quote` depends on a library encoding table, so it is the parameter `quote`.
- Python's `str.lower()` is modelled as a per-character function, so context-dependent case mappings (such as the final-sigma rule, which lower-cases `'ΟΔΟΣ'` to `'οδος'`) and length-changing ones are not modelled. Whitespace is Python's `str.isspace` set, written out.
- The `strip()` that `run_applescript` applies to every dialog answer (book_downloader.py:22) is not modelled: `Dialogs` answers are taken as given, so the model also accepts unstripped answers, such as a title of only whitespace, that the real dialogs never return.
- Present.SessionDownloadsPicked: it takes the picked answer to be the label as listed. For a file name that starts with whitespace, the script's stripped answer (book_downloader.py:22) is not in the list, and the real run ends in an uncaught `ValueError` at book_downloader.py:276 instead of a download.
- AppleScript quoting of labels and titles that contain `"` is not modelled.
