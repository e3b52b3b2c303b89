# cms-assignment-checker, modelled in Dafny

The modelled program is a small Flask service that logs into a university portal every
five minutes and scrapes the assignments table. It removes the "Submission" column and
keeps the result in memory as a snapshot `{html, last_updated}`. This project models the
logic of `app.py` that does not depend on a library:

- `extract_html_table`: cuts the portal-summary grid out of the page. It searches for two
  literal markers and slices between them, as Python `str.find` and slicing do.
- `remove_submission_column`: the parsed table is modelled as rows of cells.
  - The first pass deletes every `th` of class `GridHeader` whose text contains `Submission`.
  - The second pass, in every row that still has at least six cells, deletes the first
    cell whose markup contains `lblSubmissionStatus`.
  - Each pass is a method with loops, proved against a specification function.
- The login handshake: hidden form tokens that are absent default to `""`, and a login is
  accepted only on status 200 with `DashBoard.aspx` in the body.
- `get_env_var` and the start-up loading of the four credentials.
- `fetch_and_store_assignments`: a class `Snapshot` with the two fields of
  `latest_html_table`. Every failure path leaves both fields alone. A success overwrites
  both.

Modules: `Wrappers` (Option, Result, Attempt), `Seqs` (first match, filter, map), `PyStr`
(`find`, `in`, slicing), `TableExtract`, `ColumnStrip`, `PortalLogin`, `AssignmentCache`.

Collaborators become parameters:

- Each HTTP exchange is an `Attempt` value: a completed response, or `Raised` for an
  exception. The login post is a function from the posted form to its reply. All of them
  are grouped in `PortalLogin.Portal`.
- BeautifulSoup, as `remove_submission_column` uses it, is a value `ColumnStrip.HtmlLibrary`.
  - `parse` gives the rows of the fragment's first table, or `None` when there is none.
  - `render` is `str(soup)`. It receives the original fragment and the edited rows, since
    the serialised document also holds what the rows do not (tag attributes, whitespace).
  - Either may raise. A raise there is swallowed by the catch-all, like any other.
- The login page is the list of `<input>` elements the parser finds in it.
- The capture time is an opaque, already formatted string.

Where the code behaves otherwise than its purpose suggests, the model follows the code:

- Header removal also requires class `GridHeader`, not only the text `Submission`
  (app.py:88-89).
- A fetched page is rejected by `if response:`, which for a `requests` response is false
  only for statuses 400 to 599, not for every non-2xx status (app.py:109).
- When the start marker has no `</table>` after it, the result is `response[s:7]`, not a
  failure. The guard at app.py:76 never fires, because the end index is at least 7
  (app.py:75-77). A marker at index 0 to 6 therefore yields a non-empty prefix of
  `<table `, and that prefix is stripped and stored (`UnclosedFragmentIsStored`).
- A hidden input that is present but has no `value` attribute raises `KeyError`
  (app.py:36-38). The catch-all at app.py:120 swallows it, so the snapshot is untouched.
- There are no network timeouts and no guard against overlapping refreshes.

## Model

| member | source | states |
|---|---|---|
| `Seqs.FirstWhere` | app.py:95-99 | the index found satisfies the test and no earlier index does; none is found exactly when no element satisfies it (the `for ... break` search and `soup.find`) |
| `PyStr.Find` | app.py:71-75 | `str.find(sub, start)`: -1 exactly when `sub` occurs nowhere at or after `start`; otherwise an occurrence at or after `start` with none before it |
| `PyStr.FindFromStartIsContains` | app.py:52 | the substring test `sub in s` holds exactly when `s.find(sub)` is not -1 |
| `PyStr.Slice` | app.py:79 | Python slicing: `s[lo:hi]` is the plain subsequence for in-range bounds and empty when `0 <= hi <= lo` |
| `TableExtract.EndIndex` | app.py:75-77 | the end index `find('</table>', start) + 8` is at least 7, so the `== -1` guard is dead |
| `TableExtract.ExtractHtmlTable` | app.py:67-79 | `extract_html_table` itself: the result is no longer than the page and either begins with the whole start marker or is a beginning of it; `ExtractWithoutMarker`, `ExtractClosed`, `ExtractUnclosed` and `ExtractEmptyIff` say which piece it is |
| `TableExtract.SliceFromMarkerShape` | app.py:75-79 | the slice taken from a found marker begins with the whole marker when a `</table>` follows, and is otherwise a beginning of the marker |
| `TableExtract.NoEndMarkerInsideStartMarker` | app.py:68-69 | no `</table>` can begin inside an occurrence of the start marker |
| `TableExtract.ExtractWithoutMarker` | app.py:71-73 | a page without the exact start-marker literal yields `""` |
| `TableExtract.ExtractClosed` | app.py:71-79 | with the marker at s and the first `</table>` after it at e, the result is `response[s:e+8]`; it starts with the start marker, ends with `</table>`, and its first `</table>` is that final one |
| `TableExtract.ExtractUnclosed` | app.py:75-79 | with the marker at s and no `</table>` after it, the end index is 7 and the result is `response[s:7]`: `""` when s >= 7, otherwise the first 7 - s characters of the marker |
| `TableExtract.ExtractEmptyIff` | app.py:67-79 | the result is `""` exactly when the marker is missing, or when it sits at index 7 or later with no `</table>` after it |
| `ColumnStrip.RemoveSubmissionColumn` | app.py:81-103 | returns the input unchanged when the parser finds no table, raises when the parser raises, and otherwise gives the library's serialisation of the fragment with both passes applied to its table |
| `ColumnStrip.Stripped` | app.py:81-103 | the specification of `remove_submission_column`: the fragment when there is no table, a raise when the library raises, otherwise the render of the fragment with `StripTable` applied |
| `ColumnStrip.StripTable` | app.py:88-101 | the first pass on every row, then the second pass on every row; the number of rows is kept |
| `ColumnStrip.WithoutHeaders` | app.py:88-90 | the first pass on one row keeps, in order, exactly the cells that are not `GridHeader` headers mentioning "Submission" |
| `ColumnStrip.WithoutStatusCell` | app.py:92-101 | the second pass on one row removes nothing, or, in a row of at least six cells, exactly one cell |
| `ColumnStrip.DropSubmissionHeaders` | app.py:88-90 | the first pass over the whole table is, row by row, the row's cells in order without the `GridHeader` "Submission" headers |
| `ColumnStrip.DropStatusCells` | app.py:92-101 | the second pass is, row by row, the row without its first status cell when it has at least six cells, and the row unchanged otherwise |
| `ColumnStrip.NoSubmissionHeaderRemains` | app.py:88-90 | the table keeps its number of rows, and no `GridHeader` header mentioning "Submission" is left in any row |
| `ColumnStrip.ShortRowKept` | app.py:92-94 | a row with fewer than six cells, counted after the first pass, keeps all of its remaining cells; without a submission header it is unchanged |
| `ColumnStrip.AtMostOneCellRemoved` | app.py:94-101 | a row either stays as the first pass left it, and then it is short or has no status cell, or it has at least six cells and loses exactly its first status cell, the others keeping their order |
| `ColumnStrip.HeaderRowOfSevenKeepsSix` | app.py:88-101 | a seven-cell header row with one submission header and no status cell keeps the other six cells in order |
| `ColumnStrip.DataRowOfSixKeepsFive` | app.py:92-101 | a six-cell data row without submission headers loses exactly its first status cell and keeps five |
| `PortalLogin.GetEnvVar` | app.py:16-20 | a variable that is unset or empty is an error naming it; otherwise its value |
| `PortalLogin.LoadCredentials` | app.py:23-26 | the four start-up reads in order, stopping at the first missing variable; no credential it returns is empty (`LoadCredentialsSpec` gives the full characterisation) |
| `PortalLogin.LoadCredentialsSpec` | app.py:23-26 | start-up succeeds exactly when ROLL_NO, PASSWORD, SESSION and PROGRAM are all set and non-empty, with the credentials equal to their values; otherwise it fails on the first missing one in that order |
| `PortalLogin.HiddenField` | app.py:36-38 | a token is the value of the first input with its name, `""` when there is no such input, and an exception when that input has no value |
| `PortalLogin.LoginForm` | app.py:40-49 | the posted form has exactly the eight fields, holding the three tokens, the four credentials and "Sign In"; it is built exactly when no token lookup raises |
| `PortalLogin.LoginAccepted` | app.py:52 | the success test on the login reply: status 200 and `DashBoard.aspx` in the body |
| `PortalLogin.ResponseOk` | app.py:109 | `if response:` on a `requests` response: false exactly for statuses 400 to 599 |
| `PortalLogin.MissingTokensDefaultToEmpty` | app.py:36-38 | a login page with none of the three hidden inputs still gives a form, with each token `""` |
| `PortalLogin.LoginAndGetSession` | app.py:31-57 | a session is returned only when the login page and the post both complete, the form is built, and the reply passes the success test |
| `PortalLogin.LoginDecision` | app.py:52-57 | once the post returns a reply, the login succeeds exactly when the status is 200 and `DashBoard.aspx` occurs in the body |
| `PortalLogin.CheckAssignments` | app.py:59-65 | the assignments page is returned exactly when the login succeeded and the page request completed |
| `AssignmentCache.RefreshedTable` | app.py:105-121 | something is stored only after an accepted login and an assignments page without an error status |
| `AssignmentCache.Snapshot.constructor` | app.py:29 | the snapshot starts with both fields empty |
| `AssignmentCache.Snapshot.FetchAndStoreAssignments` | app.py:105-121 | when the refresh yields nothing, both fields keep their old values; otherwise `html` becomes the stripped table and `lastUpdated` the given timestamp |
| `AssignmentCache.LoginFailureKeepsSnapshot` | app.py:108-119 | a rejected or raising login leaves the snapshot untouched |
| `AssignmentCache.StripFailureKeepsSnapshot` | app.py:110-121 | an exception from the HTML library while stripping leaves the snapshot untouched |
| `AssignmentCache.RefreshStoresIff` | app.py:108-115 | a refresh stores exactly when the login is accepted, the page has no error status, the extraction is non-empty and stripping it does not raise; what it stores is the stripped extraction |
| `AssignmentCache.StoredPageHasMarker` | app.py:110-113 | nothing is stored from a page that lacks the start marker |
| `AssignmentCache.UnclosedFragmentIsStored` | app.py:75-79 | a page with the marker at index s < 7 and no `</table>` after it makes the refresh store the stripped fragment `response[s:7]`, unless stripping raises |

## Left out

- HTTP requests through `requests` (app.py:32-33, 51, 64) are I/O. Their outcomes, including
  exceptions, are parameters.
- BeautifulSoup parsing and `str(soup)` (app.py:34, 82-83, 103) are a foreign library. They
  are the parameters `parse` and `render`. Nested tables, cells outside rows and the
  recursive matching of `find_all` are not modelled.
- ColumnStrip.RemoveSubmissionColumn: the result is stated through the abstract `render`,
  so nothing is claimed about the bytes `str(soup)` produces beyond their dependence on
  the fragment and its edited rows.
- The Flask app and the `/api/assignments` route (app.py:9, 131-136) are web plumbing.
- The `BackgroundScheduler` and the start-up call (app.py:124-129) are scheduling. Races
  between the timer and readers are not modelled, including a reader that sees `html`
  updated before `last_updated` (app.py:113-114).
- Logging, `os.environ` and `datetime.utcnow().strftime` (app.py:12-13, 17, 114) are side
  effects. The environment is a map argument and the timestamp an opaque string.
- The `except Exception` catch-all (app.py:120-121) is modelled only as "the snapshot is
  untouched". Every exception comes from a collaborator: an HTTP exchange, a token lookup
  or the HTML library, each of which may report `Raised`.
