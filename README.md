# Trade-Helper report service, modelled in Dafny

`servercn.py` serves a one-field web form: the user types a company ticker
and gets back a markdown stock report written by an LLM "market analyst"
agent that talks to a tool-running "user proxy" agent. Around that dialogue,
the file holds a small sequential core, and this project models it:

- **Termination test** (`is_termination_msg`, line 65). A message ends the
  dialogue when its content is present and non-empty and, with surrounding
  whitespace stripped, ends with `TERMINATE`. Module `Termination`, over
  Python's `str.strip`/`str.endswith` in module `PyStr`.
- **Report extraction** (`filter_user_content`, lines 133-140). The first
  transcript entry whose role is `user` and whose content holds `###` is the
  report. Without one the text is `No relevant content found.`. A `user`
  entry whose content is JSON `null` that comes before any report makes
  Python raise `TypeError` (`"###" in None`). Module `ChatHistory`.
- **Memoised report request** (`analyze_company`, lines 143-157, with
  `initiate_chat_and_save_response`, `read_response_from_md` and
  `save_to_md`). The ticker is upper-cased. The report file name is
  `result_<TICKER>_<date>.md`. An existing file is returned as a
  text-mode read gives it: `\r\n` and a lone `\r` come back as `\n`. On a
  miss the chat runs, its transcript is filtered, and the filtered text is
  saved with a trailing newline and returned. Module `ReportCache`: the
  working directory is a class `FileStore` holding a mutable
  `map<string, string>`. The agent pair is a class `ChatAgents` whose
  dialogue yields a fixed transcript; a ghost counter records the chats
  started. The
  method `AnalyzeCompany` is proved against the function `Analyze`, and the
  lemmas about repeated requests are proved about `Analyze`.

Inputs the code takes from the outside world are parameters here. The
date (`get_current_date`) is a string argument. The chat transcript is the
`transcript` of `ChatAgents`. The files on disk are `FileStore.files`.

A repeated request is **not** byte-identical to the first. `save_to_md`
writes `content + "\n"` (line 41), and `read_response_from_md` reads the
file back in text mode (line 35). So the second request for a ticker and
date returns the first reply plus one newline, with every line break
normalised to `\n`. When the first reply holds no `\r`, that is exactly the
first reply plus one newline. Later requests return that same text again.
`AnalyzeTwice` states this, and `CarriageReturnNotKept` shows a reply whose
`\r\n` does not survive the round trip. The write-once behaviour of
the report files is a consequence of the existence check at line 150. The
file itself is opened in overwrite mode (line 40), and `SaveToMd` models
that mode.

## Model

| member | source | states |
|---|---|---|
| `Termination.TerminationIff` | servercn.py:65 | A message with missing or empty content never terminates. Otherwise it terminates exactly when its stripped content ends with `TERMINATE`. |
| `Termination.TerminationIgnoresPadding` | servercn.py:65 | Whitespace added before and after the content never changes the verdict. |
| `Termination.TerminationIgnoresSpacesAndNewline` | servercn.py:65 | `"  " + c + "\n"` gets the same verdict as `c`. |
| `Termination.SentinelLastTerminates` | servercn.py:65 | Any content whose last non-blank text is `TERMINATE` ends the chat, whatever comes before it. |
| `Termination.SentinelSurvivesStrip` | servercn.py:65 | Stripping content that ends with `TERMINATE` leaves that ending intact. |
| `Termination.IsTerminationMsg` | servercn.py:65 | A terminating message has content, and that content is at least as long as `TERMINATE`. |
| `PyStr.AsciiSpace` | servercn.py:65 | On printable ASCII, `isspace` holds only for the space. Tab, line feed, vertical tab, form feed and carriage return are whitespace. |
| `PyStr.EndsWith` | servercn.py:65 | `endswith` never holds for a suffix longer than the string. It always holds for the empty suffix and for the string itself. |
| `PyStr.TrimLeft` | servercn.py:65 | The leading-whitespace half of `strip()`: the result is a suffix of the input, everything cut off is whitespace, and the result does not start with whitespace. |
| `PyStr.TrimRight` | servercn.py:65 | The trailing-whitespace half of `strip()`: the result is a prefix, everything cut off is whitespace, and the result does not end with whitespace. |
| `PyStr.Strip` | servercn.py:65 | `strip()` returns a substring of the input surrounded only by whitespace that neither starts nor ends with whitespace. |
| `PyStr.StrippedAtUnique` | servercn.py:65 | At most one substring fits that description, so it pins `strip()` down completely. |
| `PyStr.StripIsCore` | servercn.py:65 | Any substring that fits the description is what `strip()` returns. |
| `PyStr.StripPadded` | servercn.py:65 | `strip()` of a string padded with whitespace on both sides equals `strip()` of the string. |
| `PyStr.StripPaddedRight` | servercn.py:65 | Trailing whitespace, such as a final newline, never changes what `strip()` returns. |
| `PyStr.StripKeepsSolidSuffix` | servercn.py:65 | A whitespace-free ending of a string is still the ending after `strip()`. |
| `PyStr.Contains` | servercn.py:138 | The `in` test never finds a pattern longer than the string. It always finds a pattern that starts the string. |
| `PyStr.NotContainsWithoutFirst` | servercn.py:138 | A string lacking the first character of a pattern does not contain the pattern (the `in` test). |
| `PyStr.Upper` | servercn.py:145 | `upper()` keeps the length, maps every character through ASCII upper-casing, and leaves no lower-case ASCII letter. |
| `PyStr.UpperIdempotent` | servercn.py:145 | Upper-casing twice is upper-casing once. |
| `PyStr.UpperEqualIff` | servercn.py:145 | Two strings upper-case alike exactly when they have the same length and differ only in letter case. |
| `ChatHistory.IsReport` | servercn.py:138 | A report entry has text content at least as long as `###`. So it is never an entry whose `"###" in content` test raises (`Raises`: a `user` entry with null content). |
| `ChatHistory.FilterUserContent` | servercn.py:133-140 | Every text returned is the fallback or the content of a `user` entry holding `###`. An error happens only if some `user` entry has null content. |
| `ChatHistory.FirstStopDecides` | servercn.py:137-139 | The first entry that is a report or a null-content `user` entry decides the result. A later report never wins over an earlier one. |
| `ChatHistory.FallbackIff` | servercn.py:140 | The result is exactly `No relevant content found.` if and only if no `user` entry holds `###` or has null content. |
| `ChatHistory.ReportFound` | servercn.py:137-139 | If the transcript has a report and no null-content `user` entry, the result is the content of the earliest report, at or before any given one. |
| `ChatHistory.EarliestStop` | servercn.py:137 | If some entry ends the scan, there is a first entry that does. |
| `ReportCache.UniversalNewlines` | servercn.py:35-36 | Text-mode reading never lengthens the text and leaves no `\r` in it. |
| `ReportCache.UniversalNewlinesKeepsPlainText` | servercn.py:35-36 | Text without `\r` reads back unchanged. |
| `ReportCache.UniversalNewlinesPlainPrefix` | servercn.py:35-36 | A leading stretch without `\r` reads back unchanged, whatever follows it. |
| `ReportCache.UniversalNewlinesIdempotent` | servercn.py:35-36 | Reading back text that was already read in text mode changes nothing. |
| `ReportCache.FileStore.Exists` | servercn.py:150 | `os.path.exists`: true exactly when the file is in the store. |
| `ReportCache.FileStore.Read` | servercn.py:34-37 | `read_response_from_md` returns the stored text of an existing file as a text-mode read gives it, with `\r\n` and a lone `\r` turned into `\n`. |
| `ReportCache.FileStore.SaveToMd` | servercn.py:39-42 | `save_to_md` overwrites one file with the content plus a newline and leaves every other file alone. |
| `ReportCache.ChatAgents.InitiateChat` | servercn.py:124-128 | Starting the chat yields the dialogue's transcript, and the ghost chat counter goes up by one. |
| `ReportCache.ReportKey` | servercn.py:147 | The report file name is the ticker and the date framed by `result_`, `_` and `.md`. The ticker sits at offset 7 and the date just before the `.md` ending, and the length is theirs plus 11. |
| `ReportCache.ReportKeyInjective` | servercn.py:147 | For dates of equal length, two report file names are equal exactly when ticker and date are equal. |
| `ReportCache.InitiateChatAndSaveResponse` | servercn.py:114-131 | An existing report file is returned as a text-mode read gives it, with no chat started. Otherwise exactly one chat starts and its transcript is returned. No report file is written (the `.json` transcript file it also writes is not modelled). |
| `ReportCache.Analyze` | servercn.py:143-157 | An empty ticker gets no reply, starts no chat and changes nothing. Every non-empty ticker gets a reply. A request changes no file unless it starts a chat, and one whose filtering raises leaves every file as it was. The only file a request can change is the report for the upper-cased ticker and the date. |
| `ReportCache.AnalyzeCompany` | servercn.py:143-157 | The reply, the new files and the number of chats started are those given by `Analyze` on the old files. The inner existence test of `initiate_chat_and_save_response` never fires here. |
| `ReportCache.AnalyzeHit` | servercn.py:150-151 | On a hit, the stored text is returned as a text-mode read gives it, no chat starts and the store is unchanged. |
| `ReportCache.AnalyzeMiss` | servercn.py:153-157 | On a miss, the reply is the filtered transcript and the report file then holds that text plus a newline. |
| `ReportCache.AnalyzeIgnoresCase` | servercn.py:144-147 | Tickers that differ only in letter case give the same request. |
| `ReportCache.CarriageReturnNotKept` | servercn.py:35-41 | A fresh report `###A\r\nB` is saved as `###A\r\nB\n` and read back as `###A\nB\n`. |
| `ReportCache.AnalyzeTwice` | servercn.py:150-157 | After a reported request, a second request for the same ticker (up to case) and date starts no chat and changes no file. It returns the first reply as a text-mode read gives it, after a newline is appended if the first reply came from a fresh chat. A fresh reply without `\r` comes back as exactly that reply plus one newline. After a raised request nothing was saved and the second request runs as if it were the first. |

## Left out

- The web form, its CSS and `iface.launch` (lines 159-198): presentation only.
- The agent dialogue inside `initiate_chat`: turn alternation, tool calls, the reply budget of 10 and `Cache.disk()` (lines 57-72, 123-128). That logic lives in the autogen library, which is not part of this model. The dialogue is a fixed transcript, and the termination test is modelled on its own.
- Tool registration and the FinnHub/YFinance fetchers (lines 74-99): network calls into libraries that are not part of this model.
- Environment and API-key loading and the LLM configuration (lines 12-13, 24-32, 44-54): process environment only.
- `save_response_to_json`, the `.json` file and the `json.dumps`/`json.loads` round trip (lines 101-111, 116, 130-131, 135). The `.json` file is written but never read back. The transcript is passed on as already-decoded entries.
- `save_output` (lines 16-19): never called.
- `get_current_date` (lines 21-22): the date is a parameter. Both calls (lines 115 and 146) see the same date, so a request that straddles midnight is not modelled.
- Concurrent requests: the code has none of its own, and the existence check followed by the write is modelled as sequential.
- `PyStr.Upper`: ASCII letters only. Python's full Unicode case mapping (for example `ß` becoming `SS`) is not modelled.
- `ChatHistory.FilterUserContent`: assumes every decoded entry has a `role` and a `content` key and that the content is text or `null`. A missing key (`KeyError`) and list-valued multimodal content are not modelled.
- `Termination.IsTerminationMsg`: content that is neither text nor absent/`null` (a list of parts) is not modelled.
- `ReportCache.FileStore.Read` requires the file to exist. Python raises `FileNotFoundError` otherwise, but both callers check existence first.
- `ReportCache.Analyze`: an exception raised while filtering is modelled as a `Raised` reply, not as control flow. The store is left as it was, as in the code, where the exception skips `save_to_md`.
- `ReportCache.FileStore.SaveToMd`: the text-mode write turns `\n` into `os.linesep`. The model takes `os.linesep` to be `\n`, as on POSIX systems. On Windows each written `\n` becomes `\r\n`, which the text-mode read turns back into `\n`.
- `ReportCache.FileStore.Read`: text is written and read back in the locale's default encoding, and the model assumes that round trip is exact. A `UnicodeEncodeError` or `UnicodeDecodeError` is not modelled.
- `print` messages (lines 19, 42, 111).
