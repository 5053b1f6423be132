# Transcript tools, modelled in Dafny

The repository holds three command-line tools around YouTube transcripts.

- **AI transcript processor** (`AiTranscriptProcessor.py`). It reads a downloaded transcript record: metadata plus time-coded text segments. It joins the segments and asks a chat-completion model to reformat them into a title, a summary and a body. It then checks the reply and writes the accepted document to `processed/<channel>/<title>.json`. A ledger file, `.processed_files.json`, records which inputs already have an output, so a rerun skips them.
- **Class-based downloader** (`YoutubeTranscriptDownloader.py`). It cleans file names and transcript text, and formats times. It decides, per video URL, whether a transcript can be fetched. It also turns a list file into URLs and finds duplicate transcripts by SHA-1.
- **Legacy downloader** (`YoutubeTranscriptDownloader/YoutubeTranscriptDownloader.py`). This is the older function-based version of the same helpers. It adds the `hh:mm` duration format of its channel listing.

## Modules

| module | models |
|---|---|
| `PyText` | The Python `str` behaviour the tools rely on: `strip()`, the `isspace` set, ASCII `\w`, slices, `str(n)`, `f"{n:02}"`, `split`, `posixpath.join` and `basename`. |
| `JsonValue` | The decoded JSON values the tools inspect. |
| `FilenameRewrites` | The five `re.sub` steps shared by both `_sanitize_filename`s, and the loop that applies them. |
| `AiTranscriptProcessor` | The processor as a `Processor` class over a `FileSystem` class that holds the written documents and the ledger file. |
| `VideoUrls` | List files turned into watch URLs, and the video-ID search. |
| `DuplicateScan` | The SHA-1 duplicate scan. |
| `TranscriptDownloader` | The class-based downloader, as a `Downloader` class. |
| `LegacyDownloader` | The legacy helpers. |

Things outside the core become parameters:

- the AI call is the sequence of outcomes its attempts would have;
- `json.loads` is a decoder function;
- `fetch_video_metadata` is a function from video ID to dictionary;
- `compute_sha1` is a function from path to an optional digest;
- `os.walk` is the list of `(root, files)` pairs it yields;
- the existing paths are a set;
- a list file is the CSV rows or the text lines that Python would read from it;
- `datetime.now()` is a string argument.

## Model

| member | source | states |
|---|---|---|
| FilenameRewrites.RunReplacements | AiTranscriptProcessor.py:74-84 | The replacement loop applies the five substitutions in order. |
| FilenameRewrites.CleanName | AiTranscriptProcessor.py:74-86 | The cleaned title holds only `\w`, `-` and space. It has no `_` and no `:`, and no whitespace at either end. |
| FilenameRewrites.Filter | AiTranscriptProcessor.py:76 | `re.sub` with a one-character class drops exactly the rejected characters. Every character of the result is an accepted character of the text, every accepted character of the text is in the result, and the text never gets longer. |
| FilenameRewrites.FilterCount | AiTranscriptProcessor.py:76 | Each accepted character occurs in the result exactly as often as in the text. |
| FilenameRewrites.FilterAppend | AiTranscriptProcessor.py:76 | Filtering a concatenation filters each part, so the kept characters stay in their order. |
| FilenameRewrites.FilterFilter | YoutubeTranscriptDownloader.py:137-138 | Two removals in a row keep exactly the characters both of them accept. |
| FilenameRewrites.CollapseWithoutRuns | AiTranscriptProcessor.py:79 | ` +` → ` ` leaves a text without double spaces unchanged. |
| FilenameRewrites.UnderscoresToSpaces | AiTranscriptProcessor.py:77 | `( *)_( *)` → `\1 \2`: every `_` becomes a space and every other character stays where it is. |
| FilenameRewrites.ColonsToDashesChars | AiTranscriptProcessor.py:78 | `( *)[:]( *)` → ` - ` leaves no colon, and the only characters it adds are spaces and dashes. |
| FilenameRewrites.ColonBetween | AiTranscriptProcessor.py:78 | `x: y` becomes `x - y` when `x` has no space or colon and `y` has no colon and does not start with a space. |
| FilenameRewrites.CollapseSpaceRuns | AiTranscriptProcessor.py:79 | ` +` → ` `: no two spaces in a row remain. The result is empty only for an empty text, starts with a space exactly when the text does, and holds only characters of the text. |
| FilenameRewrites.CollapseSpaceRunsKeepsOthers | AiTranscriptProcessor.py:79 | Every character other than a space survives ` +` → ` `, in order and as often as it occurs. |
| FilenameRewrites.CollapseSpaceRunsAppend | AiTranscriptProcessor.py:79 | Cut next to a character other than a space, the text collapses as its two sides do apart. |
| FilenameRewrites.CollapseSpaceRunsRun | AiTranscriptProcessor.py:79 | A run of spaces between two other characters becomes exactly one space, and each side collapses as it would alone. |
| AiTranscriptProcessor.Processor.SanitizeFilename | AiTranscriptProcessor.py:58-86 | A non-string becomes `str(title)`. A string becomes its cleaned form: name characters only, no `_` or `:`, stripped. |
| AiTranscriptProcessor.SanitizeExample | AiTranscriptProcessor.py:67-69 | `_sanitize_filename("Hello: World!") == "Hello - World"`. |
| AiTranscriptProcessor.ColonBetweenWords | AiTranscriptProcessor.py:74-86 | For any two plain words and a dropped punctuation mark `p`, `a + ": " + b + p` cleans to `a + " - " + b`. |
| AiTranscriptProcessor.SanitizeNotIdempotent | AiTranscriptProcessor.py:74-86 | Cleaning twice can differ from cleaning once: `a ! b` → `a  b` → `a b`, because step 4 runs before step 5 drops characters. |
| AiTranscriptProcessor.NotIdempotentExample | AiTranscriptProcessor.py:74-86 | `"a ! b"` cleans to `"a  b"`, and that cleans to `"a b"`. |
| AiTranscriptProcessor.CombineLayout | AiTranscriptProcessor.py:125-127 | The joined transcript is each segment text in order, with exactly one space between consecutive texts and nothing else. |
| AiTranscriptProcessor.CombineEmpty | AiTranscriptProcessor.py:125-127 | An empty transcript joins to `""`. |
| AiTranscriptProcessor.CombineLength | AiTranscriptProcessor.py:125-127 | The joined text ends exactly where the last segment's text ends: at that segment's offset plus its length. |
| AiTranscriptProcessor.CombineTextAt | AiTranscriptProcessor.py:125-127 | Segment `i`'s text appears in the joined text at its offset, the lengths of the earlier texts plus one space for each. |
| AiTranscriptProcessor.CombineSpaceAfter | AiTranscriptProcessor.py:125-127 | Every segment but the last is followed by one space. |
| AiTranscriptProcessor.RetryFrom | AiTranscriptProcessor.py:172-201 | At most `MAX_RETRIES` = 3 attempts. Only timeouts lead to another attempt. A reply ends the loop with that reply, and a non-timeout failure ends it with none. |
| AiTranscriptProcessor.AllTimeouts | AiTranscriptProcessor.py:192-196 | Three timeouts give no reply after exactly three attempts. |
| AiTranscriptProcessor.FailureStops | AiTranscriptProcessor.py:199-201 | Any other failure ends the loop at once, without a reply. |
| AiTranscriptProcessor.Processor.RequestReply | AiTranscriptProcessor.py:172-201 | The loop computes exactly `RetryFrom` from the first attempt. |
| AiTranscriptProcessor.TrimReply | AiTranscriptProcessor.py:217-220 | The trimmed reply is empty, or starts with `{` and ends with `}`. |
| AiTranscriptProcessor.TrimReplySpan | AiTranscriptProcessor.py:217-220 | The trimmed reply runs from the first `{` to just past the last `}`. |
| AiTranscriptProcessor.TrimReplyEmpty | AiTranscriptProcessor.py:217-220 | Without a `{` before some `}`, the trimmed reply is empty. |
| AiTranscriptProcessor.TrimReplyExample | AiTranscriptProcessor.py:217-220 | Text around the JSON body is cut off. |
| AiTranscriptProcessor.TrimReplyWrapped | AiTranscriptProcessor.py:217-220 | A `{...}` body with no `{` before it and no `}` after it is exactly what the trimming keeps. |
| AiTranscriptProcessor.LengthGateIsStrict | AiTranscriptProcessor.py:242-252 | With the default minimums 20/100/500, lengths equal to a minimum fail the gate and lengths one above pass. |
| AiTranscriptProcessor.Processor.constructor | AiTranscriptProcessor.py:24-26 | The minimum lengths are 20, 100 and 500. |
| AiTranscriptProcessor.AcceptReply | AiTranscriptProcessor.py:203-278 | An accepted reply is non-empty and decodes. The document has `title`, `summary` and `content`, and passes the length gate. The file name and path come from the cleaned title and the metadata's `channel_name`. |
| AiTranscriptProcessor.RejectsIncompleteReply | AiTranscriptProcessor.py:221-240 | A reply that does not decode, lacks a key, or has no `{...}` span is rejected. |
| AiTranscriptProcessor.AcceptsCompleteReply | AiTranscriptProcessor.py:221-255 | A decodable reply with all three keys that passes the gate is accepted when `channel_name` is present. |
| AiTranscriptProcessor.OutputPathShape | AiTranscriptProcessor.py:255-264 | The document goes to `processed/<channel>/<title>.json`, or to `processed/<title>.json` when the channel cleans to nothing. Its base name is the returned `filename`. |
| AiTranscriptProcessor.Processor.ReformatTranscript | AiTranscriptProcessor.py:129-279 | On rejection nothing is written. On acceptance exactly the decoded reply is written at the returned path. The only new paths are `processed`, the channel directory and that path, and the ledger is untouched. |
| AiTranscriptProcessor.LoadLedger | AiTranscriptProcessor.py:284-289 | A missing or undecodable ledger reads as empty. |
| AiTranscriptProcessor.RecordSuccess | AiTranscriptProcessor.py:314-318 | Recording sets the input's base name to the output path and date, and keeps every other entry. |
| AiTranscriptProcessor.RecordedIsSkipped | AiTranscriptProcessor.py:296-301 | After a success is recorded and its output exists, the input is skipped. Other inputs keep their status. |
| AiTranscriptProcessor.StaleEntryIsReprocessed | AiTranscriptProcessor.py:296-306 | An entry whose output file is gone does not cause a skip. |
| AiTranscriptProcessor.Processor.ProcessFile | AiTranscriptProcessor.py:281-322 | An input whose ledger entry points at an existing output is skipped with no change. Otherwise it is reformatted. Only a success writes the document, adds exactly `processed`, the channel directory and the output path to the existing paths, and records the base name in the ledger. |
| AiTranscriptProcessor.FileSystem.WriteDocument | AiTranscriptProcessor.py:259-265 | `makedirs` plus `json.dump`: the path and its directories exist, and the document is stored at the path. |
| AiTranscriptProcessor.FileSystem.WriteLedger | AiTranscriptProcessor.py:319-320 | The ledger file holds the new entries, and nothing else changes. |
| TranscriptDownloader.Downloader.constructor | YoutubeTranscriptDownloader.py:41 | The default file-name length is 50. |
| TranscriptDownloader.Downloader.SanitizeFilename | YoutubeTranscriptDownloader.py:110-129 | A non-string becomes `str(name)`. A string becomes the cleaned name cut to `max_length`, which defaults to the configured length. The result is within the limit, holds name characters only, and does not start with whitespace. |
| TranscriptDownloader.SanitizeText | YoutubeTranscriptDownloader.py:131-140 | An empty text gives `""`. The result has no regex metacharacter and no astral character. Its only whitespace is single spaces, never two in a row and never at the ends. Every character came from the input or is a space. Leaving out the spaces, the result is exactly the input's characters that are neither metacharacters, astral nor whitespace, in order. |
| TranscriptDownloader.SanitizeTextRun | YoutubeTranscriptDownloader.py:131-140 | A run of whitespace between two kept characters becomes exactly one space, and the text on each side is cleaned as it would be alone. |
| TranscriptDownloader.SanitizeTextIdempotent | YoutubeTranscriptDownloader.py:131-140 | Cleaning a cleaned text changes nothing. |
| TranscriptDownloader.SanitizedFixed | YoutubeTranscriptDownloader.py:131-140 | A text that already has the cleaned form (no metacharacter, no astral character, single inner spaces, stripped) is left unchanged. |
| TranscriptDownloader.SanitizeTextExample | YoutubeTranscriptDownloader.py:134-140 | `"(a)"` cleans to `"a"`. |
| TranscriptDownloader.CollapseWhitespace | YoutubeTranscriptDownloader.py:136-139 | `\s+` → ` `: no two whitespace characters in a row, and every whitespace becomes a plain space. The result is empty only for an empty text and starts with whitespace exactly when the text does. |
| TranscriptDownloader.CollapseWhitespaceKeepsOthers | YoutubeTranscriptDownloader.py:136-139 | Every character that is not whitespace survives `\s+` → ` `, in order and as often as it occurs. |
| TranscriptDownloader.CollapseWhitespaceRun | YoutubeTranscriptDownloader.py:136-139 | A run of whitespace between two other characters becomes exactly one space, and each side collapses as it would alone. |
| TranscriptDownloader.Truncate | YoutubeTranscriptDownloader.py:145 | `int(x)` truncates toward zero. |
| TranscriptDownloader.Divmod | YoutubeTranscriptDownloader.py:146-147 | Minutes and seconds are in 0..59, and `h*3600 + m*60 + s` is the total. The hours are 0 exactly when the total is in 0..3599. |
| TranscriptDownloader.ParseTimeFormat | YoutubeTranscriptDownloader.py:142-152 | A non-number raises, and only a non-number raises. |
| TranscriptDownloader.ClockFields | YoutubeTranscriptDownloader.py:148-152 | `HH:MM:SS` from one hour up, `MM:SS` below it. Minutes and seconds are two digits each. |
| TranscriptDownloader.ClockRoundTrip | YoutubeTranscriptDownloader.py:142-152 | For non-negative input the formatted time reads back as `int(seconds)`. |
| TranscriptDownloader.ParseTimeFormatExample | YoutubeTranscriptDownloader.py:142-152 | 3725 gives `"01:02:05"`, and 59.9 gives `"00:59"`. |
| TranscriptDownloader.MetadataNeedsEveryKey | YoutubeTranscriptDownloader.py:206-219 | Metadata missing a required key, or holding `None`, `""` or `[]` under one, is invalid. |
| TranscriptDownloader.FetchSingleVideo | YoutubeTranscriptDownloader.py:187-236 | A URL without an ID is invalid. Otherwise the ID is the leftmost match. Valid provided metadata is used as it is. Invalid non-empty metadata is replaced by the API's. A download happens only with non-empty provided metadata. |
| TranscriptDownloader.FetchSingleVideoIntended | YoutubeTranscriptDownloader.py:187-191 | The described behaviour: a download happens exactly when valid metadata is provided or the API returns some. |
| TranscriptDownloader.IntendedAgreesOnValidMetadata | YoutubeTranscriptDownloader.py:205-221 | With valid provided metadata, the code and the described behaviour agree. |
| TranscriptDownloader.NoMetadataSkipsVideo | YoutubeTranscriptDownloader.py:205-236 | Without metadata the code skips a video that the API knows, while the described behaviour downloads it. |
| TranscriptDownloader.IntendedListDownloads | YoutubeTranscriptDownloader.py:187-191 | With the described behaviour, a list of IDs downloads each video the API knows. |
| TranscriptDownloader.Downloader.ProcessFileWithVideoUrls | YoutubeTranscriptDownloader.py:518-549 | A missing file does nothing, and an unreadable CSV processes no URL. Otherwise the URLs are exactly those built from the file's rows or lines. Each one is handed, in order, to the fetch without metadata, so none is downloaded. |
| TranscriptDownloader.FetchAll | YoutubeTranscriptDownloader.py:545-546 | One fetch without metadata per URL, in order, and none of them downloads. |
| TranscriptDownloader.Downloader.FindDuplicateTranscripts | YoutubeTranscriptDownloader.py:551-569 | A missing directory gives nothing. Otherwise the result is the scan over the `.json` files, with pairs + distinct hashes = files. |
| VideoUrls.CsvUrls | YoutubeTranscriptDownloader.py:531-535 | The header row is skipped and each later row's stripped first cell becomes a watch URL. No rows, or an empty row, raises. |
| VideoUrls.CellUrls | YoutubeTranscriptDownloader.py:534-535 | One watch URL per row, in order, built from the row's stripped first cell. |
| VideoUrls.LineUrls | YoutubeTranscriptDownloader.py:537-543 | One URL per line, in order, as each line reads on its own. |
| VideoUrls.TextUrls | YoutubeTranscriptDownloader.py:536-543 | One URL per line, in order: a stripped `https://` line is kept, anything else becomes a watch URL. |
| VideoUrls.UrlsFromFile | YoutubeTranscriptDownloader.py:526-543 | The `.csv` suffix alone selects the CSV or the text reading. |
| VideoUrls.LineUrlStable | YoutubeTranscriptDownloader.py:536-543 | Every line becomes an `https://` URL, and reading such a URL again as a line gives the same URL. |
| VideoUrls.ExtractVideoId | YoutubeTranscriptDownloader.py:195-203 | No ID exactly when the pattern matches nowhere. Otherwise the ID is 11 ID characters following `/` or `v=` at the leftmost match. |
| VideoUrls.FirstMatch | YoutubeTranscriptDownloader.py:198 | `re.search` finds the leftmost match position. |
| VideoUrls.WatchUrlRoundTrip | YoutubeTranscriptDownloader.py:532-543 | The ID of a built watch URL is the ID it was built from. |
| VideoUrls.ListedIdRoundTrip | YoutubeTranscriptDownloader.py:532-543 | A bare ID in a list file leads back to that ID. |
| DuplicateScan.FindDuplicates | YoutubeTranscriptDownloader.py:558-569 | The nested loops compute the scan of the matching files in walk order, with pairs + distinct hashes = files. |
| DuplicateScan.ScanDirectory | YoutubeTranscriptDownloader.py:562-569 | The inner loop continues the scan with the matching files of one directory, in order. |
| DuplicateScan.Candidates | YoutubeTranscriptDownloader.py:561-564 | Every hashed path ends with the wanted suffix. |
| DuplicateScan.ScanHashes | YoutubeTranscriptDownloader.py:565-567 | The dictionary holds exactly the hashes seen, each mapped to the first path that had it. |
| DuplicateScan.ScanCount | YoutubeTranscriptDownloader.py:558-567 | Number of pairs + number of distinct hashes = number of files. |
| DuplicateScan.ScanPairs | YoutubeTranscriptDownloader.py:565-567 | The pairs are `(later path, first path with the same hash)`, one for each repeat, in traversal order. |
| DuplicateScan.UnreadableFilesPaired | YoutubeTranscriptDownloader.py:613-623 | Two unreadable files are reported as duplicates of each other. |
| DuplicateScan.ScanReadableIsScanOfReadable | YoutubeTranscriptDownloader.py:558-567 | Skipping files without a digest is the same as scanning only the readable ones. |
| DuplicateScan.ReadablePairsShareDigest | YoutubeTranscriptDownloader.py:558-567 | In the corrected scan, every pair shares a real digest. |
| DuplicateScan.UnreadableFilesNotPaired | YoutubeTranscriptDownloader.py:613-623 | In the corrected scan, two unreadable files are not paired. |
| LegacyDownloader.SanitizeFilename | YoutubeTranscriptDownloader/YoutubeTranscriptDownloader.py:93-97 | `max_length` defaults to 36. The result is never empty. It holds only `\w`, `-` and whitespace, drawn from the name. It is at most `max_length` long unless it is `"untitled"`, and then it does not start with whitespace. |
| LegacyDownloader.UntitledExactly | YoutubeTranscriptDownloader/YoutubeTranscriptDownloader.py:93-97 | `"untitled"` when the cleaned and cut name is empty, and that name itself otherwise. The cut is empty for `max_length` 0 or a name with no word character and no `-`. |
| LegacyDownloader.DefaultLengthCut | YoutubeTranscriptDownloader/YoutubeTranscriptDownloader.py:93-96 | With the default `max_length`, a clean, stripped name longer than 36 characters keeps its first 36. |
| LegacyDownloader.CleanNameKept | YoutubeTranscriptDownloader/YoutubeTranscriptDownloader.py:93-97 | A clean, stripped name within the limit is kept as it is. |
| LegacyDownloader.TrailingSpaceAfterCut | YoutubeTranscriptDownloader/YoutubeTranscriptDownloader.py:96 | The cut comes after the strip, so `a b` cut just after the space ends in that space. |
| LegacyDownloader.DurationFormat | YoutubeTranscriptDownloader/YoutubeTranscriptDownloader.py:125-135 | Any `PT[nH][nM][nS]` formats as zero-padded hours and minutes. A missing part reads as 0, and seconds are dropped. |
| LegacyDownloader.DurationReadBack | YoutubeTranscriptDownloader/YoutubeTranscriptDownloader.py:125-135 | The `hh:mm` text splits into two numerals whose values are the duration's hours and minutes. |
| LegacyDownloader.FormatDuration | YoutubeTranscriptDownloader/YoutubeTranscriptDownloader.py:127-130 | Text that does not start with `PT` gives `"00:00"`. |
| LegacyDownloader.FormatDurationHoursMinutes | YoutubeTranscriptDownloader/YoutubeTranscriptDownloader.py:125-135 | `"PT1H2M30S"` gives `"01:02"`. |
| LegacyDownloader.FormatDurationNoCarry | YoutubeTranscriptDownloader/YoutubeTranscriptDownloader.py:125-135 | `"PT90M"` gives `"00:90"`: the minutes are copied, not normalised. |
| LegacyDownloader.FormatDurationDays | YoutubeTranscriptDownloader/YoutubeTranscriptDownloader.py:127-130 | `"P1DT1H"` gives `"00:00"`. |
| LegacyDownloader.Designator | YoutubeTranscriptDownloader/YoutubeTranscriptDownloader.py:127-128 | An optional `(\d+)X` group reads a digit run followed by its designator, and otherwise consumes nothing. |
| LegacyDownloader.Unquote | YoutubeTranscriptDownloader/YoutubeTranscriptDownloader.py:243-244 | A path that starts and ends with `"` loses exactly one character at each end, and a lone `"` gives `""`. Any other path is kept. |
| LegacyDownloader.QuotedPathUnwrapped | YoutubeTranscriptDownloader/YoutubeTranscriptDownloader.py:243-244 | `"path"` becomes `path`. |
| LegacyDownloader.UnquotedPathKept | YoutubeTranscriptDownloader/YoutubeTranscriptDownloader.py:243-244 | A path not wrapped in quotes is kept. |
| LegacyDownloader.ProcessFileWithVideoUrls | YoutubeTranscriptDownloader/YoutubeTranscriptDownloader.py:238-273 | A missing unquoted path does nothing, and an unreadable CSV looks up no URL. Otherwise the URLs are those the class version builds from the file, and each one's video ID is looked up in order. |
| LegacyDownloader.ReadPath | YoutubeTranscriptDownloader/YoutubeTranscriptDownloader.py:240-244 | The typed path is stripped and then loses one pair of surrounding quotes. |
| LegacyDownloader.FindVideoIds | YoutubeTranscriptDownloader/YoutubeTranscriptDownloader.py:142-148 | Each URL, in order, is searched for its video ID with the same pattern as the class version. |
| LegacyDownloader.FindDuplicateTranscripts | YoutubeTranscriptDownloader/YoutubeTranscriptDownloader.py:276-294 | The same scan over `.txt` files. The typed directory is not stripped. |
| PyText.Strip | AiTranscriptProcessor.py:86 | `str.strip()` removes exactly the leading and trailing whitespace, keeping the middle unchanged. |
| PyText.StripAroundSpace | YoutubeTranscriptDownloader.py:140 | Around one space with another character on each side, stripping the whole strips each side apart. |
| PyText.SliceTo | YoutubeTranscriptDownloader.py:129 | `s[:n]` is a prefix of length `min(n, len(s))`. A negative `n` counts from the end. |
| PyText.ParsePad2 | YoutubeTranscriptDownloader.py:148-152 | `f"{n:02}"` reads back as `n`. |
| PyText.Basename | AiTranscriptProcessor.py:292 | `os.path.basename` is the part after the last `/`. |
| PyText.PathJoin | AiTranscriptProcessor.py:258-263 | `os.path.join` returns the second part when it is absolute. Otherwise the result starts with the first part and ends with the second. |

## Left out

- Unicode `\w` and `\d` are not modelled. The model uses their ASCII parts, letters, digits and `_`, so names with non-ASCII letters are cleaned more than Python would clean them. `\s` and `str.strip()` use the full `str.isspace` set.
- Provider selection (`provider`, `set_provider`, `_set_client`) and prompt building (`_create_system_prompt`, the prompt text) are outside the core. The AI call is given as its sequence of outcomes.
- The `model_extra` error check is not modelled. It depends on the SDK's response object, and a reply with that error is treated like any other failed reply.
- The one-second sleep between retries and the 30-second timeout are not modelled. They only decide whether an outcome is a timeout.
- Files, directories, writing `duplicates.txt`, the logs, the GUIs, `prettyPrint`, the console menus and all network calls are I/O. They are represented by the `FileSystem` class, by sets of existing paths, and by functions given as parameters.
- The regex patterns in the configuration file can override the defaults. The model uses the default patterns and the default file-name lengths (50 and 36).
- AiTranscriptProcessor.Processor.ReformatTranscript: a failing `os.makedirs` or `open` inside the `try` makes the source return `None` with nothing recorded. `FileSystem.WriteDocument` always succeeds, so the model does not capture that failure path.
- FilenameRewrites.Filter: its own contract states the characters kept, in both directions, and the length bound, but not their order or their number. `FilterAppend` states the order and `FilterCount` the number; they are lemmas beside it, not clauses of its contract.
- FilenameRewrites.CollapseSpaceRuns: its own contract does not state that other characters survive or that a run becomes one space. `CollapseSpaceRunsKeepsOthers` and `CollapseSpaceRunsRun` state both.
- TranscriptDownloader.CollapseWhitespace: its own contract does not state that other characters survive or that a run becomes one space. `CollapseWhitespaceKeepsOthers` and `CollapseWhitespaceRun` state both.
- A `json.loads` result that is not an object, and transcript records without `metadata` or `text`, are not modelled. Decoding is modelled as giving an object or nothing.
- Float infinity and NaN in `parse_time_format` are not modelled. `int(x)` raises on them.
- `bool` passes the number check of `parse_time_format` as the integers 0 and 1. `IntSeconds` covers this case.
- `parse_iso8601_duration`, `fetch_channel_videos`, `fetch_playlist_videos`, `get_channel_id_from_url` and `save_transcript` are outside the core.
- The downloader class calls `self.sanitize_filename` (YoutubeTranscriptDownloader.py:314, 485, 584, 585), but it defines only `_sanitize_filename` (line 110). Those calls would raise `AttributeError`, so `save_transcript` cannot succeed. They sit in functions outside the core and are not modelled.
- A list file whose path exists but cannot be opened or decoded, such as a directory or a file that is not valid UTF-8, makes `process_file_with_video_urls` catch the error and process no URL (YoutubeTranscriptDownloader.py:522, 530, 547-549; the legacy version at YoutubeTranscriptDownloader/YoutubeTranscriptDownloader.py:246, 254, 272-273). The model reads a text list file as its lines and always succeeds; only an unreadable CSV gives `None`.
- The transcript download in both `fetch_single_video`s is not modelled. Its outcome is reduced to the decision of whether a download happens.
- The reformatted-document lengths are `len()` of decoded values. A value whose `len()` raises makes the processor return nothing, and the model does the same.
- The AI processor's `_sanitize_filename` is not idempotent. The code keeps `( *)[:]( *)` → ` - ` and ` +` → ` ` before it drops invalid characters, so `"a ! b"` → `"a  b"` → `"a b"`. The model follows the code and proves that, in `SanitizeNotIdempotent`.
- An empty reply, or one that fails to decode or validate, is not retried. In the code only `asyncio.TimeoutError` leads to another attempt, and the model follows the code.

## Findings

| source | as written | input that shows it | evidently intended | confidence | as-written member | corrected member |
|---|---|---|---|---|---|---|
| YoutubeTranscriptDownloader.py:205-236 | Provided metadata is checked, and replaced from the API, only when it is truthy. When it is `None` or `{}` the video is skipped without asking the API. `process_file_with_video_urls` always calls without metadata, so no listed video is ever downloaded. | `fetch_single_video("https://www.youtube.com/watch?v=<id>")` with no metadata, for a video the API knows | The docstring says metadata is fetched from the API when none is provided | high, not executed | TranscriptDownloader.NoMetadataSkipsVideo | TranscriptDownloader.FetchSingleVideoIntended |
| YoutubeTranscriptDownloader.py:613-623 | `compute_sha1` returns `None` for a file it cannot read, and `None` becomes a dictionary key like any digest. | two unreadable `.json` files in the searched tree | Files without a digest are neither remembered nor reported | medium, not executed | DuplicateScan.UnreadableFilesPaired | DuplicateScan.ReadablePairsShareDigest |
