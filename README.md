# Verified model of the yt-dlp Telegram bot's decision logic

The bot (`main.ts`) takes text messages from one allowed Telegram user.
It downloads the YouTube video a message names with `yt-dlp`, uploads the
file to an S3-compatible bucket (DigitalOcean Spaces) and deletes the local
copy. This project models the deterministic logic inside that glue and
proves properties of it:

- **JsText** (`js_text.dfy`): the JavaScript string primitives the bot relies on.
  - Line terminators, which `.` in a regular expression does not match.
  - `String.prototype.trim`, with JavaScript's white-space set.
  - `split` and `join`.
- **YouTubeUrl** (`youtube_url.dfy`): `isValidYouTubeUrl`.
  - A small scanner, proved equal to a declarative reading of
    `^(https?://)?(www\.)?(youtube\.com|youtu\.be)/.+$`.
- **DownloadLog** (`download_log.dfy`): the `close` handler's choice of the downloaded path.
  - Three patterns are tried in order. Each takes its leftmost match: a lazy
    group for the Merger line, a greedy one for Destination, and a greedy
    one that backs off for "has already been downloaded".
  - The group is trimmed, and the exit code is checked first.
  - Each pattern is a hand-written scanner, proved against a declarative
    statement of what the regular-expression engine matches.
- **DownloadProcess** (`download_process.dfy`): `downloadVideo` as a method over the
  event sequence the child process and the timer deliver.
  - `stdout += chunk` for each stdout chunk.
  - The promise settles on the first `close`, `error` or timer event.
- **StorageKey** (`storage_key.dfy`): the object key of `uploadToSpaces`, built from `split("/").pop()`.
- **StartupConfig** (`startup_config.dfy`): the `missingVars` list and the startup throw.
- **TextHandler** (`text_handler.dfy`): the `text` handler.
  - The classification of a message.
  - As a method, the sequence of replies, storage writes and deletions of
    one request, through its `try`/`catch`/`finally`.

The Merger pattern in the code is `\[Merger\] Merging formats into "(.+?)"`.
The `[Merger] ` lead is part of the pattern, so the model requires it too.

## Model

| member | source | states |
|---|---|---|
| JsText.TrimStartIndex | main.ts:87 | the leading cut of `trim`: everything before it is trimmable, and it is at the end or at a non-trimmable character |
| JsText.TrimEndIndex | main.ts:87 | the trailing cut of `trim`: everything from it on is trimmable, and the character before it, if any in range, is not |
| JsText.Trim | main.ts:87 | the result is the input with a maximal run of JavaScript white space and line terminators removed at each end: what is removed is all trimmable, and the result neither starts nor ends with a trimmable character |
| JsText.TrimKeepsLineFree | main.ts:87 | trimming a text without line terminators yields a text without line terminators |
| JsText.TrimEnds | main.ts:87 | a trimmed text is empty or starts and ends with a non-trimmable character |
| JsText.TrimOfTrimmed | main.ts:87 | trimming is the identity on a text whose ends are not trimmable |
| JsText.TrimAllTrimmable | main.ts:87 | a text made only of white space trims to the empty string |
| JsText.IsLineTerminator | main.ts:42 | the line terminators LF, CR, U+2028 and U+2029: the characters that `.` refuses in the regular expressions at main.ts:42, 77, 80 and 84 |
| JsText.IsJsWhiteSpace | main.ts:87 | ECMAScript WhiteSpace: TAB, VT, FF, ZWNBSP and every space separator (category Zs) |
| JsText.IsTrimmable | main.ts:87 | the characters `trim` removes at either end: WhiteSpace and the line terminators |
| JsText.LineEnd | main.ts:80 | the end of the current line: the first line terminator at or after i, or the end of the text, with none before it |
| JsText.Join | main.ts:28 | `join`: the parts in order with the separator between each neighbouring pair, the empty string for no parts, and the single part alone for one |
| JsText.Split | main.ts:107 | `split` yields at least one part, and no part contains the separator |
| JsText.JoinSplit | main.ts:107 | joining the parts of a split with the separator gives back the original text |
| JsText.LastPartIsTail | main.ts:107 | the last part (`pop()`) is a suffix of the text, either all of it or preceded by the separator, and shorter than the text when there are several parts |
| YouTubeUrl.MatchesUrlPattern | main.ts:42 | the declarative reading of the regular expression: some choice among no scheme, `http://` and `https://`, among no subdomain and `www.`, and between `youtube.com` and `youtu.be`, followed by `/` and one or more characters none of which is a line terminator, up to the end |
| YouTubeUrl.IsValidYouTubeUrl | main.ts:41-44 | accepts exactly the texts made of an optional `http://` or `https://`, an optional `www.`, `youtube.com` or `youtu.be`, `/`, then one or more characters none of which is a line terminator |
| YouTubeUrl.ScannerCorrect | main.ts:42 | the scanner's result agrees with the declarative URL pattern in both directions |
| YouTubeUrl.ScannedHead | main.ts:42 | whenever the pattern matches, the scanner's scheme, subdomain and host choices give a matching head |
| YouTubeUrl.AcceptsEveryShape | main.ts:42 | every choice of scheme, subdomain and host followed by a non-empty path without line terminators is accepted |
| YouTubeUrl.RejectsEmptyPath | main.ts:42 | `youtube.com/` with nothing after the slash is rejected |
| YouTubeUrl.RejectsUpperCaseHost | main.ts:42 | matching is case-sensitive: `YouTube.com/…` is rejected |
| YouTubeUrl.RejectsOtherSubdomain | main.ts:42 | `https://m.youtube.com/watch` is rejected: the mobile subdomain `m.` is not the optional `www.` |
| YouTubeUrl.RejectsLineBreak | main.ts:42 | a URL whose tail contains a line break is rejected, since `.` does not match it and `$` is not multi-line |
| DownloadLog.MatchAt | main.ts:77-84 | the engine started at p succeeds with capture end e: the literal lead at p, then one or more non-line-terminators; Merger stops at the first `"` (lazy), Destination runs to the end of the line (greedy), already-downloaded ends where the tail text follows and at no later end on the line (greedy with back-off) |
| DownloadLog.LeftmostMatch | main.ts:77-84 | `match` without the `g` flag: a match at p and at no earlier start position |
| DownloadLog.MatchAtUnique | main.ts:77-84 | at one starting position each pattern has at most one capture end (lazy shortest, greedy longest, backed-off last tail) |
| DownloadLog.LeftmostUnique | main.ts:77-84 | a pattern's leftmost match is unique |
| DownloadLog.ClosingQuote | main.ts:77 | the lazy `(.+?)"` group ends at the first `"` after its first character on the same line, and is absent when that line has none |
| DownloadLog.LastTailBefore | main.ts:84 | the greedy `(.+)` backs off to the last position on the line where ` has already been downloaded` follows |
| DownloadLog.CaptureEnd | main.ts:77-84 | a pattern started at p succeeds with exactly the capture end the engine would give, or fails when no end fits |
| DownloadLog.SearchFrom | main.ts:77-84 | scanning start positions from `from` finds the first match at or after it, or proves there is none |
| DownloadLog.Search | main.ts:77-84 | `match` without the `g` flag: the leftmost match of the pattern, and no result exactly when the pattern matches nowhere |
| DownloadLog.Group | main.ts:87 | `match[1]`: the text of a match after the pattern's literal lead, up to the capture end |
| DownloadLog.FirstGroup | main.ts:76-86 | the ordered chain: the Merger group if Merger matches, else the Destination group if Destination matches, else the already-downloaded group, else nothing |
| DownloadLog.FirstGroupIsLeftmost | main.ts:76-86 | the chosen group is that of the first pattern in the order Merger, Destination, already-downloaded that matches, at its leftmost match, and holds no line terminator |
| DownloadLog.ExtractPath | main.ts:74-97 | a non-zero or missing exit code gives "Download failed" whatever stdout holds; exit code 0 gives a path or "Could not determine downloaded file path"; a path never contains a line terminator |
| DownloadLog.ExtractPathPriority | main.ts:75-92 | with exit code 0, a Merger match wins over Destination and already-downloaded lines wherever they are, Destination wins over already-downloaded, the path is the trimmed group of the winner's leftmost match, and the error arises exactly when no pattern matches |
| DownloadLog.NoQuoteNoMerger | main.ts:77 | a buffer without a `"` has no Merger match |
| DownloadLog.MergerLineMatch | main.ts:77 | a Merger lead, a quote-free name without line terminators and a `"` make a Merger match whose capture is the name |
| DownloadLog.MergerLeadFirst | main.ts:77 | no Merger match starts in quote-free text before a Merger lead |
| DownloadLog.MergerLineLeftmost | main.ts:77 | a Merger line with no `"` before it is the leftmost Merger match, capturing its name |
| DownloadLog.MergerLineAt | main.ts:75-87 | with exit code 0, a Merger line with no `"` before it yields its trimmed name as the path |
| DownloadLog.MergerLineWins | main.ts:76-87 | a Merger line after quote-free text (for example the Destination lines of the separate formats) yields its quoted name as the path |
| DownloadLog.DestinationLineLeftmost | main.ts:80 | a Destination line at the start of the buffer is the leftmost Destination match, capturing the rest of its line |
| DownloadLog.DestinationLineAt | main.ts:79-87 | with exit code 0, a quote-free buffer starting with a Destination line yields the rest of that line, trimmed |
| DownloadLog.DestinationLineWins | main.ts:79-87 | without a Merger line, a leading Destination line yields the rest of its line, whatever quote-free lines follow |
| DownloadLog.BlankDestinationIsEmptyPath | main.ts:80-87 | a Destination line whose rest is only white space yields the empty path as a success |
| DownloadProcess.StdoutOf | main.ts:57-66 | the buffer starts empty and each stdout chunk is appended in arrival order; stderr and the other events add nothing |
| DownloadProcess.Settles | main.ts:50-102 | the events whose handlers resolve or reject the promise: `close`, `error` and the timer; stdout and stderr chunks do not settle it |
| DownloadProcess.Outcome | main.ts:50-102 | a close settles with the path extraction on the stdout so far, a spawn error with its message, the timer with "Download timed out" |
| DownloadProcess.Settlement | main.ts:48-102 | the promise is pending until the first close, error or timer event, then holds that event's outcome on the stdout received before it |
| DownloadLog.AlreadyLineNoOther | main.ts:77-80 | a buffer that is one already-downloaded line whose name has no `"` or `[` and does not start with `D` matches neither the Merger nor the Destination pattern |
| DownloadLog.AlreadyLineLeftmost | main.ts:84 | such a line is the leftmost already-downloaded match, capturing the name |
| DownloadLog.AlreadyDownloadedLineWins | main.ts:82-87 | with exit code 0, such a line yields its name as the path |
| DownloadLog.GreedyTakesLastTail | main.ts:84-87 | when the name itself holds ` has already been downloaded`, the path is the whole name: the greedy group reaches the last occurrence of the tail text |
| DownloadLog.GreedySkipsEarlierTail | main.ts:84 | the end before the first of two occurrences of the tail text on a line is not a match |
| DownloadProcess.FirstSettling | main.ts:50-102 | the position of the first close, error or timer event, and none when there is no such event |
| DownloadProcess.DownloadVideo | main.ts:47-104 | running the data, close, error and timer handlers over the events, with `stdout += chunk` and settle-once, gives the outcome of the first settling event on the stdout received before it |
| DownloadProcess.StdoutStep | main.ts:65-66 | each stdout chunk is appended to the buffer, and no other event changes it |
| DownloadProcess.FirstSettlingStep | main.ts:50-102 | one more event keeps the first settling event, or becomes it when none has come yet |
| DownloadProcess.SettlementStep | main.ts:48-102 | a settled promise ignores later events; a pending one settles on a close, error or timer event |
| DownloadProcess.StdoutOfAppend | main.ts:66 | the buffer is a plain concatenation: the stdout of two stretches of events is the concatenation of their stdouts |
| DownloadProcess.SettlesOnFirst | main.ts:50-102 | the first settling event decides the outcome, whatever follows it |
| DownloadProcess.SettledStays | main.ts:48-102 | later events never change a settled outcome |
| DownloadProcess.FailedExitIgnoresOutput | main.ts:93-96 | a close with a non-zero or missing code as first settling event gives "Download failed" |
| DownloadProcess.TimerFirstTimesOut | main.ts:50-55 | the timer firing before close and error gives "Download timed out" |
| StorageKey.FileName | main.ts:107 | `split("/").pop()`: the last part of the split, which always exists |
| StorageKey.ObjectKey | main.ts:106-112 | the key is `yt-dlp/` followed by the path's last `/`-segment, which has no `/`, is a suffix of the path, is all of it or follows a `/`, and equals the path when it has no `/`; the error "Invalid file path, unable to determine file name." arises exactly for an empty path or one ending in `/` |
| StartupConfig.Falsy | main.ts:23 | JavaScript falsiness of a setting: undefined or empty text, NaN or 0 |
| StartupConfig.RequiredSettings | main.ts:13-20 | the six required settings with their names, in declaration order |
| StartupConfig.MissingVars | main.ts:22-24 | the list has one name per falsy setting |
| StartupConfig.MissingVarsListsFalsy | main.ts:22-24 | every falsy setting's name is listed, at the position given by the number of falsy settings declared before it (declaration order) |
| StartupConfig.MissingVarsOnlyFalsy | main.ts:22-24 | every listed name is the name of a falsy setting, the k-th falsy one in declaration order |
| StartupConfig.NoMissingVars | main.ts:22-26 | the list is empty exactly when no setting is falsy |
| StartupConfig.StartupCheck | main.ts:13-31 | startup fails exactly when one of the six required settings is falsy, and otherwise goes on with the environment unchanged |
| StartupConfig.OnlyUserIdMissing | main.ts:26-30 | with only a non-numeric user id, the error message names `ALLOWED_USER_ID` alone between its fixed head and tail |
| TextHandler.Classify | main.ts:116-133 | a sender other than the allowed id is unauthorized whatever the text; otherwise `hi` is a greeting, a text not of YouTube URL shape is invalid, and any other text is a download request for that text |
| TextHandler.ErrorReply | main.ts:142-145 | the catch block's reply: "Error: " and the message of an `Error`, or "Unknown error" for anything else thrown |
| TextHandler.Cleanup | main.ts:147-150 | the finally block: the file is deleted unless the path is undefined or empty |
| TextHandler.AfterDownload | main.ts:137-150 | after the spawn: nothing while the download is pending; a failed download replies its error; a downloaded path gets "Download complete...", then the key error reply, or the storage write followed by "Upload complete!" or the write's error reply, and then the cleanup |
| TextHandler.HandleText | main.ts:116-150 | unauthorized, greeting and invalid messages get exactly one reply and nothing else; a downloader is spawned exactly for a download request, after "Starting download...", and what follows is determined by the download's outcome and the storage write |
| TextHandler.FinishRequest | main.ts:137-150 | the `try`/`catch`/`finally` after the download, step by step, matches the outcome-level description and spawns nothing |
| TextHandler.RepliesAppend | main.ts:135-145 | the replies of two stretches of actions are the replies of each, in order |
| TextHandler.RepliesAfterDownload | main.ts:137-145 | success replies "Download complete. Uploading to Spaces..." then "Upload complete!"; a failure ends the replies at the failing step with "Error: " and its message |
| TextHandler.DeletesOnlyProducedPath | main.ts:147-150 | the local file is deleted exactly when the download produced a non-empty path, and as the last action |
| TextHandler.PutsOnlyNamedFile | main.ts:112-113 | an object is written only for a downloaded path with a non-empty file name, under that path's key |

## Left out

- Telegram transport is not modelled: `Telegraf`, reply delivery, `bot.launch`, `bot.stop` and the SIGINT handler. Replies are a returned list of actions.
- Spawning `yt-dlp` and its arguments are not modelled. The child is represented by the events it delivers, and `SpawnDownloader` records the spawn.
- `console.log` and `console.error` are not modelled. The stderr text is received and ignored.
- Killing the child when the timer fires (main.ts:51-53) is not modelled. The kill only produces later events, which a settled promise ignores.
- The clock and `clearTimeout` are not modelled: the timer is an event in the sequence.
- `DownloadProcess.DownloadVideo` takes stdout chunks as already-decoded strings. `data.toString()` decodes each chunk separately, and a multi-byte character split across chunks would decode differently. That is not modelled.
- The S3 SDK and `Bun.write` are reduced to one abstract outcome: written, or thrown.
- A failing `unlink` is not modelled. It rejects the handler's promise after all replies.
- Characters are Unicode scalar values, not UTF-16 code units. Astral characters such as the emoji in the startup message count as one character here.
- `Number(...)` for `ALLOWED_USER_ID` is reduced to NaN or an integer. Fractional and infinite values are not modelled. The falsy ones, NaN and 0, are kept.
- Concurrent handlers sharing `./downloads` are not modelled: each request is handled in isolation.
- File-name sanitisation is done by yt-dlp (`--restrict-filename`), not by this code, and is not modelled.
