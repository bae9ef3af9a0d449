# Guestbook core in Dafny

This project models the logic of a single-file PHP guestbook (`guestbook.php`).
Visitors post a name and a message. Entries are appended, one JSON record per
line, to `guestbook_data/entries.jsonl`, and the page shows them newest first.
A honeypot field, a session CSRF token and a per-client cooldown guard the form.

The model's modules follow the parts of that file:

- `Text` (text.dfy): PHP's `trim` and the `strtok($uri, '?')` used for the redirect. Strings are sequences of code points, so `u8len` (`mb_strlen`) is `|s|`.
- `Config` (config.dfy): the constants 50, 2000, 200 and 30, and the flash text.
- `EntryLog` (entry_log.dfy): the entry log as a sequence of lines. `ReadEntries` is the `read_entries` loop, proved against the specification function `ReadView`. The class `DataDir` holds the log and the rate-limit markers (marker name to mtime); its `StoreEntry` and `Stamp` change them.
- `Sessions` (session.dfy): the class `Session` (CSRF token and flash), `csrf_token`, `csrf_valid`, and the one-shot flash.
- `Validation` (validation.dfy): the five checks and the cooldown arithmetic. The error list is specified by the predicate `Describes`: it holds the failing checks exactly, ordered honeypot, token, name, message, cooldown. Lemmas prove that this fixes the list uniquely.
- `Guestbook` (guestbook.dfy): `HandleRequest`, the request flow of lines 99-164, plus two two-request scenarios.

These are parameters (`Env`): the clock, `REMOTE_ADDR`, the user agent, the random hex strings, SHA-256, `json_encode`/`json_decode`, and whether the log file can be opened and locked. `encode(e) == None` stands for a failed `json_encode`. `decode(t) == None` stands for a line whose `json_decode` is not an array. A redirect is the response `Redirect(location)`.

Three behaviours of `guestbook.php` are easy to miss, and the model keeps them:
- `csrf_token` replaces the stored token whenever PHP's `empty()` holds on it: when it is unset, `""` or `"0"`.
- The cooldown wait is exactly `cooldown - elapsed` seconds.
- `array_slice` with a negative limit drops that many records from the end.

The model departs from the code in one place: the request handler stores entries through the corrected `store_entry` described under "## Findings". The code as written is modelled beside it (`DataDir.StoreEntryAsWritten`).

## Model

| member | source | states |
|---|---|---|
| `Text.TrimSpec` | guestbook.php:104-107 | `trim` keeps the infix left after removing leading and trailing space, tab, LF, CR, NUL and VT. Only those characters are removed. A string made only of them becomes `""`. |
| `Text.StripQuery` | guestbook.php:155 | The redirect target never contains `?`. It is the longest `?`-free prefix of the URI once its leading `?` characters are skipped. For a URI that does not start with `?`, that is the prefix before the first `?`. |
| `EntryLog.LineRecord` | guestbook.php:83-86 | A line gives at most one record. It gives none exactly when the trimmed line is blank or does not decode. Otherwise it gives its decoded record. |
| `EntryLog.Decoded` | guestbook.php:82-87 | The scan yields at most one record per line. |
| `EntryLog.Reverse` | guestbook.php:93 | `array_reverse` keeps the length, and position `k` holds element `n-1-k`. |
| `EntryLog.Slice` | guestbook.php:93 | `array_slice($s, 0, $limit)` yields a prefix. It has `min(limit, n)` elements, or `max(0, n + limit)` for a negative limit. |
| `EntryLog.ReadEntries` | guestbook.php:77-94 | The line loop returns `ReadView`: the decodable non-blank lines, newest first, cut to `limit`. An unreadable file gives no records. |
| `EntryLog.DecodedAppend` | guestbook.php:82-87 | Reading a log in two parts gives the records of the first part followed by those of the second. |
| `EntryLog.DecodedSkipsBadLine` | guestbook.php:83-86 | A blank or undecodable line anywhere in the log is dropped. Every other record is kept, in order. |
| `EntryLog.DecodedMembers` | guestbook.php:82-87 | A record is read back if and only if some line is non-blank after trimming and decodes to it. |
| `EntryLog.ReadViewLength` | guestbook.php:93 | A read returns at most `limit` records, and never more than the log has lines. |
| `EntryLog.ReadViewFromLines` | guestbook.php:82-93 | Each record a read returns is the record of some non-blank, decodable line of the log. |
| `EntryLog.ReadAfterAppend` | guestbook.php:64-75 | After a decodable line is appended, a read with `limit >= 1` returns its record first. The old log's view, one shorter, follows. |
| `EntryLog.DataDir.StoreEntry` | guestbook.php:64-75 | The corrected `store_entry` (see "## Findings"), which the handler uses. A store succeeds if and only if the file can be opened, locked and written and the entry encodes. On success the log is the old log plus exactly that line; on failure it is unchanged. |
| `EntryLog.DataDir.StoreEntryAsWritten` | guestbook.php:69-74 | As written, success depends only on the file. A failed encoding appends an empty line. |
| `EntryLog.WrittenLine` | guestbook.php:69 | The line written is the entry's encoding. When encoding fails it is `""`, which trims to blank. |
| `EntryLog.DataDir.Stamp` | guestbook.php:150 | `touch` sets the client's marker to `now` and leaves the other markers unchanged. |
| `EntryLog.AsWrittenStoreLosesEntry` | guestbook.php:69-74 | After an as-written store whose encoding failed, every read equals the read of the old log. |
| `EntryLog.StoredEntryReadFirst` | guestbook.php:64-75 | The line the corrected store appends reads back as the entry, first, given a decoder that inverts the encoder. |
| `Sessions.PhpEmpty` | guestbook.php:50 | `empty()` holds for an unset token and for `"0"`. A token that is not empty is set and is neither `""` nor `"0"`. Every other set token, `"a"` included, is not empty. |
| `Sessions.CsrfValid` | guestbook.php:55-57 | Never valid without a session token. Valid exactly when the stored token equals the submitted one. |
| `Sessions.Session.CsrfToken` | guestbook.php:49-54 | A non-empty stored token is kept and returned. Otherwise the fresh token is stored and returned. The returned token always validates. |
| `Sessions.Session.ConsumeFlash` | guestbook.php:100-101 | Returns the flash and clears it. |
| `Sessions.Session.SetFlash` | guestbook.php:153 | Stores the success notice. |
| `Sessions.FlashShownOnce` | guestbook.php:100-101 | The first of two reads returns the stored flash and the second returns nothing. The token is untouched. |
| `Validation.CooldownWait` | guestbook.php:115-120 | A wait exists if and only if a marker exists and `now - mtime < cooldown`. The wait is `cooldown - elapsed` and is positive. |
| `Validation.WaitBounded` | guestbook.php:116-118 | With `0 <= elapsed`, the wait lies between 1 and `cooldown`. |
| `Validation.CollectViolations` | guestbook.php:122-137 | Every check runs. The list holds exactly the failing checks, ordered honeypot, token, name, message, cooldown (with its wait). |
| `Validation.DescribesEmpty` | guestbook.php:139 | The error list is empty if and only if every check passes. |
| `Validation.DescribesUnique` | guestbook.php:122-137 | The error list is determined by the inputs: two lists that describe the same POST are equal. |
| `Validation.HoneypotAlwaysRejected` | guestbook.php:123-125 | A honeypot that is not blank after trimming (line 107 trims it) always puts the spam error first, whatever the other fields hold. |
| `Validation.NameFieldValid` | guestbook.php:129-131 | A raw name passes if and only if it holds a non-trim character and is at most 50 code points once trimmed. |
| `Validation.MessageFieldValid` | guestbook.php:132-134 | A raw message passes if and only if it holds a non-trim character and is at most 2000 code points once trimmed. |
| `Validation.LengthBoundaries` | guestbook.php:15-16 | Names of 50 code points pass and names of 51 fail. Messages of 2000 pass and messages of 2001 fail. |
| `Guestbook.ClientIp` | guestbook.php:58-61 | The client address is `REMOTE_ADDR`, or `0.0.0.0` when it is unset. |
| `Guestbook.MarkerKey` | guestbook.php:110-112 | The marker is named by the SHA-256 of the client address. Clients without an address share the marker of `0.0.0.0`. |
| `Guestbook.NewEntry` | guestbook.php:140-146 | The stored entry carries the fresh id, the request time, the trimmed name and message, and the first 16 characters (all of a shorter hash) of the hash of address and user agent. |
| `Guestbook.Prefix16` | guestbook.php:145 | `substr($hash, 0, 16)` is a prefix of at most 16 characters. |
| `Guestbook.HandleRequest` | guestbook.php:99-164 | A redirect happens if and only if a POST passes every check and the store succeeds. Only then are the log, the marker and the flash changed. Otherwise the old flash is shown once and cleared. The page then lists the newest entries, carries a valid token and shows the ordered errors with the trimmed input. A passing POST whose store fails shows only the storage error. The store is the corrected one. |
| `Guestbook.PostThenGet` | guestbook.php:139-164 | An accepted POST followed by a GET shows the success notice once and the new entry first. |
| `Guestbook.SecondPostTooFast` | guestbook.php:115-120 | A second POST from the same client within 30 seconds is refused with the wait `30 - elapsed`, which lies in 1..30. Nothing more is stored. |

## Left out

- Guestbook.HandleRequest: uses the corrected store `DataDir.StoreEntry`. For a passing POST whose entry fails `json_encode` on a writable log, it shows the `StoreFailed` page and stamps and flashes nothing. The source writes an empty line, stamps the marker, sets the success flash and redirects while the entry is lost. That as-written store is `DataDir.StoreEntryAsWritten`, and `AsWrittenStoreLosesEntry` proves the loss; the as-written handler is not modelled.
- Bytes that are not valid UTF-8: PHP strings are bytes, but the model's strings are sequences of code points. Such input, and `mb_strlen` counting each bad byte as one character, appear only as `encode` returning `None`.

- HTML rendering (lines 169-295): `e`/`htmlspecialchars`, `nl2br` and the client-side character counter. The model stops at the inputs of the page (`Response.Page`).
- `json_encode`, `json_decode`, `hash('sha256')`, `random_bytes` and `bin2hex`: these are parameters. A decoded row is an `Entry`, so rows of other shapes are not told apart.
- `flock`, `fopen`, `fflush` and concurrent requests: each read and store is atomic. Failure to open or lock is the `writable`/`readable` flag. The check-then-stamp race is not modelled.
- Creating the directories and files, `umask` and `chmod` (lines 25-38): deployment I/O.
- `time()`: one `now` per request. The source reads the clock at lines 116 and 142, and `touch` reads it again; the model treats all three as the same second.
- `touch` failing silently (`@touch`): the stamp always succeeds.
- `filemtime` returning `false` for an existing marker: a marker is modelled only by its mtime.
- `u8len` falling back to `strlen` when mbstring is missing: the model assumes mbstring.
- `session_start`, `header`, `exit` and `$_SERVER`: passed in or returned. The redirect is `Redirect(location)`.
- Form fields sent as arrays, and the resulting casts and type errors: form fields are strings, and a missing field is `""`.
- The German wording of the error messages, including the data directory path in the storage error: errors are the `Violation` datatype.
- PHP's 64-bit integer bounds: integers are unbounded. Time differences stay far inside 64 bits.
- The file's split into lines: the log is a sequence of lines, and an encoded entry is taken to be one line (`json_encode` escapes line breaks).

## Findings

| source | as written | input that shows it | evidently intended | confidence | as-written member | corrected member |
|---|---|---|---|---|---|---|
| guestbook.php:69-74 | `json_encode` returns `false` on invalid UTF-8. `false . PHP_EOL` writes an empty line, and `store_entry` still returns `true`. The user is redirected with "Dein Eintrag wurde gespeichert", but reads skip the empty line, so the entry never appears. | a name containing the byte `0xFF` (`mb_strlen` counts it as one character, so validation passes) | report the failure, so the storage error is shown and nothing is stamped | medium, not executed | `EntryLog.AsWrittenStoreLosesEntry` | `EntryLog.DataDir.StoreEntry` |
