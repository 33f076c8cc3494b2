# php-tail in Dafny

A model of `drhino\Tail\Tail`, a rotation-aware `tail -f` for PHP. It follows a growing file and
passes newly appended bytes to the output. It survives log rotation (the path is replaced by a
new inode), truncation in place, and a symlink whose target changes. It tracks two inodes, one
for `path` and one for its one-level link target `realpath`. It keeps at most one read handle,
opened at end-of-file. Each poll cycle compares the file size with the handle position.

The project also models `retryAfter` from the companion stream client. That function turns a
`Retry-After` header into a reconnect delay: the header is delay-seconds or an HTTP-date
(section 10.2.3 of RFC 9110), and the delay is clamped to [1, 30] seconds.

Files:

- `wrappers.dfy`: `Option` and `Result`.
- `tail_state.dfy` (module `TailState`): the fields of a `Tail` object as a value, and `Env`,
  the filesystem's answers during one cycle. Pure functions specify `__construct`, `close`,
  `inode`, `filehandle` and one iteration of the `stream()` loop (`Cycle`). Lemmas cover
  single cycles.
- `tail_runs.dfy` (module `TailRuns`): consecutive cycles (`Run`) and lemmas about them:
  contiguous emission, a directory target, and the truncate-then-regrow scenario.
- `tail.dfy` (module `TailObject`): the class `Tail`. Its fields are updated in place, and each
  method is proved equal to its `TailState` function.
- `http_stream.dfy` (module `HttpStream`): `retryAfter` as a pure function of the response,
  a date parser and the current time.

The filesystem is a parameter. `Env.inodeOf` is `fileinode()` after `clearstatcache()`, which
follows links. `isLink`, `readlink` and `isDir` stand for the PHP calls of the same names.
`openAt` is the end-of-file offset that `fopen`+`fseek(SEEK_END)` leaves a new handle at.
`sizeOf` is `filesize()`. `tellOk` says whether `ftell()` succeeds. `passed` is the count that
`fpassthru()` reports. The reference parameter `&$ref` of `inode()` becomes a returned pair
`(close, newRef)`, and each caller stores `newRef` in the right field.

## Model

| member | source | states |
|---|---|---|
| `TailState.Construct` | Tail/Tail.php:40-47 | construction fails exactly for "" and "0" (PHP `empty()`); otherwise `path` is stored unchanged and everything else is reset |
| `TailObject.Tail.constructor` | Tail/Tail.php:40-47 | an accepted path gives the object `Construct` describes, satisfying the invariant |
| `TailState.Closed` | Tail/Tail.php:98-109 | `close()` leaves no handle, `realpath == ""` and both inodes at -1, whatever the prior state; `path` is kept |
| `TailState.CloseIdempotent` | Tail/Tail.php:98-109 | closing twice equals closing once; closing a reset object changes nothing |
| `TailObject.Tail.Close` | Tail/Tail.php:98-109 | the method leaves exactly the fields `Closed` gives |
| `TailState.InodeCheck` | Tail/Tail.php:181-206 | signals close iff the path cannot be stat'ed or (a handle is open and the inode differs from the reference); without a signal the reference equals the current inode; a missing path keeps the reference, otherwise the current inode is adopted |
| `TailObject.Tail.Inode` | Tail/Tail.php:181-206 | returns the signal and the new reference `InodeCheck` gives, reading whether a handle is open |
| `TailState.FileHandle` | Tail/Tail.php:119-170 | a missing path, or a changed inode under an open handle, stops the cycle; while the two tracked inodes differ, so does a vanished or changed link-target inode under an open handle; a usable handle has the path's inode current, the target's inode current or equal to the path's (the second check is skipped then), and is not a directory; an open handle is reused untouched; a new one is at end-of-file; open failure is the only exception; the invariant is kept |
| `TailObject.Tail.FileHandle` | Tail/Tail.php:119-170 | the method's new fields and reply are those of `TailState.FileHandle`, and a valid object stays valid |
| `TailState.Cycle` | Tail/Tail.php:62-86 | after any cycle an open handle has two known inodes; outside a fatal error the object is open or fully reset; a close happens iff the outcome is Reset or Truncated; emission covers [cursor, size) from the old cursor or from end-of-file at open, and leaves the cursor at the size; the cursor never moves back |
| `TailObject.Tail.Step` | Tail/Tail.php:62-86 | the method's new fields and outcome are those of `Cycle`, and the invariant holds |
| `TailState.SteadyIsReady` | Tail/Tail.php:119-170 | a handle whose identities still match and which is not a directory is reused with nothing changed |
| `TailState.SteadyCycle` | Tail/Tail.php:66-83 | on a steady handle: a smaller size closes; a larger one emits exactly [position, size) when the transfer count is `size - position` and is fatal otherwise; an equal size changes nothing |
| `TailState.RotationCloses` | Tail/Tail.php:193-201 | a new inode at `path` while a handle is open closes the object without emitting |
| `TailState.TargetRotationCloses` | Tail/Tail.php:140-146 | while the tracked inodes differ, a link target that vanished or has a new inode under an open handle closes the object |
| `TailState.MissingPathCloses` | Tail/Tail.php:185-191 | a path that cannot be stat'ed resets the object |
| `TailState.BaselineAdoption` | Tail/Tail.php:193-201 | with nothing open, a new inode is adopted without a close, and the same cycle opens at end-of-file with `realpath == path` and equal inodes |
| `TailState.PlainPathResolvesToItself` | Tail/Tail.php:133-137 | a non-link path resolves to itself and the two inodes are equal |
| `TailState.LinkResolvesOneLevel` | Tail/Tail.php:128-132 | a link resolves to the target `readlink()` names, one level only |
| `TailState.DirectoryResets` | Tail/Tail.php:148-152 | a resolved name that is a directory gets no handle, and the cycle resets |
| `TailState.NoReplayOnOpen` | Tail/Tail.php:155-167 | when end-of-file at open equals `filesize()`, the cycle that opens emits nothing |
| `TailState.Resolve` | Tail/Tail.php:126-138 | corrected resolution: nothing is resolved exactly for an empty `realpath`, a link, and a failing `readlink()`; a resolved name is kept; a plain path resolves to itself with its inode; a link to its `readlink()` target; only `realpath` and `realpathInode` change |
| `TailState.ResolveAsWritten` | Tail/Tail.php:127-138 | as written: raises TypeError exactly where the corrected resolution resolves nothing, and otherwise gives the same fields |
| `TailState.ReadlinkFailureAsWritten` | Tail/Tail.php:130-132 | as written, an unreadable link target raises TypeError; the corrected resolution resolves nothing |
| `TailState.ResolveAgrees` | Tail/Tail.php:127-138 | in every other case the written and the corrected resolution agree |
| `TailState.ReadlinkFailureResets` | Tail/Tail.php:130-132 | corrected: an unreadable link target resets the object without an error |
| `TailRuns.Run` | Tail/Tail.php:61-90 | consecutive iterations of the loop, at most one per snapshot; a fatal outcome can only be the last, and the run ends early only on one |
| `TailRuns.ContiguousCount` | Tail/Tail.php:78-83 | ranges that tile [p, q) add up to q - p bytes |
| `TailRuns.OpenRunIsContiguous` | Tail/Tail.php:61-90 | while the handle stays open, the emitted ranges start at the initial cursor and tile the bytes up to the final cursor, in order, with no gap and no overlap; the cursor never decreases |
| `TailRuns.DirectoryNeverOpens` | Tail/Tail.php:148-152 | a path whose resolved name is a directory (the path itself or a link's target) stays reset with outcome Reset cycle after cycle, never raising |
| `TailRuns.TruncationScenario` | Tail/Tail.php:74-83 | empty file, "AAAA", truncate, "BB", "CC": Idle, emits [0,4), Truncated, Idle (reopened at 2), emits [2,4) |
| `HttpStream.RetryAfterSeconds` | example/src/HttpStream.js:11-34 | the delay is always in [1, 30] seconds; without a response it is 1 |
| `HttpStream.TimeoutMs` | example/src/HttpStream.js:33 | the timer waits the delay times 1000 ms, in [1000, 30000] |
| `HttpStream.RawSeconds` | example/src/HttpStream.js:12-25 | `seconds` is NaN or undefined exactly without a response, for the empty header, or for a non-digit header that is an invalid date; delay-seconds are never negative |
| `HttpStream.Clamp` | example/src/HttpStream.js:27-31 | NaN or below 1 gives 1, above 30 gives 30, in range is kept |
| `HttpStream.ParseDigits` | example/src/HttpStream.js:17-19 | `parseInt` of a digit string is NaN exactly for the empty string, otherwise non-negative |
| `HttpStream.SecondsUntil` | example/src/HttpStream.js:22-23 | the floor of the milliseconds to the date divided by 1000: NaN for an invalid date |
| `HttpStream.DecimalValue` | example/src/HttpStream.js:19 | the value of a digit string is zero exactly when every digit is 0 |
| `HttpStream.DecimalRoundTrip` | example/src/HttpStream.js:19 | parsing the decimal numeral of n gives back n |
| `HttpStream.LeadingZero` | example/src/HttpStream.js:19 | a leading zero does not change a numeral's value |
| `HttpStream.DelaySecondsHeader` | example/src/HttpStream.js:17-19 | a delay-seconds header of n waits n seconds clamped to [1, 30] |
| `HttpStream.LeadingZeros` | example/src/HttpStream.js:19 | any number of leading zeros does not change a numeral's value |
| `HttpStream.DigitsHeader` | example/src/HttpStream.js:17-31 | every non-empty digit header waits its decimal value clamped to [1, 30] |
| `HttpStream.PaddedDelaySecondsHeader` | example/src/HttpStream.js:17-31 | a zero-padded header such as "0007" waits as long as the bare numeral n, clamped to [1, 30] |
| `HttpStream.EmptyHeader` | example/src/HttpStream.js:17-28 | the empty header matches the digit pattern, parses to NaN, and waits 1 second |
| `HttpStream.DateHeader` | example/src/HttpStream.js:20-28 | a non-digit header is a date; an invalid date, or one less than a second ahead, waits 1 second |
| `HttpStream.DateHeaderAhead` | example/src/HttpStream.js:20-31 | a date k whole seconds ahead waits k seconds clamped to [1, 30] |
| `HttpStream.AbsentHeader` | example/src/HttpStream.js:14-28 | a response without the header reaches `new Date(null)`, the epoch, so any `now` at or after it waits 1 second |

## Findings

| source | as written | input that shows it | evidently intended | confidence | as-written member | corrected member |
|---|---|---|---|---|---|---|
| Tail/Tail.php:130 | `readlink()`'s `false` is assigned to the `string`-typed `$realpath` under `strict_types=1`, which raises a TypeError; the `return false` on line 131 is never reached | a `path` for which `is_link()` is true and `readlink()` fails, e.g. a link removed between the two calls | `filehandle()` returns false, the cycle closes and retries | not executed | `TailState.ReadlinkFailureAsWritten` | `TailState.ReadlinkFailureResets` |

The rest of the model uses the corrected resolution (`TailState.Resolve`). `ResolveAsWritten`
is the as-written reading, and `ResolveAgrees` shows that the two differ only in this case.

## Left out

- The `stream()` outer loop, `connection_status()`, `usleep(500000)` and the
  `ob_end_flush()` draining: these are timing and output-buffer concerns. The model has one
  `Step`, and `TailRuns.Run` for consecutive cycles.
- The filesystem calls are replaced by `Env`, one snapshot per cycle. `clearstatcache()` is
  implicit: every query reads that snapshot.
- `fopen` and `fseek` failures become one `OpenFailed` fault. In PHP a failed `fopen` leaves
  `false` in `$filehandle`, and a failed `fseek` leaves an open handle. The model leaves the
  handle absent in both cases. `TailRuns.Run` stops at a fatal outcome, as the loop does, so
  no later cycle sees the difference.
- The bytes themselves are not modelled, only the range `[from, to)` that `fpassthru()` copies.
  After a count mismatch the model keeps the old cursor, where PHP has advanced the handle.
  `TailRuns.Run` ends there, as the loop does.
- `fclose()` is modelled as dropping the handle. Exception messages are not modelled.
- Inodes are PHP integers, modelled as unbounded. `readlink()` may return a target relative to
  the link's directory, which PHP then resolves against the working directory. Here that is
  whatever `Env` answers for the returned string.
- The `HttpStream` class (fetch, `AbortController`, the body reader, `Location` redirects) and
  `setTimeout` are left out. Date parsing is the parameter `httpDate`, which stands for
  `new Date(value).valueOf()`. `Date.now()` is the parameter `now`.
- `parseInt` returns a floating-point number, which loses precision on long numerals. That only
  affects values above 30, which clamp to 30 either way, so the model parses exactly.
- `example/src/HttpStreamViewer.js`, `example/server.php` and `example/write-test.log.php` are
  not part of this model: they are UI, wiring and a test writer. `tests/TailTest.php` only
  constructs an object.
