# watch: a Dafny model of the change detector

`watch` polls one file at a fixed interval and copies it to
`<file>.<timestamp>.bak` whenever its content fingerprint changes. This project
models the decision and formatting logic of `src/main.rs` and proves
properties about it:

- **Change detector** (`change_detector.dfy`, module `ChangeDetector`).
  `PollContext` is a class with a `cachedHash` field. `Tick` models
  `check_target` and `Start` models the startup branch of `main`. Both are
  proved against the pure functions `Check` and `Startup`. `Run` strings ticks
  together, so lemmas can cover idempotence, the return to an earlier
  fingerprint, `--quiet`, and one backup per change.
- **Content hasher** (`content_hasher.dfy`, module `ContentHasher`).
  `HashFile` is the read loop of `hash_file`. It runs over a 4096-byte
  `array` buffer and a `Hasher` object that accumulates the bytes written to
  it. The file's reads are an oracle. `Fed` specifies the bytes the hasher
  receives. As in the code, the whole buffer is written after every non-empty
  read.
- **Timestamp formatter** (`timestamp.dfy`, module `Timestamp`). `Format`
  models `get_timestamp` with Rust's `{:0w}` zero-padding semantics. It is
  proved 17 digits long. Its string order is proved equal to the order of the
  calendar field tuple.
- **Interval option** (`interval.dfy`, module `Interval`). This covers the
  validator closure (`parse::<u64>()`, then non-zero) and the later
  `parse::<i64>().unwrap()`.
- `text.dfy` (module `Text`) holds decimal digit strings and Rust's
  byte-wise `String` order. `wrappers.dfy` holds `Option` and `Result`.

Inputs from the environment are parameters. These are: whether the file
opened, the results of the reads, the SipHash digest function, the clock
fields, and whether `fs::copy` succeeded. A failing `expect`/`unwrap` is an
outcome value (`HashFailed`, `CopyFailed`, `UnwrapFailed`), not a process exit.
A failure in the startup tick (`src/main.rs:80`) ends the process. A failure in
a later tick happens inside the timer's callback (`src/main.rs:88-90`), so it
ends only the timer's thread. Polling stops, and the process stays blocked
reading standard input (`src/main.rs:93`). `Run` therefore stops at the first
failure.

Two behaviours of the code that are easy to miss:

- Without `--starting-backup`, the code seeds the cache at startup from
  `hash_file` (`src/main.rs:83`). The first tick therefore compares against
  that fingerprint; it does not establish a baseline. If that startup hash
  fails, the cache stays `None` without any error, and the first successful
  tick is labelled a starting backup.
- The code does not hash the file's bytes independently of chunking. After a
  short read it also hashes the stale tail of the buffer (see Findings).

## Model

| member | source | states |
|---|---|---|
| `ChangeDetector.Check` | src/main.rs:100-124 | A missing fingerprint is fatal and leaves the cache alone. A backup is attempted exactly when nothing is cached or the cached fingerprint differs. It copies the watched file to `BackupPath(file, Format(now))`. The log line is absent exactly when quiet; it is labelled "starting backup" exactly when nothing was cached. The cache becomes the new fingerprint exactly when the copy succeeds; otherwise it is unchanged. |
| `ChangeDetector.PollContext.Tick` | src/main.rs:100-124 | The new cache and the outcome are those `Check` gives for the old cache. |
| `ChangeDetector.PollContext.constructor` | src/main.rs:72-76 | A fresh context holds the path and the quiet flag, with no cached fingerprint. |
| `ChangeDetector.Startup` | src/main.rs:79-84 | Without the flag there is no backup, and the cache becomes what `hash_file` returned (`None` included). With the flag one tick runs on an empty cache. It attempts a backup exactly when the file hashed, labelled "starting backup". |
| `ChangeDetector.PollContext.Start` | src/main.rs:78-84 | The cache and outcome after startup are those `Startup` gives. |
| `ChangeDetector.SameHashTwice` | src/main.rs:105-122 | After a tick that returned normally, a second tick with the same fingerprint makes no backup (at most one backup for two equal ticks). |
| `ChangeDetector.ReturnToEarlierHash` | src/main.rs:105-122 | Only the last fingerprint is kept. After a change from a to b, returning to a is backed up again and labelled as a change. |
| `ChangeDetector.QuietOnlySuppressesLog` | src/main.rs:108-122 | With and without quiet, a tick leaves the same cache and makes the same copy. Only the log line differs. |
| `ChangeDetector.UnhashedStartThenStartingBackup` | src/main.rs:79-110 | Suppose the file fails to hash at startup without the flag. Then startup makes no backup, and the first tick that hashes it makes a backup labelled "starting backup". |
| `ChangeDetector.BackupsAreChanges` | src/main.rs:88-90 | Over ticks that all hash and copy successfully, the number of backups equals the number of fingerprint changes. No tick fails, and the cache ends with the last fingerprint. |
| `ChangeDetector.SteadyFileNoChanges` | src/main.rs:105 | A fingerprint that never moves from the cached one counts no changes, so it makes no backups. |
| `ChangeDetector.ChangesBound` | src/main.rs:105 | There are never more changes than ticks. With an empty cache, the first tick always counts as one. |
| `ChangeDetector.Scenario` | src/main.rs:79-123 | Start with fingerprint a and no flag, then see a, b, b, a. This gives exactly two backups, at ticks 2 and 4, labelled as changes, with those ticks' timestamps. |
| `ChangeDetector.BackupPath` | src/main.rs:118 | The path is the watched path, then '.', then the timestamp, then ".bak". The length is the two parts plus five characters. `BackupPathInjective` and `BackupPathOrder` state its properties. |
| `ChangeDetector.Run` | src/main.rs:88-90 | Successive ticks, stopping at the first fatal one. A run makes no more backups than it has ticks. `BackupsAreChanges`, `RunCopiesWatchFile` and `Scenario` state its properties. |
| `ChangeDetector.HealthyStep` | src/main.rs:100-124 | When a tick at the head of a run hashes and copies successfully, it adds one backup exactly when the fingerprint moved. The rest of the run then continues from the new fingerprint. |
| `ChangeDetector.RunCopiesWatchFile` | src/main.rs:116-119 | Every backup of a run copies the watched file. |
| `ChangeDetector.BackupPathInjective` | src/main.rs:118 | Two backup paths of one file are equal exactly when their timestamps are equal. |
| `ChangeDetector.BackupPathOrder` | src/main.rs:116-119 | For in-range readings, backup paths of one file sort as the readings do. |
| `ContentHasher.HashFile` | src/main.rs:126-142 | The result is `None` exactly when the open fails or the last read errs. Otherwise it is the digest of exactly the bytes `Fed` describes. |
| `ContentHasher.Fed` | src/main.rs:130-138 | The bytes written to the hasher are `None` exactly when a read fails. Otherwise there are 4096 bytes per non-empty read, in read order. |
| `ContentHasher.AfterRead` | src/main.rs:132 | After a read of n bytes, the buffer's first n bytes are the data and the rest is unchanged. |
| `ContentHasher.ReadInto` | src/main.rs:132 | The read leaves the buffer as `AfterRead` says. |
| `ContentHasher.Hasher.constructor` | src/main.rs:127 | A new hasher has been written nothing. |
| `ContentHasher.Hasher.Write` | src/main.rs:133 | Writing appends the bytes to what the hasher has received. |
| `ContentHasher.ZeroBuffer` | src/main.rs:130 | The buffer holds 4096 bytes. |
| `ContentHasher.StaleTailCollision` | src/main.rs:130-134 | Take a file of up to 4096 bytes and the same file with zero bytes appended (still within 4096). They have different contents but feed the hasher identical bytes. |
| `ContentHasher.FullReadsFeedContent` | src/main.rs:130-134 | When every read but the last fills the buffer, the code feeds the same bytes as the corrected version. |
| `ContentHasher.Content` | src/main.rs:132 | The file's bytes: what the reads returned, concatenated in order. It starts with the first read's data. |
| `ContentHasher.FedExact` | src/main.rs:133 | The corrected feeding (`hash_buffer[..n]`) is `None` exactly when a read fails. `FedExactIsContent` states that it feeds exactly `Content`. |
| `ContentHasher.FedExactIsContent` | src/main.rs:133 | Feeding only the n bytes read gives exactly the file's bytes, whatever the buffer held. |
| `ContentHasher.FedExactDetectsChange` | src/main.rs:133 | With the correction, two files feed the same bytes exactly when their contents are equal, however the reads split them. |
| `Timestamp.Format` | src/main.rs:144-156 | `get_timestamp` on the given clock fields. It is at least 17 characters, and all digits when the year is not negative. `FormatShape`, `FormatOrder` and `LeapMillisWiden` state its properties. |
| `Timestamp.PadUnsigned` | src/main.rs:147 | `{:0w}` on an unsigned field is at least w characters, all digits, and reads back as the value. |
| `Timestamp.PadSigned` | src/main.rs:147 | `{:04}` on the signed year is at least w characters. A non-negative year reads back as its digits. A negative year is '-' followed by the digits of its magnitude. |
| `Timestamp.FormatShape` | src/main.rs:144-156 | For in-range fields the timestamp is exactly 17 ASCII digits. |
| `Timestamp.FormatOrder` | src/main.rs:146-155 | For in-range fields, string order of timestamps equals the lexicographic order of (year, month, day, hour, minute, second, millis). Equal strings mean equal readings. |
| `Timestamp.FormatIsFixed` | src/main.rs:146-155 | For in-range fields each field is printed at exactly its width (4, 2, 2, 2, 2, 2, 3 digits). |
| `Timestamp.PadIsFixed` | src/main.rs:147 | `{:0w}` on a number below 10^w prints exactly w digits, zero-padded. |
| `Timestamp.LeapMillisWiden` | src/main.rs:154 | A leap-second millisecond count (1000 to 1999) widens the timestamp to 18 characters. |
| `Interval.Validate` | src/main.rs:35-44 | The validator accepts exactly the strings whose `u64` parse is between 1 and 2^64 - 1. `ValidateAccepts` also states its messages. |
| `Interval.ReadInterval` | src/main.rs:63-67 | The validator runs first, then the `i64` re-parse with `unwrap`. A usage error happens exactly when the validator rejects. An interval, when there is one, lies between 1 and `i64::MAX`. `ReadIntervalOk` and `UnwrapFailsAboveI64Max` state the rest. |
| `Interval.ValidateI64` | src/main.rs:63-67 | The corrected validator accepts exactly the strings whose `i64` parse is positive. |
| `Interval.ReadIntervalCorrected` | src/main.rs:63-67 | With the corrected validator, `unwrap` never fails, and an interval lies between 1 and `i64::MAX`. |
| `Interval.ParseU64` | src/main.rs:35 | A successful `u64` parse yields at most 2^64 - 1. |
| `Interval.ParseI64` | src/main.rs:66 | A successful `i64` parse yields a value in the signed 64-bit range. |
| `Interval.ParseU64OfShow` | src/main.rs:35 | Every `u64` printed in decimal, with or without '+', parses back to itself. |
| `Interval.ParseU64Overflow` | src/main.rs:35 | A decimal above 2^64 - 1 does not parse. |
| `Interval.ValidateAccepts` | src/main.rs:35-44 | The validator accepts exactly the strings that parse as a `u64` between 1 and 2^64 - 1. Otherwise it reports "must be greater than 0" or "must be parsable as u64" as the code does. |
| `Interval.ParsesAgree` | src/main.rs:63-67 | On a string that parses as `u64`, the `i64` parse agrees up to `i64::MAX` and fails above it. |
| `Interval.ReadIntervalOk` | src/main.rs:63-67 | `main` gets an interval exactly when the validator accepts and the value is at most `i64::MAX`. The interval is then that (positive) value. |
| `Interval.UnwrapFailsAboveI64Max` | src/main.rs:35-67 | Every value from `i64::MAX + 1` to `u64::MAX` is accepted by the validator and then makes `unwrap` fail. |
| `Interval.DefaultInterval` | src/main.rs:34 | The default "5000" yields an interval of 5000 ms. |
| `Interval.CorrectedIntervalNeverPanics` | src/main.rs:63-67 | With a validator that checks the `i64` parse, `unwrap` never fails. Accepted intervals are positive, and the result agrees with the original wherever the original succeeds. |

## Left out

- Building the argument parser (`App`, `Arg`, help and version text, `get_matches`) is left out; it is library plumbing. Only the interval validator and the `i64` re-parse are modelled.
- The repeating timer, its guard and the wait on standard input are left out; they are concurrency and process lifecycle. `Run` only assumes that ticks happen one after another, and that the first fatal tick ends the polling. It does not model that the process then stays alive until a line is read.
- Real file I/O is left out. `fs::File::open` and `read` are an oracle: a flag and the list of read results. `fs::copy` is an output action (source and destination). The bytes the copy writes are not modelled.
- A read is modelled as writing its n bytes to the front of the buffer and leaving the rest unchanged. That is what a file read on the usual platforms does. Rust's `Read` trait does not promise it.
- A file whose reads never reach end of file or an error (a FIFO, `/dev/zero`) makes the loop at `src/main.rs:131-137` run forever. `HashFile` requires the reads to end (`Completed`), so it does not model that non-termination.
- SipHash-1-3/128 is left out (a foreign library). The digest is a function parameter of `HashFile`, applied to the bytes written to the hasher.
- The clock (`Utc::now()`) is left out. `Format` takes the calendar fields as a `DateTime` argument.
- Timestamp.FormatShape and Timestamp.FormatOrder are stated only for in-range readings. `Format` itself also covers negative years, years above 9999 and leap-second milliseconds, as Rust's `{:0w}` prints them. LeapMillisWiden is the only lemma about those.
- The fingerprint's `{:#034x}` rendering in the log line is left out. `LogLine` carries the fingerprint as a number.
- Panics (`expect`, `unwrap`) are outcome values. The message printed and the exit status are not modelled.

## Findings

| source | as written | input that shows it | evidently intended | confidence | as-written member | corrected member |
|---|---|---|---|---|---|---|
| src/main.rs:133 | `hasher.write(&hash_buffer)` writes all 4096 bytes after every read, including stale bytes behind a short read | A file holding the byte 0x41, then changed to 0x41 0x00. Both feed 0x41 followed by 4095 zero bytes, so they get the same fingerprint and the change is never backed up. | `hasher.write(&hash_buffer[..n])`, so the hasher sees exactly the file's bytes | not executed; high | `ContentHasher.StaleTailCollision` | `ContentHasher.FedExactDetectsChange` |
| src/main.rs:35-67 | The validator accepts any non-zero `u64`, but `main` re-parses the value as `i64` and unwraps | `--interval 9223372036854775808` is accepted by the validator, then `parse::<i64>().unwrap()` panics | Validate the same type that is used, so every accepted interval is usable | not executed; high | `Interval.UnwrapFailsAboveI64Max` | `Interval.CorrectedIntervalNeverPanics` |

The change detector takes the fingerprint as an input. The detector lemmas therefore hold whichever hasher produces it.
