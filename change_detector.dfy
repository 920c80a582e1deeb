/**
 * The change detector (`PollContext`, `check_target` and the startup branch of
 * `main`): on every tick compare the file's fresh fingerprint with the cached
 * one and, when they differ or nothing is cached, log, copy the file to a
 * timestamped backup and cache the new fingerprint.
 *
 * The fingerprint `hash_file` produced, the clock reading and whether
 * `fs::copy` succeeded are inputs; the log line and the copy are outputs.
 * A failed `expect` is an outcome. At startup it ends the process; inside a
 * timer tick it ends the timer's thread, and with it the polling.
 */
module ChangeDetector {
  import opened Wrappers
  import opened Text
  import ContentHasher
  import Timestamp

  type Fingerprint = ContentHasher.Fingerprint

  /** `format!("{}.{}.bak", watch_file, timestamp)`. */
  function BackupPath(watchFile: string, timestamp: string): (p: string)
    ensures |p| == |watchFile| + |timestamp| + 5
    ensures p[..|watchFile|] == watchFile && p[|watchFile|] == '.'
    ensures p[|watchFile| + 1..|p| - 4] == timestamp && p[|p| - 4..] == ".bak"
  {
    watchFile + "." + timestamp + ".bak"
  }

  datatype Label = StartingBackup | FileChanged

  /** The line printed before a backup: its kind, the timestamp and the fingerprint. */
  datatype LogLine = LogLine(kind: Label, timestamp: string, hash: Fingerprint)

  /** A backup: the log line printed (none when quiet) and the copy from `source` to `destination`. */
  datatype Backup = Backup(log: Option<LogLine>, source: string, destination: string)

  datatype Outcome =
    | NoBackup
    | BackedUp(backup: Backup)
    | HashFailed                  // `expect("Unable to hash file")` panics
    | CopyFailed(backup: Backup)  // `expect("Unable to copy a backup of file")` panics

  /** The cache after a tick and what the tick did. */
  datatype TickResult = TickResult(cachedHash: Option<Fingerprint>, outcome: Outcome)

  predicate Attempted(o: Outcome) { o.BackedUp? || o.CopyFailed? }

  /**
   * One call of `check_target` from cache `cached`, given what `hash_file`
   * returned, the clock reading and whether the copy succeeded.
   */
  function Check(watchFile: string, quiet: bool, cached: Option<Fingerprint>,
                 hash: Option<Fingerprint>, now: Timestamp.DateTime, copyOk: bool): (r: TickResult)
    // a missing fingerprint is fatal and changes nothing
    ensures r.outcome.HashFailed? <==> hash.None?
    // a backup is attempted exactly when nothing is cached or the cached fingerprint differs
    ensures Attempted(r.outcome) <==> hash.Some? && cached != hash
    // the cache changes only by a completed backup, and then holds the new fingerprint
    ensures r.outcome.BackedUp? ==> copyOk && r.cachedHash == hash
    ensures !r.outcome.BackedUp? ==> r.cachedHash == cached
    ensures Attempted(r.outcome) ==>
      var b := r.outcome.backup;
      var stamp := Timestamp.Format(now);
      b.source == watchFile && b.destination == BackupPath(watchFile, stamp) &&
      (r.outcome.BackedUp? <==> copyOk) &&
      (b.log.None? <==> quiet) &&
      (b.log.Some? ==> b.log.value == LogLine(if cached.None? then StartingBackup else FileChanged, stamp, hash.value))
  {
    match hash
    case None => TickResult(cached, HashFailed)
    case Some(h) =>
      if cached == None || cached.value != h then
        var stamp := Timestamp.Format(now);
        var log := if quiet then None else Some(LogLine(if cached == None then StartingBackup else FileChanged, stamp, h));
        var backup := Backup(log, watchFile, BackupPath(watchFile, stamp));
        if copyOk then TickResult(Some(h), BackedUp(backup)) else TickResult(cached, CopyFailed(backup))
      else
        TickResult(cached, NoBackup)
  }

  /**
   * The startup branch of `main`, on a fresh context: with `--starting-backup`
   * one tick; without it no backup, and the cache becomes whatever `hash_file`
   * returned, `None` included.
   */
  function Startup(watchFile: string, quiet: bool, startingBackup: bool,
                   hash: Option<Fingerprint>, now: Timestamp.DateTime, copyOk: bool): (r: TickResult)
    ensures !startingBackup ==> r == TickResult(hash, NoBackup)
    ensures startingBackup ==> (Attempted(r.outcome) <==> hash.Some?)
    ensures startingBackup && Attempted(r.outcome) ==>
      (r.outcome.backup.log.None? <==> quiet) &&
      (r.outcome.backup.log.Some? ==> r.outcome.backup.log.value.kind == StartingBackup)
  {
    if startingBackup then Check(watchFile, quiet, None, hash, now, copyOk)
    else TickResult(hash, NoBackup)
  }

  /** `PollContext`: the watched path, the cached fingerprint and the quiet flag. */
  class PollContext {
    const watchFile: string
    var cachedHash: Option<Fingerprint>
    const quiet: bool

    constructor (watchFile: string, quiet: bool)
      ensures this.watchFile == watchFile && this.quiet == quiet && cachedHash == None
    {
      this.watchFile := watchFile;
      this.quiet := quiet;
      cachedHash := None;
    }

    /** `check_target(&mut poll_ctx)`. */
    method Tick(hash: Option<Fingerprint>, now: Timestamp.DateTime, copyOk: bool) returns (outcome: Outcome)
      modifies this
      ensures TickResult(cachedHash, outcome) == Check(watchFile, quiet, old(cachedHash), hash, now, copyOk)
    {
      if hash.None? {
        return HashFailed;
      }
      var h := hash.value;
      if cachedHash == None || cachedHash.value != h {
        var stamp := Timestamp.Format(now);
        var log: Option<LogLine> := None;
        if !quiet {
          if cachedHash == None {
            log := Some(LogLine(StartingBackup, stamp, h));
          } else {
            log := Some(LogLine(FileChanged, stamp, h));
          }
        }
        var backup := Backup(log, watchFile, BackupPath(watchFile, stamp));
        if !copyOk {
          return CopyFailed(backup);
        }
        cachedHash := Some(h);
        outcome := BackedUp(backup);
      } else {
        outcome := NoBackup;
      }
    }

    /** Lines 79-84 of `main`, run once on the fresh context. */
    method Start(startingBackup: bool, hash: Option<Fingerprint>, now: Timestamp.DateTime, copyOk: bool)
      returns (outcome: Outcome)
      requires cachedHash == None
      modifies this
      ensures TickResult(cachedHash, outcome) == Startup(watchFile, quiet, startingBackup, hash, now, copyOk)
    {
      if startingBackup {
        outcome := Tick(hash, now, copyOk);
      } else {
        cachedHash := hash;
        outcome := NoBackup;
      }
    }
  }

  /** What one timer tick observes. */
  datatype Observation = Observation(hash: Option<Fingerprint>, now: Timestamp.DateTime, copyOk: bool)

  /** The cache after a sequence of ticks, the backups they made in order, and whether one was fatal. */
  datatype RunResult = RunResult(cachedHash: Option<Fingerprint>, backups: seq<Backup>, failed: bool)

  /** Consecutive ticks from cache `cached`; the first fatal tick ends the polling. */
  function Run(watchFile: string, quiet: bool, cached: Option<Fingerprint>, ticks: seq<Observation>): (r: RunResult)
    ensures |r.backups| <= |ticks|
    decreases |ticks|
  {
    if ticks == [] then RunResult(cached, [], false)
    else
      var step := Check(watchFile, quiet, cached, ticks[0].hash, ticks[0].now, ticks[0].copyOk);
      match step.outcome
      case HashFailed => RunResult(cached, [], true)
      case CopyFailed(_) => RunResult(cached, [], true)
      case NoBackup => Run(watchFile, quiet, cached, ticks[1..])
      case BackedUp(b) =>
        var rest := Run(watchFile, quiet, step.cachedHash, ticks[1..]);
        RunResult(rest.cachedHash, [b] + rest.backups, rest.failed)
  }

  predicate AllCopy(backups: seq<Backup>, watchFile: string)
  {
    forall i :: 0 <= i < |backups| ==> backups[i].source == watchFile
  }

  /** Every backup of a run copies the watched file. */
  lemma {:induction false} RunCopiesWatchFile(watchFile: string, quiet: bool, cached: Option<Fingerprint>,
                                              ticks: seq<Observation>)
    ensures AllCopy(Run(watchFile, quiet, cached, ticks).backups, watchFile)
    decreases |ticks|
  {
    if ticks != [] {
      var step := Check(watchFile, quiet, cached, ticks[0].hash, ticks[0].now, ticks[0].copyOk);
      match step.outcome
      case BackedUp(b) =>
        var rest := Run(watchFile, quiet, step.cachedHash, ticks[1..]);
        RunCopiesWatchFile(watchFile, quiet, step.cachedHash, ticks[1..]);
        assert b.source == watchFile;
        assert Run(watchFile, quiet, cached, ticks).backups == [b] + rest.backups;
        AllCopyCons(b, rest.backups, watchFile);
      case NoBackup =>
        RunCopiesWatchFile(watchFile, quiet, cached, ticks[1..]);
      case HashFailed =>
      case CopyFailed(_) =>
    }
  }

  lemma AllCopyCons(b: Backup, rest: seq<Backup>, watchFile: string)
    requires b.source == watchFile && AllCopy(rest, watchFile)
    ensures AllCopy([b] + rest, watchFile)
  {
    forall i | 0 <= i < |rest| + 1 ensures ([b] + rest)[i].source == watchFile {
      if i > 0 {
        assert ([b] + rest)[i] == rest[i - 1];
      }
    }
  }

  /** Every tick hashes the file and every copy succeeds. */
  predicate Healthy(ticks: seq<Observation>)
  {
    forall i :: 0 <= i < |ticks| ==> ticks[i].hash.Some? && ticks[i].copyOk
  }

  /**
   * How many of the fingerprints differ from the one observed just before them
   * (the first is compared with `cached`). Only the last fingerprint counts:
   * a return to an older one is a change.
   */
  function Changes(cached: Option<Fingerprint>, hashes: seq<Fingerprint>): nat
    decreases |hashes|
  {
    if hashes == [] then 0
    else (if cached == Some(hashes[0]) then 0 else 1) + Changes(Some(hashes[0]), hashes[1..])
  }

  function Hashes(ticks: seq<Observation>): (hs: seq<Fingerprint>)
    requires Healthy(ticks)
    ensures |hs| == |ticks|
  {
    seq(|ticks|, i requires 0 <= i < |ticks| => ticks[i].hash.value)
  }

  // ---------------------------------------------------------------------------
  // Properties over several ticks

  /** Two consecutive ticks that see the same fingerprint make at most one backup. */
  lemma SameHashTwice(watchFile: string, quiet: bool, cached: Option<Fingerprint>, h: Fingerprint,
                      now1: Timestamp.DateTime, now2: Timestamp.DateTime, copyOk1: bool, copyOk2: bool)
    requires Check(watchFile, quiet, cached, Some(h), now1, copyOk1).outcome.BackedUp? ||
             Check(watchFile, quiet, cached, Some(h), now1, copyOk1).outcome.NoBackup?
    ensures Check(watchFile, quiet, Check(watchFile, quiet, cached, Some(h), now1, copyOk1).cachedHash,
                  Some(h), now2, copyOk2).outcome == NoBackup
  {
  }

  /**
   * Only the last fingerprint is kept: after a change from `a` to `b`, going
   * back to `a` is a change again, labelled as one.
   */
  lemma ReturnToEarlierHash(watchFile: string, quiet: bool, a: Fingerprint, b: Fingerprint,
                            now1: Timestamp.DateTime, now2: Timestamp.DateTime)
    requires a != b
    ensures var first := Check(watchFile, quiet, Some(a), Some(b), now1, true);
            first.outcome.BackedUp? &&
            var second := Check(watchFile, quiet, first.cachedHash, Some(a), now2, true);
            second.outcome.BackedUp? && second.cachedHash == Some(a) &&
            (!quiet ==> second.outcome.backup.log.value.kind == FileChanged)
  {
  }

  /**
   * `quiet` only suppresses the log line: the same tick with and without it
   * leaves the same cache and makes the same copy.
   */
  lemma QuietOnlySuppressesLog(watchFile: string, cached: Option<Fingerprint>, hash: Option<Fingerprint>,
                               now: Timestamp.DateTime, copyOk: bool)
    ensures var loud := Check(watchFile, false, cached, hash, now, copyOk);
            var silent := Check(watchFile, true, cached, hash, now, copyOk);
            loud.cachedHash == silent.cachedHash &&
            (Attempted(loud.outcome) <==> Attempted(silent.outcome)) &&
            (Attempted(loud.outcome) ==>
              silent.outcome == (if loud.outcome.BackedUp? then BackedUp(loud.outcome.backup.(log := None))
                                 else CopyFailed(loud.outcome.backup.(log := None)))) &&
            (!Attempted(loud.outcome) ==> loud.outcome == silent.outcome)
  {
  }

  /**
   * Without `--starting-backup` and with a file that could not be hashed at
   * startup, the first tick that hashes it makes a starting backup.
   */
  lemma UnhashedStartThenStartingBackup(watchFile: string, quiet: bool, h: Fingerprint,
                                        now0: Timestamp.DateTime, now1: Timestamp.DateTime, copyOk0: bool)
    ensures var start := Startup(watchFile, quiet, false, None, now0, copyOk0);
            var first := Check(watchFile, quiet, start.cachedHash, Some(h), now1, true);
            start.outcome == NoBackup && first.outcome.BackedUp? && first.cachedHash == Some(h) &&
            (!quiet ==> first.outcome.backup.log.value.kind == StartingBackup)
  {
  }

  /**
   * Over healthy ticks the detector makes one backup per change and no more,
   * and ends up caching the last fingerprint it saw.
   */
  lemma {:induction false} BackupsAreChanges(watchFile: string, quiet: bool, cached: Option<Fingerprint>,
                                             ticks: seq<Observation>)
    requires Healthy(ticks)
    ensures var r := Run(watchFile, quiet, cached, ticks);
            !r.failed && |r.backups| == Changes(cached, Hashes(ticks)) &&
            r.cachedHash == (if ticks == [] then cached else ticks[|ticks| - 1].hash)
    decreases |ticks|
  {
    if ticks != [] {
      var h := ticks[0].hash.value;
      var tail := ticks[1..];
      assert Healthy(tail) by {
        forall i | 0 <= i < |tail| ensures tail[i].hash.Some? && tail[i].copyOk {
          assert tail[i] == ticks[i + 1];
        }
      }
      var hs := Hashes(ticks);
      assert hs[0] == h && hs[1..] == Hashes(tail);
      BackupsAreChanges(watchFile, quiet, Some(h), tail);
      HealthyStep(watchFile, quiet, cached, ticks);
      if |tail| > 0 {
        assert tail[|tail| - 1] == ticks[|ticks| - 1];
      }
    }
  }

  /** One healthy tick at the head of a run: a backup exactly when the fingerprint moved, then the rest of the run. */
  lemma HealthyStep(watchFile: string, quiet: bool, cached: Option<Fingerprint>, ticks: seq<Observation>)
    requires ticks != [] && ticks[0].hash.Some? && ticks[0].copyOk
    ensures var r := Run(watchFile, quiet, cached, ticks);
            var rest := Run(watchFile, quiet, ticks[0].hash, ticks[1..]);
            r.failed == rest.failed && r.cachedHash == rest.cachedHash &&
            |r.backups| == (if cached == ticks[0].hash then 0 else 1) + |rest.backups|
  {
    var step := Check(watchFile, quiet, cached, ticks[0].hash, ticks[0].now, ticks[0].copyOk);
    if cached == ticks[0].hash {
      assert step.outcome == NoBackup;
    } else {
      assert step.outcome.BackedUp? && step.cachedHash == ticks[0].hash;
    }
  }

  /** A file whose fingerprint never moves from the cached one is never backed up. */
  lemma {:induction false} SteadyFileNoChanges(h: Fingerprint, hashes: seq<Fingerprint>)
    requires forall i :: 0 <= i < |hashes| ==> hashes[i] == h
    ensures Changes(Some(h), hashes) == 0
  {
    if hashes != [] {
      SteadyFileNoChanges(h, hashes[1..]);
    }
  }

  /** Each tick that changes the fingerprint contributes one backup, so no more backups than ticks. */
  lemma {:induction false} ChangesBound(cached: Option<Fingerprint>, hashes: seq<Fingerprint>)
    ensures Changes(cached, hashes) <= |hashes|
    ensures cached.None? && hashes != [] ==> Changes(cached, hashes) >= 1
    decreases |hashes|
  {
    if hashes != [] {
      ChangesBound(Some(hashes[0]), hashes[1..]);
    }
  }

  /**
   * The scenario: the file holds content with fingerprint `a` at startup
   * (no `--starting-backup`), changes to `b`, stays, and changes back to `a`.
   * Ticks 2 and 4 make one backup each, labelled as changes; ticks 1 and 3 none.
   */
  lemma Scenario(watchFile: string, a: Fingerprint, b: Fingerprint,
                 t0: Timestamp.DateTime, t1: Timestamp.DateTime, t2: Timestamp.DateTime,
                 t3: Timestamp.DateTime, t4: Timestamp.DateTime)
    requires a != b
    ensures var start := Startup(watchFile, false, false, Some(a), t0, true);
            var r := Run(watchFile, false, start.cachedHash,
                         [Observation(Some(a), t1, true), Observation(Some(b), t2, true),
                          Observation(Some(b), t3, true), Observation(Some(a), t4, true)]);
            start.outcome == NoBackup && !r.failed && r.cachedHash == Some(a) &&
            r.backups == [
              Backup(Some(LogLine(FileChanged, Timestamp.Format(t2), b)), watchFile,
                     BackupPath(watchFile, Timestamp.Format(t2))),
              Backup(Some(LogLine(FileChanged, Timestamp.Format(t4), a)), watchFile,
                     BackupPath(watchFile, Timestamp.Format(t4)))]
  {
    var ticks := [Observation(Some(a), t1, true), Observation(Some(b), t2, true),
                  Observation(Some(b), t3, true), Observation(Some(a), t4, true)];
    var r4 := Run(watchFile, false, Some(b), ticks[3..]);
    assert r4.backups == [Backup(Some(LogLine(FileChanged, Timestamp.Format(t4), a)), watchFile,
                                 BackupPath(watchFile, Timestamp.Format(t4)))] && r4.cachedHash == Some(a) && !r4.failed by {
      assert ticks[3..][0] == Observation(Some(a), t4, true);
      assert ticks[3..][1..] == [];
      assert Run(watchFile, false, Some(a), []) == RunResult(Some(a), [], false);
      var step := Check(watchFile, false, Some(b), Some(a), t4, true);
      assert step.cachedHash == Some(a);
      assert step.outcome == BackedUp(Backup(Some(LogLine(FileChanged, Timestamp.Format(t4), a)), watchFile,
                                             BackupPath(watchFile, Timestamp.Format(t4))));
    }
    var r3 := Run(watchFile, false, Some(b), ticks[2..]);
    assert r3 == r4 by {
      assert ticks[2..][1..] == ticks[3..];
    }
    var r2 := Run(watchFile, false, Some(a), ticks[1..]);
    assert r2.backups == [Backup(Some(LogLine(FileChanged, Timestamp.Format(t2), b)), watchFile,
                                 BackupPath(watchFile, Timestamp.Format(t2)))] + r3.backups by {
      assert ticks[1..][1..] == ticks[2..];
    }
    assert ticks[0] == Observation(Some(a), t1, true);
    assert Run(watchFile, false, Some(a), ticks) == r2;
  }

  // ---------------------------------------------------------------------------
  // Backup paths

  /** A backup path determines its timestamp: two backups of one file collide exactly when their timestamps are equal. */
  lemma BackupPathInjective(watchFile: string, t1: string, t2: string)
    ensures BackupPath(watchFile, t1) == BackupPath(watchFile, t2) <==> t1 == t2
  {
    var p1, p2 := BackupPath(watchFile, t1), BackupPath(watchFile, t2);
    if p1 == p2 {
      assert |t1| == |t2|;
      assert p1[|watchFile| + 1..|watchFile| + 1 + |t1|] == t1;
      assert p2[|watchFile| + 1..|watchFile| + 1 + |t2|] == t2;
    }
  }

  /**
   * Backups of one file sort by name in the order they were made: for
   * in-range clock readings, path order is reading order.
   */
  lemma BackupPathOrder(watchFile: string, a: Timestamp.DateTime, b: Timestamp.DateTime)
    requires Timestamp.InRange(a) && Timestamp.InRange(b)
    ensures LexLess(BackupPath(watchFile, Timestamp.Format(a)), BackupPath(watchFile, Timestamp.Format(b)))
            <==> Timestamp.Before(a, b)
  {
    var s1, s2 := Timestamp.Format(a), Timestamp.Format(b);
    Timestamp.FormatShape(a);
    Timestamp.FormatShape(b);
    Timestamp.FormatOrder(a, b);
    var prefix := watchFile + ".";
    LexIrreflexive(prefix);
    LexIrreflexive(".bak");
    LexConcat(prefix, s1, prefix, s2);
    LexConcat(prefix + s1, ".bak", prefix + s2, ".bak");
  }
}
