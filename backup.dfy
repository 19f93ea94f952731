/**
  The time gate of `_auto_save_backup`: at most one backup per five minutes, the clock
  reset only by a backup that went through.
*/
module Backup {
  import opened Rows

  /** What the hook sees of the outside world: the clock and whether the disk writes succeed. */
  datatype Env = Env(now: real, diskOk: bool)

  /** `backup_interval`: five minutes, in seconds. */
  const BackupInterval: real := 300.0

  /** `time.time() - self.last_backup < self.backup_interval` fails: a backup is due. */
  predicate Due(last: real, env: Env)
    ensures Due(last, env) <==> env.now >= last + 300.0
  {
    env.now - last >= BackupInterval
  }

  /**
    `last_backup` after the hook: moved to now by a due backup that went through
    (whether or not the table was empty), left alone when none was due or the disk failed.
  */
  function BackupTime(last: real, env: Env): (r: real)
    ensures r == last || r == env.now
    ensures r == env.now && r != last ==> Due(last, env) && env.diskOk
    ensures Due(last, env) && env.diskOk ==> r == env.now
    ensures !Due(last, env) || !env.diskOk ==> r == last
  {
    if Due(last, env) && env.diskOk then env.now else last
  }

  /** A due backup that goes through writes x, y, yaw only when the table has rows. */
  predicate Writes(last: real, env: Env, t: Table) {
    Due(last, env) && env.diskOk && t != []
  }

  /** The backup log after the hook: one more file with the table's x, y, yaw when it writes. */
  function Logged(log: seq<seq<Pose>>, last: real, env: Env, t: Table): (r: seq<seq<Pose>>)
    ensures Writes(last, env, t) ==> r == log + [Project(t)]
    ensures !Writes(last, env, t) ==> r == log
  {
    if Writes(last, env, t) then log + [Project(t)] else log
  }

  /** Running the hook again at the same moment does nothing more: the gate is idempotent. */
  lemma BackupIdempotent(last: real, env: Env, t: Table)
    ensures BackupTime(BackupTime(last, env), env) == BackupTime(last, env)
    ensures Writes(last, env, t) ==> !Writes(BackupTime(last, env), env, t)
  {
  }

  /**
    Two backups that both write are at least five minutes apart when the clock does not
    go back: the second sees the first one's time as last_backup.
  */
  lemma BackupsSpaced(last: real, env1: Env, env2: Env, t1: Table, t2: Table)
    requires Writes(last, env1, t1)
    requires Writes(BackupTime(last, env1), env2, t2)
    ensures env2.now - env1.now >= BackupInterval
  {
  }
}
