/** Raft timing and sizing options, at their default values (times in milliseconds). */
module RaftOptions {
  const ElectionTimeoutMin: int := 3000
  const ElectionTimeoutMax: int := 5000
  const LeaderTimeout: int := 2000
  const LeaderPingInterval: int := 250
  const RequestTimeout: int := 10000
}
