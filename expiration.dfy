/** The verdict a daemon expiration strategy returns, and the canonical
    "do not expire" verdict. */
module Expiration {

  /** A Java reference that may be null. */
  datatype Option<+T> = None | Some(value: T)

  /** One expiration check's outcome: whether the daemon should expire,
      whether without a grace period, whether the daemon already regards
      itself as terminated, and an optional human-readable reason. */
  datatype DaemonExpirationResult = DaemonExpirationResult(
    expired: bool,
    immediate: bool,
    terminated: bool,
    reason: Option<string>)

  /** The shared "do not expire" instance: not expired, no flags, no reason. */
  const DoNotExpire: DaemonExpirationResult := DaemonExpirationResult(false, false, false, None)
}
