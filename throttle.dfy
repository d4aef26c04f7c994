/**
 * The per-user throttle on security-answer checks shared by
 * `dhl_login/routes/auth.js` and `dhl_login/routes/forgotPassword.js`: after
 * five failed attempts a user is locked out for fifteen minutes from the last
 * failure.
 */
module Throttle {
  import opened Wrappers
  import opened Models

  const MaxAttempts: int := 5

  /** Fifteen minutes in milliseconds. */
  const LockoutMs: int := 15 * 60 * 1000

  /** `lastPasswordResetAttempt` as a time, with `0` when it was never set. */
  function LastAttemptTime(u: User): (t: Time)
    ensures u.lastPasswordResetAttempt.Some? ==> t == u.lastPasswordResetAttempt.value
    ensures u.lastPasswordResetAttempt.None? ==> t == 0
  {
    if u.lastPasswordResetAttempt.Some? then u.lastPasswordResetAttempt.value else 0
  }

  /** Five or more failures and the last one less than fifteen minutes ago. */
  predicate Locked(u: User, now: Time) {
    u.passwordResetAttemptCount >= MaxAttempts && now - LastAttemptTime(u) < LockoutMs
  }

  /** Five or more failures, but the lockout window has passed. */
  predicate LockExpired(u: User, now: Time) {
    u.passwordResetAttemptCount >= MaxAttempts && now - LastAttemptTime(u) >= LockoutMs
  }

  /** A failed attempt at `now`: one more on the counter, and the time recorded. */
  function AfterFailure(u: User, now: Time): (v: User)
    ensures v.passwordResetAttemptCount == u.passwordResetAttemptCount + 1
    ensures v.lastPasswordResetAttempt == Some(now)
    ensures v.(passwordResetAttemptCount := 0, lastPasswordResetAttempt := None)
         == u.(passwordResetAttemptCount := 0, lastPasswordResetAttempt := None)
  {
    u.(passwordResetAttemptCount := u.passwordResetAttemptCount + 1, lastPasswordResetAttempt := Some(now))
  }

  /** A success: the counter and the time are cleared. */
  function Cleared(u: User): (v: User)
    ensures v.passwordResetAttemptCount == 0 && v.lastPasswordResetAttempt.None?
    ensures forall t :: !Locked(v, t) && !LockExpired(v, t)
  {
    u.(passwordResetAttemptCount := 0, lastPasswordResetAttempt := None)
  }

  /**
   * The failure that brings the counter to five locks the user for exactly
   * the fifteen minutes after it, and no longer.
   */
  lemma FifthFailureLocks(u: User, now: Time, later: Time)
    requires u.passwordResetAttemptCount + 1 >= MaxAttempts
    ensures Locked(AfterFailure(u, now), later) <==> later - now < LockoutMs
    ensures LockExpired(AfterFailure(u, now), later) <==> later - now >= LockoutMs
  {
  }

  /** Below five failures a user is never locked, whatever the time. */
  lemma FewFailuresNeverLock(u: User, now: Time)
    requires u.passwordResetAttemptCount < MaxAttempts
    ensures !Locked(u, now) && !LockExpired(u, now)
  {
  }
}
