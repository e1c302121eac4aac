/** util/TimeUtils.java: the expiry test used by opening, limit editing and the cleanup sweeps. */
module TimeUtils {

  /** `isExpired(now, expiresAt)`: `now` is after `expiresAt` or equal to it. */
  predicate IsExpired(now: int, expiresAt: int) {
    now > expiresAt || now == expiresAt
  }

  /** A link is expired exactly from its expiry instant onwards. */
  lemma ExpiredIffReached(now: int, expiresAt: int)
    ensures IsExpired(now, expiresAt) <==> expiresAt <= now
  {
  }

  /** The boundary is inclusive: at the expiry instant itself the link is expired. */
  lemma ExpiredAtBoundary(t: int)
    ensures IsExpired(t, t)
  {
  }

  /** Before the expiry instant the link is not expired. */
  lemma NotExpiredBefore(now: int, expiresAt: int)
    requires now < expiresAt
    ensures !IsExpired(now, expiresAt)
  {
  }

  /** Once expired, a link stays expired at every later time. */
  lemma ExpiryMonotone(t: int, later: int, expiresAt: int)
    requires IsExpired(t, expiresAt) && t <= later
    ensures IsExpired(later, expiresAt)
  {
  }
}
