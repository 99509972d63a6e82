/** What both rate-limit algorithms are given and what they answer. */
module RateLimits {

  /** At most `limit` requests in `duration` seconds. */
  datatype Limit = Limit(limit: int, duration: int)
  {
    function Millis(): int { duration * 1000 }
  }

  datatype Answer = Answer(allowed: bool, limit: int, used: int, remaining: int, resetAt: int, retryAfter: int)
}
