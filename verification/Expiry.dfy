/** When a stamped value stops being visible. Stamps are nanoseconds since 1970, 0 for none. */
module Expiry {
  predicate Lapsed(expiresAt: int, now: int) { expiresAt > 0 && now > expiresAt }
}
