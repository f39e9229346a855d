/** The records the service stores: users, session tokens, and the password encoder it is given. */
module Models {
  import opened Wrappers
  import opened Clock

  /**
   * A stored or about-to-be-stored user. `id` is `None` until the user store
   * assigns one on save.
   */
  datatype User = User(
    id: Option<nat>,
    email: string,
    name: string,
    hashedPassword: string,
    isEmailVerified: bool,
    deleted: bool)

  /**
   * A session token: an opaque bearer `value`, its owning user, the instant it
   * expires at and the soft-delete (revoked) flag.
   */
  datatype Token = Token(
    id: Option<nat>,
    value: string,
    user: User,
    expiryAt: int,
    deleted: bool)

  /** The password hashing primitive: a digest function and its check. */
  datatype Encoder = Encoder(encode: string -> string, matches: (string, string) -> bool)

  /** The one property of the hashing primitive the service relies on: a password matches its own digest. */
  ghost predicate Sound(e: Encoder) {
    forall p: string :: e.matches(p, e.encode(p))
  }

  predicate IsAlphanumeric(c: char) {
    ('a' <= c <= 'z') || ('A' <= c <= 'Z') || ('0' <= c <= '9')
  }

  /** Length of the random alphanumeric value given to each new token. */
  const TOKEN_VALUE_LENGTH: nat := 128

  /** What the random generator produces: 128 alphanumeric characters. */
  predicate IsTokenValue(v: string) {
    |v| == TOKEN_VALUE_LENGTH && forall i :: 0 <= i < |v| ==> IsAlphanumeric(v[i])
  }

  /** The validation check: not revoked and expiring strictly after the instant `now`. */
  predicate IsLive(t: Token, now: int) {
    !t.deleted && t.expiryAt > now
  }

  /** The login reuse check: not revoked and expiring on a calendar date strictly after today's. */
  predicate ReusableOn(t: Token, now: int) {
    !t.deleted && Day(t.expiryAt) > Day(now)
  }

  /** Every token login would reuse is one validation accepts at the same instant. */
  lemma ReusableIsLive(t: Token, now: int)
    requires ReusableOn(t, now)
    ensures IsLive(t, now)
  {
    LaterDayIsLaterInstant(t.expiryAt, now);
  }

  /**
   * The converse fails: a token that expires later today is live but login does
   * not reuse it.
   */
  lemma LiveTokenNotReusableLaterToday(t: Token, now: int)
    requires !t.deleted && t.expiryAt == now + 1 && now % DAY < DAY - 1
    ensures IsLive(t, now) && !ReusableOn(t, now)
  {
    LaterInstantSameDay(now);
  }
}
