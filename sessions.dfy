/**
 * The decisions of the credential and session service as functions of the
 * stores' contents: which token login returns and what it stores, what
 * logout does to the token store.
 */
module Sessions {
  import opened Wrappers
  import opened Clock
  import opened Models
  import opened Repositories

  /**
   * What login hands back: a token, the `null` the source returns for a missing
   * email or a wrong password, or the `UserNotFoundException` it throws.
   */
  datatype LoginResult = Issued(token: Token) | NoToken | UserNotFound

  /** A present entry of the owner's token list that login may reuse on the day of `now`. */
  predicate ReusableEntry(entry: Option<Token>, now: int) {
    entry.Some? && ReusableOn(entry.value, now)
  }

  /**
   * The position of the first reusable entry of `found` at or after `i`, or
   * `|found|` when there is none. Empty entries are skipped.
   */
  function FirstReusableFrom(found: seq<Option<Token>>, now: int, i: nat): (k: nat)
    requires i <= |found|
    ensures i <= k <= |found|
    ensures k < |found| ==> ReusableEntry(found[k], now)
    ensures forall j :: i <= j < k ==> !ReusableEntry(found[j], now)
    decreases |found| - i
  {
    if i == |found| then i
    else if ReusableEntry(found[i], now) then i
    else FirstReusableFrom(found, now, i + 1)
  }

  /** The owner's token list has a reusable entry exactly when one of the owner's stored tokens is reusable. */
  lemma MintOnlyWhenNoneReusable(tokens: seq<Token>, user: User, now: int)
    ensures var found := FindTokensByUser(tokens, user);
      FirstReusableFrom(found, now, 0) == |found| <==>
      forall t :: t in tokens && t.user.id == user.id ==> !ReusableOn(t, now)
  {
    var found := FindTokensByUser(tokens, user);
    if FirstReusableFrom(found, now, 0) == |found| {
      forall t | t in tokens && t.user.id == user.id
        ensures !ReusableOn(t, now)
      {
        var j :| 0 <= j < |found| && found[j] == Some(t);
        assert !ReusableEntry(found[j], now);
      }
    }
  }

  /**
   * `generateToken`: a fresh, not yet stored token for `user` carrying `value`,
   * expiring at the start of the day thirty days after today.
   */
  function GenerateToken(user: User, now: int, value: string): (t: Token)
    ensures t.id.None? && t.user == user && t.value == value && !t.deleted
    ensures Day(t.expiryAt) == Day(now) + TOKEN_LIFETIME_DAYS && t.expiryAt == StartOfDay(Day(t.expiryAt))
    ensures ReusableOn(t, now) && IsLive(t, now)
  {
    StartOfLaterDayIsAfter(now, TOKEN_LIFETIME_DAYS);
    Token(None, value, user, StartOfDay(Day(now) + TOKEN_LIFETIME_DAYS), false)
  }

  /**
   * A token after logout of `value`: revoked if it carried that value and was
   * not yet revoked, whether or not it has expired; otherwise unchanged.
   */
  function Revoke(t: Token, value: string): (r: Token)
    ensures r.(deleted := t.deleted) == t
  {
    if t.value == value && !t.deleted then t.(deleted := true) else t
  }

  /** The token store after logout of `value`. */
  function AfterLogout(tokens: seq<Token>, value: string): seq<Token>
  {
    seq(|tokens|, i requires 0 <= i < |tokens| => Revoke(tokens[i], value))
  }

  /**
   * With unique values, revoking the one token that carries `value` and is
   * not revoked is the whole of logout.
   */
  lemma RevokingTheMatchIsLogout(tokens: seq<Token>, i: nat, value: string)
    requires UniqueValues(tokens)
    requires i < |tokens| && tokens[i].value == value && !tokens[i].deleted
    ensures tokens[i := tokens[i].(deleted := true)] == AfterLogout(tokens, value)
  {
    forall j | 0 <= j < |tokens| && j != i ensures Revoke(tokens[j], value) == tokens[j] {
      assert tokens[j].value != tokens[i].value;
    }
  }

  /** When no token that is not revoked carries `value`, logout changes nothing. */
  lemma NoMatchIsNoOp(tokens: seq<Token>, value: string)
    requires forall t :: t in tokens ==> !(t.value == value && !t.deleted)
    ensures AfterLogout(tokens, value) == tokens
  {
    forall j | 0 <= j < |tokens| ensures Revoke(tokens[j], value) == tokens[j] {
      assert tokens[j] in tokens;
    }
  }

  /** Logout looks only at the revoked flag: it also revokes a token that has already expired. */
  lemma LogoutRevokesExpiredToken(t: Token, now: int)
    requires !t.deleted && t.expiryAt <= now
    ensures !IsLive(t, now) && AfterLogout([t], t.value) == [t.(deleted := true)]
  {
  }

  /** Logging out the same value twice leaves the store as logging out once. */
  lemma LogoutIdempotent(tokens: seq<Token>, value: string)
    ensures AfterLogout(AfterLogout(tokens, value), value) == AfterLogout(tokens, value)
  {
  }

  /** After logout of a value, no token with that value passes validation, at any instant. */
  lemma LogoutRejectsValue(tokens: seq<Token>, value: string, now: int)
    ensures FindByValueAndDeletedAndExpiryAtGreaterThan(AfterLogout(tokens, value), value, false, now).None?
  {
    var after := AfterLogout(tokens, value);
    forall t | t in after ensures !(t.value == value && !t.deleted && t.expiryAt > now) {
      var i :| 0 <= i < |after| && after[i] == t;
    }
  }

  /** Logout of one value leaves validation of every other value as it was. */
  lemma LogoutKeepsOtherValues(tokens: seq<Token>, value: string, other: string, now: int)
    requires other != value
    ensures FindByValueAndDeletedAndExpiryAtGreaterThan(AfterLogout(tokens, value), other, false, now)
         == FindByValueAndDeletedAndExpiryAtGreaterThan(tokens, other, false, now)
  {
    if |tokens| > 0 {
      assert AfterLogout(tokens, value)[1..] == AfterLogout(tokens[1..], value);
      LogoutKeepsOtherValues(tokens[1..], value, other, now);
    }
  }

  /**
   * `checkAndReturnTokenIfExist` on values: the first reusable token in the
   * user's list and the unchanged store, or a newly generated token stored
   * under the next id.
   */
  function ReuseOrMint(tokens: seq<Token>, user: User, now: int, freshValue: string): (Token, seq<Token>)
  {
    var found := FindTokensByUser(tokens, user);
    var k := FirstReusableFrom(found, now, 0);
    if k < |found| then (found[k].value, tokens)
    else
      var minted := GenerateToken(user, now, freshValue).(id := Some(|tokens|));
      (minted, tokens + [minted])
  }

  /**
   * `login` on values: its result and the token store afterwards, given the
   * user store, the password encoder, the instant and the random value.
   */
  function LoginTransition(users: seq<User>, tokens: seq<Token>, encoder: Encoder, email: Option<string>,
                           password: string, now: int, freshValue: string): (LoginResult, seq<Token>)
  {
    if email.None? then (NoToken, tokens)
    else match FindUserByEmail(users, email.value)
      case None => (UserNotFound, tokens)
      case Some(user) =>
        if !encoder.matches(password, user.hashedPassword) then (NoToken, tokens)
        else
          var (token, after) := ReuseOrMint(tokens, user, now, freshValue);
          (Issued(token), after)
  }

  /** A value not carried by any stored token. */
  ghost predicate Unused(tokens: seq<Token>, value: string) {
    forall t :: t in tokens ==> t.value != value
  }

  /**
   * Login stores nothing unless it issues a token, stores at most one new
   * token, and never changes a stored one.
   */
  lemma LoginAddsAtMostOneToken(users: seq<User>, tokens: seq<Token>, encoder: Encoder, email: Option<string>,
                                password: string, now: int, freshValue: string)
    ensures var (r, after) := LoginTransition(users, tokens, encoder, email, password, now, freshValue);
      && (!r.Issued? ==> after == tokens)
      && (after == tokens || after == tokens + [r.token])
  {
  }

  /**
   * Login mints a token exactly when the user owns no reusable token; the
   * minted token belongs to the user, is not revoked, carries the random
   * value and expires at the start of the day thirty days after today.
   */
  lemma LoginMintsOnlyWithoutReusable(users: seq<User>, tokens: seq<Token>, encoder: Encoder, email: Option<string>,
                                      password: string, now: int, freshValue: string)
    requires email.Some? && FindUserByEmail(users, email.value).Some?
    requires encoder.matches(password, FindUserByEmail(users, email.value).value.hashedPassword)
    ensures var user := FindUserByEmail(users, email.value).value;
      var (r, after) := LoginTransition(users, tokens, encoder, email, password, now, freshValue);
      && r.Issued? && r.token.user.id == user.id
      && (after != tokens <==> forall t :: t in tokens && t.user.id == user.id ==> !ReusableOn(t, now))
      && (after != tokens ==>
            && r.token == Token(Some(|tokens|), freshValue, user, StartOfDay(Day(now) + TOKEN_LIFETIME_DAYS), false)
            && after == tokens + [r.token])
  {
    MintOnlyWhenNoneReusable(tokens, FindUserByEmail(users, email.value).value, now);
  }

  /**
   * Every token login issues is live at the same instant, is stored, and is
   * what validation finds for its value; values stay unique.
   */
  lemma LoginIssuesValidatingToken(users: seq<User>, tokens: seq<Token>, encoder: Encoder, email: Option<string>,
                                   password: string, now: int, freshValue: string)
    requires UniqueValues(tokens) && Unused(tokens, freshValue)
    ensures var (r, after) := LoginTransition(users, tokens, encoder, email, password, now, freshValue);
      && UniqueValues(after)
      && (r.Issued? ==>
            && r.token in after && IsLive(r.token, now)
            && FindByValueAndDeletedAndExpiryAtGreaterThan(after, r.token.value, false, now) == Some(r.token))
  {
    var (r, after) := LoginTransition(users, tokens, encoder, email, password, now, freshValue);
    if r.Issued? {
      if after == tokens {
        ReusableIsLive(r.token, now);
      } else {
        assert after == tokens + [r.token];
        assert UniqueValues(after) by {
          forall i, j | 0 <= i < j < |after| ensures after[i].value != after[j].value {
            if j == |tokens| {
              assert after[i] in tokens;
            }
          }
        }
      }
      LiveTokenIsFound(after, r.token, now);
    }
  }

  /**
   * A second login with the same credentials at the same instant issues a
   * reusable token and stores nothing: the first login left one behind.
   */
  lemma SecondLoginStoresNothing(users: seq<User>, tokens: seq<Token>, encoder: Encoder, email: Option<string>,
                                 password: string, now: int, first: string, second: string)
    requires LoginTransition(users, tokens, encoder, email, password, now, first).0.Issued?
    ensures var (_, after) := LoginTransition(users, tokens, encoder, email, password, now, first);
      var (r, again) := LoginTransition(users, after, encoder, email, password, now, second);
      r.Issued? && ReusableOn(r.token, now) && again == after
  {
    var user := FindUserByEmail(users, email.value).value;
    var (r1, after) := LoginTransition(users, tokens, encoder, email, password, now, first);
    var found := FindTokensByUser(tokens, user);
    var k := FirstReusableFrom(found, now, 0);
    assert r1.token in after && r1.token.user.id == user.id && ReusableOn(r1.token, now) by {
      if k == |found| {
        assert after == tokens + [r1.token];
      }
    }
    MintOnlyWhenNoneReusable(after, user, now);
  }

  /**
   * A user whose password matches its own digest and who owns no token gets a
   * new token from login that validation accepts, whatever tokens other users
   * hold.
   */
  lemma SignupThenLoginValidates(users: seq<User>, tokens: seq<Token>, encoder: Encoder, user: User,
                                 password: string, now: int, freshValue: string)
    requires Sound(encoder)
    requires user in users && user.hashedPassword == encoder.encode(password)
    requires forall u :: u in users && u.email == user.email ==> u == user
    requires UniqueValues(tokens) && Unused(tokens, freshValue)
    requires forall t :: t in tokens ==> t.user.id != user.id
    ensures var (r, after) := LoginTransition(users, tokens, encoder, Some(user.email), password, now, freshValue);
      && r.Issued? && r.token.user == user && r.token.value == freshValue
      && FindByValueAndDeletedAndExpiryAtGreaterThan(after, freshValue, false, now) == Some(r.token)
  {
    LoginMintsOnlyWithoutReusable(users, tokens, encoder, Some(user.email), password, now, freshValue);
    LoginIssuesValidatingToken(users, tokens, encoder, Some(user.email), password, now, freshValue);
  }

}
