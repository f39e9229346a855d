/**
 * The credential and session service: signup, login with session reuse,
 * logout, and token validation, over a user store and a token store that it
 * updates in place.
 */
module Services {
  import opened Wrappers
  import opened Clock
  import opened Models
  import opened Repositories
  import opened Sessions

  class UserService {
    /** The password hashing primitive (BCrypt in the source). */
    const encoder: Encoder
    /** The user store, in insertion order; a user's id is its position. */
    var users: seq<User>
    /** The token store, in insertion order; a token's id is its position. */
    var tokens: seq<Token>

    /**
     * The store invariant: ids are positions, every token's owner is a stored
     * user, token values are unique, and the encoder accepts its own digests.
     */
    ghost predicate Valid()
      reads this
    {
      && Sound(encoder)
      && (forall i :: 0 <= i < |users| ==> users[i].id == Some(i))
      && (forall i :: 0 <= i < |tokens| ==> tokens[i].id == Some(i))
      && (forall i :: 0 <= i < |tokens| ==> tokens[i].user in users)
      && UniqueValues(tokens)
    }

    constructor (encoder: Encoder)
      requires Sound(encoder)
      ensures Valid() && this.encoder == encoder && users == [] && tokens == []
    {
      this.encoder := encoder;
      users := [];
      tokens := [];
    }

    /**
     * `signup`: stores and returns a verified, not deleted user whose digest
     * is the encoding of `password`; the token store is untouched.
     */
    method Signup(email: string, name: string, password: string) returns (user: User)
      requires Valid()
      modifies this
      ensures Valid()
      ensures user == User(Some(|old(users)|), email, name, encoder.encode(password), true, false)
      ensures users == old(users) + [user] && tokens == old(tokens)
      ensures encoder.matches(password, user.hashedPassword)
    {
      user := User(None, email, name, encoder.encode(password), true, false);
      user := user.(id := Some(|users|));
      users := users + [user];
    }

    /**
     * `tokenRepository.save`: a token without an id is appended under the
     * next id; a token with an id replaces the stored token with that id.
     */
    method SaveToken(t: Token) returns (saved: Token)
      requires Valid()
      requires t.user in users
      requires t.id.Some? ==> t.id.value < |tokens|
      requires forall i :: 0 <= i < |tokens| && t.id != Some(i) ==> tokens[i].value != t.value
      modifies this
      ensures Valid() && users == old(users)
      ensures t.id.None? ==> saved == t.(id := Some(|old(tokens)|)) && tokens == old(tokens) + [saved]
      ensures t.id.Some? ==> saved == t && tokens == old(tokens)[t.id.value := t]
    {
      if t.id.None? {
        saved := t.(id := Some(|tokens|));
        AppendKeepsUnique(tokens, saved);
        tokens := tokens + [saved];
      } else {
        saved := t;
        ReplaceKeepsUnique(tokens, t.id.value, t);
        tokens := tokens[t.id.value := t];
      }
    }

    /**
     * `checkAndReturnTokenIfExist`: scans the user's token list for the first
     * token that is not revoked and expires on a later date than today's; if
     * there is none, generates a token and stores it.
     */
    method CheckAndReturnTokenIfExist(user: User, now: int, freshValue: string) returns (token: Token)
      requires Valid() && user in users
      requires Unused(tokens, freshValue)
      modifies this
      ensures Valid() && users == old(users)
      ensures (token, tokens) == ReuseOrMint(old(tokens), user, now, freshValue)
      ensures token in tokens
    {
      var found := FindTokensByUser(tokens, user);
      if |found| != 0 {
        var currentDay := Day(now);
        var i := 0;
        while i < |found|
          invariant 0 <= i <= |found|
          invariant FirstReusableFrom(found, now, 0) == FirstReusableFrom(found, now, i)
        {
          if found[i].None? {
            i := i + 1;
            continue;
          }
          var candidate := found[i].value;
          var expiryDate := Day(candidate.expiryAt);
          if !candidate.deleted && expiryDate > currentDay {
            return candidate;
          }
          i := i + 1;
        }
      }
      var generated := GenerateToken(user, now, freshValue);
      token := SaveToken(generated);
    }

    /**
     * `login`: a `null` email gives no token; an unknown email raises
     * UserNotFound; a wrong password gives no token; otherwise the token from
     * CheckAndReturnTokenIfExist, saved once more. Any token returned is
     * accepted by validation at the same instant.
     */
    method Login(email: Option<string>, password: string, now: int, freshValue: string) returns (r: LoginResult)
      requires Valid()
      requires IsTokenValue(freshValue) && Unused(tokens, freshValue)
      modifies this
      ensures Valid() && users == old(users)
      ensures (r, tokens) == LoginTransition(users, old(tokens), encoder, email, password, now, freshValue)
      ensures r.Issued? ==> r.token in tokens && IsLive(r.token, now)
      ensures |tokens| != |old(tokens)| ==> r.Issued? && IsTokenValue(r.token.value)
      ensures r.Issued? ==> ValidateToken(r.token.value, now) == Some(r.token.user)
    {
      ghost var before := tokens;
      if email.None? {
        return NoToken;
      }
      var optionalUser := FindUserByEmail(users, email.value);
      if optionalUser.None? {
        return UserNotFound;
      }
      var user := optionalUser.value;
      if !encoder.matches(password, user.hashedPassword) {
        return NoToken;
      }
      var token := CheckAndReturnTokenIfExist(user, now, freshValue);
      ghost var stored := tokens;
      ResavingIsNoOp(tokens, token);
      var saved := SaveToken(token);
      assert saved == token && tokens == stored;
      r := Issued(saved);
      LoginIssuesValidatingToken(users, before, encoder, email, password, now, freshValue);
    }

    /**
     * `logout`: revokes the token carrying `value` that is not revoked yet,
     * expired or not, if there is one; every other token is untouched.
     */
    method Logout(value: string)
      requires Valid()
      modifies this
      ensures Valid() && users == old(users)
      ensures tokens == AfterLogout(old(tokens), value)
      ensures forall now :: ValidateToken(value, now).None?
    {
      ghost var before := tokens;
      var optionalToken := FindByValueAndDeleted(tokens, value, false);
      if optionalToken.Some? {
        ResavingIsNoOp(tokens, optionalToken.value);
        var token := optionalToken.value.(deleted := true);
        RevokingTheMatchIsLogout(tokens, token.id.value, value);
        var _ := SaveToken(token);
      } else {
        NoMatchIsNoOp(tokens, value);
      }
      assert tokens == AfterLogout(before, value);
      forall now ensures ValidateToken(value, now).None? {
        LogoutRejectsValue(before, value, now);
      }
    }

    /**
     * `validateToken`: the owner of the token carrying `value` when that token
     * is not revoked and expires strictly after `now`; `None` (the source's
     * `null`) otherwise.
     */
    function ValidateToken(value: string, now: int): (r: Option<User>)
      reads this
      ensures r.Some? <==> exists t :: t in tokens && t.value == value && IsLive(t, now)
      ensures r.Some? ==> exists t :: t in tokens && t.value == value && IsLive(t, now) && t.user == r.value
    {
      match FindByValueAndDeletedAndExpiryAtGreaterThan(tokens, value, false, now)
      case Some(t) => Some(t.user)
      case None => None
    }
  }
}
