/**
 * A client of the service: signup, then logins with the right password, a
 * wrong password and an unknown email, then logout, checked from the
 * contracts alone.
 */
module Scenarios {
  import opened Wrappers
  import opened Models
  import opened Repositories
  import opened Sessions
  import opened Services

  /** A stand-in encoder whose digest is the password behind a marker. */
  function MarkerEncoder(): (e: Encoder)
    ensures Sound(e)
    ensures !e.matches("wrong", e.encode("pw123"))
  {
    assert ("#" + "wrong")[1] != ("#" + "pw123")[1];
    Encoder(p => "#" + p, (p, d) => d == "#" + p)
  }

  /** A value of 128 copies of one alphanumeric character. */
  function Repeated(c: char): (v: string)
    requires IsAlphanumeric(c)
    ensures IsTokenValue(v) && v[0] == c
  {
    seq(TOKEN_VALUE_LENGTH, i => c)
  }

  /** Signup, then a login that mints a session which validation accepts. */
  method LoginIssuesSession(now: int)
  {
    var service := new UserService(MarkerEncoder());
    var alice := service.Signup("a@x.com", "Alice", "pw123");
    assert FindUserByEmail(service.users, "a@x.com") == Some(alice);
    assert FindTokensByUser([], alice) == [];
    var r := service.Login(Some("a@x.com"), "pw123", now, Repeated('a'));
    assert r.Issued? && r.token.value == Repeated('a') && r.token.user == alice;
    assert service.ValidateToken(Repeated('a'), now) == Some(alice);
  }

  /** A missing email or a wrong password yields no token, an unknown email UserNotFound; none stores a token. */
  method FailedLogins(now: int)
  {
    var service := new UserService(MarkerEncoder());
    var alice := service.Signup("a@x.com", "Alice", "pw123");
    assert FindUserByEmail(service.users, "a@x.com") == Some(alice);
    var wrong := service.Login(Some("a@x.com"), "wrong", now, Repeated('a'));
    assert wrong == NoToken;
    assert FindUserByEmail(service.users, "nobody@x.com") == None;
    var nobody := service.Login(Some("nobody@x.com"), "pw", now, Repeated('a'));
    assert nobody == UserNotFound;
    var absent := service.Login(None, "pw123", now, Repeated('a'));
    assert absent == NoToken && service.tokens == [];
  }

  /** Logout makes the session fail validation. */
  method LogoutRevokesSession(now: int, later: int)
  {
    var service := new UserService(MarkerEncoder());
    var alice := service.Signup("a@x.com", "Alice", "pw123");
    assert FindUserByEmail(service.users, "a@x.com") == Some(alice);
    assert FindTokensByUser([], alice) == [];
    var r := service.Login(Some("a@x.com"), "pw123", now, Repeated('a'));
    assert service.tokens == [r.token];
    service.Logout(Repeated('a'));
    assert service.tokens == [r.token.(deleted := true)];
    assert service.ValidateToken(Repeated('a'), later) == None;
  }
}
