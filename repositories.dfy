/**
 * The query semantics of the user and token stores the service calls. A store
 * is the sequence of its records in insertion order; each derived query scans
 * it from the front.
 */
module Repositories {
  import opened Wrappers
  import opened Models

  /** `userRepository.findByEmail`: a stored user with that email, or none. */
  function FindUserByEmail(users: seq<User>, email: string): (r: Option<User>)
    ensures r.Some? ==> r.value in users && r.value.email == email
    ensures r.None? <==> forall u :: u in users ==> u.email != email
  {
    if |users| == 0 then None
    else if users[0].email == email then Some(users[0])
    else FindUserByEmail(users[1..], email)
  }

  /**
   * `tokenRepository.findByUser`: every token whose owner has the user's id,
   * each wrapped as present, in store order.
   */
  function FindTokensByUser(tokens: seq<Token>, user: User): (found: seq<Option<Token>>)
    ensures |found| <= |tokens|
    ensures forall k :: 0 <= k < |found| ==>
      found[k].Some? && found[k].value in tokens && found[k].value.user.id == user.id
    ensures forall t :: t in tokens && t.user.id == user.id ==> Some(t) in found
  {
    if |tokens| == 0 then []
    else
      var rest := FindTokensByUser(tokens[1..], user);
      if tokens[0].user.id == user.id then [Some(tokens[0])] + rest else rest
  }

  /** `tokenRepository.findByValueAndDeleted`: a token with that value and deleted flag, or none. */
  function FindByValueAndDeleted(tokens: seq<Token>, value: string, deleted: bool): (r: Option<Token>)
    ensures r.Some? ==> r.value in tokens && r.value.value == value && r.value.deleted == deleted
    ensures r.None? <==> forall t :: t in tokens ==> !(t.value == value && t.deleted == deleted)
  {
    if |tokens| == 0 then None
    else if tokens[0].value == value && tokens[0].deleted == deleted then Some(tokens[0])
    else FindByValueAndDeleted(tokens[1..], value, deleted)
  }

  /**
   * `tokenRepository.findByValueAndDeletedAndExpiryAtGreaterThan`: a token with
   * that value and deleted flag whose expiry is strictly after `date`, or none.
   */
  function FindByValueAndDeletedAndExpiryAtGreaterThan(tokens: seq<Token>, value: string, deleted: bool, date: int)
    : (r: Option<Token>)
    ensures r.Some? ==>
      r.value in tokens && r.value.value == value && r.value.deleted == deleted && r.value.expiryAt > date
    ensures r.None? <==>
      forall t :: t in tokens ==> !(t.value == value && t.deleted == deleted && t.expiryAt > date)
  {
    if |tokens| == 0 then None
    else if tokens[0].value == value && tokens[0].deleted == deleted && tokens[0].expiryAt > date then Some(tokens[0])
    else FindByValueAndDeletedAndExpiryAtGreaterThan(tokens[1..], value, deleted, date)
  }

  /** No two stored tokens share a value. */
  ghost predicate UniqueValues(tokens: seq<Token>) {
    forall i, j :: 0 <= i < j < |tokens| ==> tokens[i].value != tokens[j].value
  }

  /** Storing a token under a new position keeps values unique when its value is unused. */
  lemma AppendKeepsUnique(tokens: seq<Token>, t: Token)
    requires UniqueValues(tokens)
    requires forall i :: 0 <= i < |tokens| ==> tokens[i].value != t.value
    ensures UniqueValues(tokens + [t])
  {
  }

  /** Replacing the token at position `k` keeps values unique when no other token carries its value. */
  lemma ReplaceKeepsUnique(tokens: seq<Token>, k: nat, t: Token)
    requires UniqueValues(tokens) && k < |tokens|
    requires forall i :: 0 <= i < |tokens| && i != k ==> tokens[i].value != t.value
    ensures UniqueValues(tokens[k := t])
  {
  }

  /**
   * In a store whose ids are positions and whose values are unique, saving a
   * stored token again meets the save's preconditions and changes nothing.
   */
  lemma ResavingIsNoOp(tokens: seq<Token>, t: Token)
    requires UniqueValues(tokens) && t in tokens
    requires forall i :: 0 <= i < |tokens| ==> tokens[i].id == Some(i)
    ensures t.id.Some? && t.id.value < |tokens| && tokens[t.id.value := t] == tokens
    ensures forall i :: 0 <= i < |tokens| && t.id != Some(i) ==> tokens[i].value != t.value
  {
    var k :| 0 <= k < |tokens| && tokens[k] == t;
    assert tokens[k := t] == tokens;
  }

  /**
   * With unique values, the validation query finds a live stored token by its
   * value, and finds that very token.
   */
  lemma LiveTokenIsFound(tokens: seq<Token>, t: Token, now: int)
    requires UniqueValues(tokens)
    requires t in tokens && IsLive(t, now)
    ensures FindByValueAndDeletedAndExpiryAtGreaterThan(tokens, t.value, false, now) == Some(t)
  {
    var r := FindByValueAndDeletedAndExpiryAtGreaterThan(tokens, t.value, false, now);
    var i :| 0 <= i < |tokens| && tokens[i] == t;
    var j :| 0 <= j < |tokens| && tokens[j] == r.value;
    assert i == j;
  }
}
