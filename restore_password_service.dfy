/** The password-reset token lifecycle: issuing a sealed, time-limited
    token for the user with a given e-mail address, and redeeming it once
    to set a new password. The user directory is the sequence of security
    users with their login records; the outstanding token of a user is the
    `providerUserKey` of its login record under the provider name
    "RestorePasswordToken". */
module RestorePassword {
  import opened Wrappers
  import opened Collections
  import opened Text
  import opened Sealing

  const LoginProviderName := "RestorePasswordToken"
  /** The purpose the data protector is created with. */
  const ProtectorPurpose := "RestorePassword"
  /** `TimeSpan.FromHours(1)`, in seconds. */
  const TokenLifetime: Instant := 60 * 60
  /** The query parameter that carries a token into the login page. */
  const TokenQueryParameter := "restorePasswordToken"

  datatype LoginInfo = LoginInfo(loginProviderName: string, providerUserKey: string)

  /** A security user with login info; `key` is the string form of its
      object key (`GetKeyValueAsString`). */
  datatype SecurityUser = SecurityUser(
    key: string, email: Option<string>, password: Option<string>, userLogins: seq<LoginInfo>)

  datatype IssueError = EmailNotSpecified | UserNotFound

  /** Why a presented token does not authorise a password change. All of
      them surface as the same exception to the caller. */
  datatype TokenRejection = CannotUnprotect | MalformedPayload | UnknownUser | NotCurrentToken

  predicate IsRestoreRecord(info: LoginInfo) {
    info.loginProviderName == LoginProviderName
  }

  predicate IsOtherRecord(info: LoginInfo) {
    !IsRestoreRecord(info)
  }

  /** `UserLogins.FirstOrDefault(info => info.LoginProviderName == LoginProviderName)`. */
  function TokenRecord(logins: seq<LoginInfo>): Option<nat> {
    FirstIndex(logins, IsRestoreRecord)
  }

  function TokenRecordCount(logins: seq<LoginInfo>): nat {
    Count(logins, IsRestoreRecord)
  }

  /** `FindObject(type, "Email = ?")`: the first user with that address. */
  function UserByEmail(users: seq<SecurityUser>, email: string): Option<nat> {
    FirstIndex(users, (u: SecurityUser) => u.email == Some(email))
  }

  /** `GetObjectByKey(type, GetObjectKey(type, id))`. */
  function UserByKey(users: seq<SecurityUser>, id: string): Option<nat> {
    FirstIndex(users, (u: SecurityUser) => u.key == id)
  }

  /** Object keys identify users. */
  ghost predicate UniqueKeys(users: seq<SecurityUser>) {
    forall i, j :: 0 <= i < j < |users| ==> users[i].key != users[j].key
  }

  /** At most one live token per user. */
  ghost predicate AtMostOneTokenEach(users: seq<SecurityUser>) {
    forall i :: 0 <= i < |users| ==> TokenRecordCount(users[i].userLogins) <= 1
  }

  /** The sealed token issued at `now`, with the protector's fresh
      `nonce`, for the user whose key is `key`: the serialized payload
      sealed under "RestorePassword" with an expiration one hour ahead. */
  function Seal(p: TimeLimitedProtector, j: TokenSerializer, key: string, now: Instant, nonce: nat): string {
    p.protect(ProtectorPurpose, j.serialize(key), now + TokenLifetime, nonce)
  }

  function RestorePasswordUrl(baseUri: string, token: string): string {
    baseUri + "LoginPage?restorePasswordToken=" + token
  }

  /** The login records after issuing `t`: the first restore record, if
      any, is deleted and a new one holding `t` is added. */
  function ReplaceTokenRecord(logins: seq<LoginInfo>, t: string): seq<LoginInfo> {
    WithoutTokenRecord(logins) + [LoginInfo(LoginProviderName, t)]
  }

  /** The login records with the first restore record, if any, deleted. */
  function WithoutTokenRecord(logins: seq<LoginInfo>): seq<LoginInfo> {
    match TokenRecord(logins)
    case None => logins
    case Some(k) => RemoveAt(logins, k)
  }

  /** The directory after issuing `t` to user `i`. */
  function Issued(users: seq<SecurityUser>, i: nat, t: string): seq<SecurityUser>
    requires i < |users|
  {
    users[i := users[i].(userLogins := ReplaceTokenRecord(users[i].userLogins, t))]
  }

  /** The directory after user `i` redeems the token held in record `k`. */
  function Consumed(users: seq<SecurityUser>, i: nat, k: nat, newPassword: string): seq<SecurityUser>
    requires i < |users| && k < |users[i].userLogins|
  {
    users[i := users[i].(userLogins := RemoveAt(users[i].userLogins, k), password := Some(newPassword))]
  }

  /** The checks `SetNewPassword` makes before changing anything: the token
      unseals within its lifetime, its payload names a user, and that
      user's restore record holds exactly this token. On success, the
      user's index and the index of that record. */
  function Resolve(p: TimeLimitedProtector, j: TokenSerializer, users: seq<SecurityUser>,
                   token: Option<string>, now: Instant): (r: Result<(nat, nat), TokenRejection>)
    ensures r.Success? ==> token.Some?
    ensures r.Success? ==>
      var (i, k) := r.value;
      i < |users| && k < |users[i].userLogins| && UserByKey(users, users[i].key) == Some(i) &&
      TokenRecord(users[i].userLogins) == Some(k) &&
      users[i].userLogins[k] == LoginInfo(LoginProviderName, token.value)
    ensures r.Success? ==>
      Unprotect(p, ProtectorPurpose, token.value, now).Some? &&
      j.deserialize(Unprotect(p, ProtectorPurpose, token.value, now).value) == Some(users[r.value.0].key)
  {
    if token.None? then Failure(CannotUnprotect)
    else match Unprotect(p, ProtectorPurpose, token.value, now)
      case None => Failure(CannotUnprotect)
      case Some(text) =>
        match j.deserialize(text)
        case None => Failure(MalformedPayload)
        case Some(id) =>
          match UserByKey(users, id)
          case None => Failure(UnknownUser)
          case Some(i) =>
            match TokenRecord(users[i].userLogins)
            case None => Failure(NotCurrentToken)
            case Some(k) =>
              if users[i].userLogins[k].providerUserKey == token.value then Success((i, k))
              else Failure(NotCurrentToken)
  }

  /** Issuing replaces one restore record by one holding the new token and
      leaves the records of other providers as they were. */
  lemma ReplaceTokenRecordEffect(logins: seq<LoginInfo>, t: string)
    ensures var r := ReplaceTokenRecord(logins, t);
      |r| > 0 && r[|r| - 1] == LoginInfo(LoginProviderName, t) &&
      TokenRecordCount(r) == (if TokenRecordCount(logins) == 0 then 1 else TokenRecordCount(logins)) &&
      Filter(r, IsOtherRecord) == Filter(logins, IsOtherRecord)
  {
    var newRecord := LoginInfo(LoginProviderName, t);
    match TokenRecord(logins)
    case None =>
      AppendOne(logins, newRecord, IsRestoreRecord);
      AppendOne(logins, newRecord, IsOtherRecord);
    case Some(k) =>
      RemoveAtCount(logins, k, IsRestoreRecord, IsOtherRecord);
      AppendOne(RemoveAt(logins, k), newRecord, IsRestoreRecord);
      AppendOne(RemoveAt(logins, k), newRecord, IsOtherRecord);
  }

  /** A user with at most one restore record has, after issuing, exactly
      one, and it holds the new token. */
  lemma AppendTokenRecord(rest: seq<LoginInfo>, t: string)
    requires TokenRecordCount(rest) == 0
    ensures var r := rest + [LoginInfo(LoginProviderName, t)];
      TokenRecordCount(r) == 1 && TokenRecord(r) == Some(|rest|) &&
      forall m :: 0 <= m < |r| && IsRestoreRecord(r[m]) ==> r[m].providerUserKey == t
  {
    var newRecord := LoginInfo(LoginProviderName, t);
    AppendOne(rest, newRecord, IsRestoreRecord);
    var r := rest + [newRecord];
    assert forall m :: 0 <= m < |rest| ==> r[m] == rest[m];
  }

  lemma ReplaceTokenRecordLeavesOne(logins: seq<LoginInfo>, t: string)
    requires TokenRecordCount(logins) <= 1
    ensures var r := ReplaceTokenRecord(logins, t);
      TokenRecordCount(r) == 1 && TokenRecord(r) == Some(|r| - 1) &&
      forall m :: 0 <= m < |r| && IsRestoreRecord(r[m]) ==> r[m].providerUserKey == t
  {
    WithoutTokenRecordLeavesNone(logins);
    AppendTokenRecord(WithoutTokenRecord(logins), t);
  }

  /** Deleting the first restore record of a user with at most one leaves
      none. */
  lemma WithoutTokenRecordLeavesNone(logins: seq<LoginInfo>)
    requires TokenRecordCount(logins) <= 1
    ensures TokenRecordCount(WithoutTokenRecord(logins)) == 0
  {
    var found := TokenRecord(logins);
    if found.Some? {
      RemoveAtCount(logins, found.value, IsRestoreRecord, IsOtherRecord);
    }
  }

  lemma IssuedKeepsAtMostOne(users: seq<SecurityUser>, i: nat, t: string)
    requires i < |users| && AtMostOneTokenEach(users)
    ensures AtMostOneTokenEach(Issued(users, i, t))
  {
    ReplaceTokenRecordLeavesOne(users[i].userLogins, t);
  }

  lemma ConsumedKeepsAtMostOne(users: seq<SecurityUser>, i: nat, k: nat, pw: string)
    requires i < |users| && k < |users[i].userLogins| && IsRestoreRecord(users[i].userLogins[k])
    requires AtMostOneTokenEach(users)
    ensures AtMostOneTokenEach(Consumed(users, i, k, pw))
  {
    RemoveAtCount(users[i].userLogins, k, IsRestoreRecord, IsOtherRecord);
  }

  /** Changing only logins and passwords does not change who a key names. */
  lemma UserByKeyStable(users: seq<SecurityUser>, users': seq<SecurityUser>, id: string)
    requires |users| == |users'|
    requires forall m :: 0 <= m < |users| ==> users[m].key == users'[m].key
    ensures UserByKey(users, id) == UserByKey(users', id)
  {
    var r, r' := UserByKey(users, id), UserByKey(users', id);
    if r.Some? { assert users'[r.value].key == id; }
    if r'.Some? { assert users[r'.value].key == id; }
  }

  /** A token just issued to a user redeems within its lifetime, provided
      sealing and serialization round-trip and the user had at most one
      restore record. */
  lemma IssuedTokenRedeems(p: TimeLimitedProtector, j: TokenSerializer, users: seq<SecurityUser>,
                           i: nat, now: Instant, nonce: nat, later: Instant)
    requires RoundTrips(p) && SerializerRoundTrips(j)
    requires UniqueKeys(users) && i < |users| && TokenRecordCount(users[i].userLogins) <= 1
    requires later <= now + TokenLifetime
    ensures var t := Seal(p, j, users[i].key, now, nonce);
      var after := Issued(users, i, t);
      Resolve(p, j, after, Some(t), later) == Success((i, |after[i].userLogins| - 1))
  {
    var t := Seal(p, j, users[i].key, now, nonce);
    var after := Issued(users, i, t);
    SealedLifetime(p, ProtectorPurpose, j.serialize(users[i].key), now + TokenLifetime, nonce, later);
    assert j.deserialize(j.serialize(users[i].key)) == Some(users[i].key);
    UserByKeyStable(users, after, users[i].key);
    assert UserByKey(users, users[i].key) == Some(i) by {
      var r := UserByKey(users, users[i].key);
      assert r.Some? && users[r.value].key == users[i].key;
    }
    ReplaceTokenRecordLeavesOne(users[i].userLogins, t);
  }

  /** A token whose hour has passed is refused, whatever the directory holds. */
  lemma ExpiredTokenRejected(p: TimeLimitedProtector, j: TokenSerializer, users: seq<SecurityUser>,
                             key: string, now: Instant, nonce: nat, later: Instant)
    requires RoundTrips(p)
    requires later > now + TokenLifetime
    ensures Resolve(p, j, users, Some(Seal(p, j, key, now, nonce)), later) == Failure(CannotUnprotect)
  {
    SealedLifetime(p, ProtectorPurpose, j.serialize(key), now + TokenLifetime, nonce, later);
  }

  /** Single use: once a token has been redeemed it is refused at any later
      time. */
  lemma RedeemedTokenRejected(p: TimeLimitedProtector, j: TokenSerializer, users: seq<SecurityUser>,
                              t: string, now: Instant, pw: string, later: Instant)
    requires Resolve(p, j, users, Some(t), now).Success?
    requires TokenRecordCount(users[Resolve(p, j, users, Some(t), now).value.0].userLogins) <= 1
    ensures var (i, k) := Resolve(p, j, users, Some(t), now).value;
      Resolve(p, j, Consumed(users, i, k, pw), Some(t), later).Failure?
  {
    var (i, k) := Resolve(p, j, users, Some(t), now).value;
    var after := Consumed(users, i, k, pw);
    UserByKeyStable(users, after, users[i].key);
    RemoveAtCount(users[i].userLogins, k, IsRestoreRecord, IsOtherRecord);
    assert TokenRecord(after[i].userLogins).None?;
  }

  /** Supersession: after a new token is issued to the holder of `t1`,
      `t1` is refused at any later time. */
  lemma SupersededTokenRejected(p: TimeLimitedProtector, j: TokenSerializer, users: seq<SecurityUser>,
                                t1: string, now: Instant, t2: string, later: Instant)
    requires Resolve(p, j, users, Some(t1), now).Success?
    requires TokenRecordCount(users[Resolve(p, j, users, Some(t1), now).value.0].userLogins) <= 1
    requires t2 != t1
    ensures var i := Resolve(p, j, users, Some(t1), now).value.0;
      Resolve(p, j, Issued(users, i, t2), Some(t1), later).Failure?
  {
    var i := Resolve(p, j, users, Some(t1), now).value.0;
    var after := Issued(users, i, t2);
    UserByKeyStable(users, after, users[i].key);
    ReplaceTokenRecordLeavesOne(users[i].userLogins, t2);
  }

  /** Issuing twice to the same user and then presenting the first token
      fails: the two issues draw different nonces, so their tokens differ,
      even within the same second. */
  lemma ReissueSupersedesFirstToken(p: TimeLimitedProtector, j: TokenSerializer, users: seq<SecurityUser>,
                                    i: nat, now1: Instant, nonce1: nat, now2: Instant, nonce2: nat,
                                    later: Instant)
    requires RoundTrips(p) && SerializerRoundTrips(j)
    requires UniqueKeys(users) && i < |users| && TokenRecordCount(users[i].userLogins) <= 1
    requires NonceSeparates(p) && nonce1 != nonce2
    ensures var t1, t2 := Seal(p, j, users[i].key, now1, nonce1), Seal(p, j, users[i].key, now2, nonce2);
      Resolve(p, j, Issued(Issued(users, i, t1), i, t2), Some(t1), later).Failure?
  {
    var t1, t2 := Seal(p, j, users[i].key, now1, nonce1), Seal(p, j, users[i].key, now2, nonce2);
    var after1 := Issued(users, i, t1);
    if later <= now1 + TokenLifetime {
      IssuedTokenRedeems(p, j, users, i, now1, nonce1, later);
      ReplaceTokenRecordLeavesOne(users[i].userLogins, t1);
      SupersededTokenRejected(p, j, after1, t1, later, t2, later);
    } else {
      ExpiredTokenRejected(p, j, Issued(after1, i, t2), users[i].key, now1, nonce1, later);
    }
  }

  /** Issuing and then redeeming succeeds once; the second attempt fails. */
  lemma IssueThenRedeemOnce(p: TimeLimitedProtector, j: TokenSerializer, users: seq<SecurityUser>,
                            i: nat, now: Instant, nonce: nat, pw: string, later: Instant, again: Instant)
    requires RoundTrips(p) && SerializerRoundTrips(j)
    requires UniqueKeys(users) && i < |users| && TokenRecordCount(users[i].userLogins) <= 1
    requires later <= now + TokenLifetime
    ensures var t := Seal(p, j, users[i].key, now, nonce);
      var after := Issued(users, i, t);
      var r := Resolve(p, j, after, Some(t), later);
      r.Success? && Resolve(p, j, Consumed(after, r.value.0, r.value.1, pw), Some(t), again).Failure?
  {
    var t := Seal(p, j, users[i].key, now, nonce);
    IssuedTokenRedeems(p, j, users, i, now, nonce, later);
    ReplaceTokenRecordLeavesOne(users[i].userLogins, t);
    RedeemedTokenRejected(p, j, Issued(users, i, t), t, later, pw, again);
  }

  /** One decoded query parameter; `name` is `None` for a parameter
      written without `=`. */
  datatype QueryParameter = QueryParameter(name: Option<string>, value: string)

  /** `char.ToUpperInvariant` on the ASCII letters; other characters are
      kept. */
  function UpperAscii(c: char): (u: char)
    ensures 'a' <= c <= 'z' ==> u as int == c as int - 32
    ensures !('a' <= c <= 'z') ==> u == c
  {
    if 'a' <= c <= 'z' then (c as int - 32) as char else c
  }

  /** `StringComparer.OrdinalIgnoreCase`, the comparer of the collection
      the query string is parsed into. */
  predicate EqualsIgnoreCase(a: string, b: string) {
    |a| == |b| && forall i :: 0 <= i < |a| ==> UpperAscii(a[i]) == UpperAscii(b[i])
  }

  /** The parameter is named `name`, ignoring case. */
  predicate NameIs(q: QueryParameter, name: string) {
    q.name.Some? && EqualsIgnoreCase(q.name.value, name)
  }

  /** The values of the parameters called `name`, in order. */
  function ValuesNamed(query: seq<QueryParameter>, name: string): (vs: seq<string>)
    ensures |vs| == 0 <==> forall m :: 0 <= m < |query| ==> !NameIs(query[m], name)
    decreases |query|
  {
    if |query| == 0 then []
    else (if NameIs(query[0], name) then [query[0].value] else []) + ValuesNamed(query[1..], name)
  }

  function JoinWithCommas(vs: seq<string>): string
    requires |vs| > 0
    decreases |vs|
  {
    if |vs| == 1 then vs[0] else vs[0] + "," + JoinWithCommas(vs[1..])
  }

  /** The collection indexer `query[name]`: `null` when no parameter has
      that name in any letter case, otherwise the values given for it,
      joined by commas. */
  function QueryValue(query: seq<QueryParameter>, name: string): (r: Option<string>)
    ensures r.None? <==> forall m :: 0 <= m < |query| ==> !NameIs(query[m], name)
  {
    var vs := ValuesNamed(query, name);
    if |vs| == 0 then None else Some(JoinWithCommas(vs))
  }

  lemma {:induction false} ValuesNamedSingle(query: seq<QueryParameter>, name: string, i: nat)
    requires i < |query| && NameIs(query[i], name)
    requires forall m :: 0 <= m < |query| && NameIs(query[m], name) ==> m == i
    ensures ValuesNamed(query, name) == [query[i].value]
    decreases |query|
  {
    if i == 0 {
      assert ValuesNamed(query[1..], name) == [] by {
        forall m | 0 <= m < |query[1..]| ensures !NameIs(query[1..][m], name) {
          assert query[1..][m] == query[m + 1];
        }
      }
    } else {
      forall m | 0 <= m < |query[1..]| && NameIs(query[1..][m], name) ensures m == i - 1 {
        assert query[1..][m] == query[m + 1];
      }
      ValuesNamedSingle(query[1..], name, i - 1);
    }
  }

  /** `GetRestorePasswordTokenFromUrl`, given the decoded query of the
      current address: the `restorePasswordToken` value, if present under
      that name in any letter case. */
  function TokenFromQuery(query: seq<QueryParameter>): (r: Option<string>)
    ensures r.None? <==> forall m :: 0 <= m < |query| ==> !NameIs(query[m], TokenQueryParameter)
    ensures forall i :: 0 <= i < |query| && NameIs(query[i], TokenQueryParameter) &&
              (forall m :: 0 <= m < |query| && NameIs(query[m], TokenQueryParameter) ==> m == i)
              ==> r == Some(query[i].value)
  {
    var r := QueryValue(query, TokenQueryParameter);
    forall i | 0 <= i < |query| && NameIs(query[i], TokenQueryParameter) &&
              (forall m :: 0 <= m < |query| && NameIs(query[m], TokenQueryParameter) ==> m == i)
      ensures r == Some(query[i].value)
    {
      ValuesNamedSingle(query, TokenQueryParameter, i);
    }
    r
  }

  /** The name lookup ignores letter case: a parameter whose name equals
      "restorePasswordToken" up to case carries the token. */
  lemma TokenNameIgnoresCase(name: string, value: string)
    requires EqualsIgnoreCase(name, TokenQueryParameter)
    ensures TokenFromQuery([QueryParameter(Some(name), value)]) == Some(value)
  {
    assert NameIs([QueryParameter(Some(name), value)][0], TokenQueryParameter);
  }

  /** "RestorePasswordToken", with a capital first letter, is such a name. */
  lemma CapitalisedTokenName()
    ensures EqualsIgnoreCase("RestorePasswordToken", TokenQueryParameter)
  {
    var a := "RestorePasswordToken";
    assert a == ['R'] + TokenQueryParameter[1..];
    forall i | 0 <= i < |a| ensures UpperAscii(a[i]) == UpperAscii(TokenQueryParameter[i]) {
      if i > 0 { assert a[i] == TokenQueryParameter[i]; }
    }
  }

  /** The service over the user directory. `protector`, `serializer` and
      `baseUri` stand for the injected data-protection provider, the JSON
      serializer and the navigation manager's base address. */
  class RestorePasswordService {
    const protector: TimeLimitedProtector
    const serializer: TokenSerializer
    const baseUri: string
    var users: seq<SecurityUser>

    ghost predicate Valid()
      reads this
    {
      UniqueKeys(users)
    }

    constructor (protector: TimeLimitedProtector, serializer: TokenSerializer, baseUri: string,
                 users: seq<SecurityUser>)
      requires UniqueKeys(users)
      ensures Valid()
      ensures this.protector == protector && this.serializer == serializer
      ensures this.baseUri == baseUri && this.users == users
    {
      this.protector := protector;
      this.serializer := serializer;
      this.baseUri := baseUri;
      this.users := users;
    }

    /** Issues a token for the user with e-mail `userEmail` at time `now`,
        the protector drawing `nonce`, and returns the address of the
        password-reset page. */
    method GenerateRestorePasswordUrl(userEmail: Option<string>, now: Instant, nonce: nat)
      returns (r: Result<string, IssueError>)
      requires Valid()
      modifies this
      ensures Valid()
      ensures IsNullOrWhiteSpace(userEmail) ==> r == Failure(EmailNotSpecified)
      ensures !IsNullOrWhiteSpace(userEmail) && UserByEmail(old(users), userEmail.value).None? ==>
                r == Failure(UserNotFound)
      ensures r.Success? <==> !IsNullOrWhiteSpace(userEmail) && UserByEmail(old(users), userEmail.value).Some?
      ensures r.Failure? ==> users == old(users)
      ensures r.Success? ==>
        var i := UserByEmail(old(users), userEmail.value).value;
        var t := Seal(protector, serializer, old(users)[i].key, now, nonce);
        r.value == RestorePasswordUrl(baseUri, t) && users == Issued(old(users), i, t)
      ensures old(AtMostOneTokenEach(users)) ==> AtMostOneTokenEach(users)
    {
      if IsNullOrWhiteSpace(userEmail) {
        return Failure(EmailNotSpecified);
      }
      var found := UserByEmail(users, userEmail.value);
      if found.None? {
        return Failure(UserNotFound);
      }
      var i := found.value;
      var user := users[i];
      var serializedProtectedToken := protector.protect(
        ProtectorPurpose, serializer.serialize(user.key), now + TokenLifetime, nonce);
      var logins := user.userLogins;
      var existing := TokenRecord(logins);
      if existing.Some? {
        logins := RemoveAt(logins, existing.value);
      }
      logins := logins + [LoginInfo(LoginProviderName, serializedProtectedToken)];
      if AtMostOneTokenEach(users) {
        IssuedKeepsAtMostOne(users, i, serializedProtectedToken);
      }
      users := users[i := user.(userLogins := logins)];
      r := Success(baseUri + "LoginPage?restorePasswordToken=" + serializedProtectedToken);
    }

    /** Redeems `restorePasswordToken` at time `now`: deletes the user's
        restore record and sets the password, or changes nothing. */
    method SetNewPassword(restorePasswordToken: Option<string>, newPassword: string, now: Instant)
      returns (r: Outcome<TokenRejection>)
      requires Valid()
      modifies this
      ensures Valid()
      ensures r.Pass? <==> Resolve(protector, serializer, old(users), restorePasswordToken, now).Success?
      ensures r.Fail? ==>
        users == old(users) &&
        r.error == Resolve(protector, serializer, old(users), restorePasswordToken, now).error
      ensures r.Pass? ==>
        var (i, k) := Resolve(protector, serializer, old(users), restorePasswordToken, now).value;
        users == Consumed(old(users), i, k, newPassword)
      ensures old(AtMostOneTokenEach(users)) ==> AtMostOneTokenEach(users)
    {
      if restorePasswordToken.None? {
        return Fail(CannotUnprotect);
      }
      var token := restorePasswordToken.value;
      var serializedUnprotectedToken := Unprotect(protector, ProtectorPurpose, token, now);
      if serializedUnprotectedToken.None? {
        return Fail(CannotUnprotect);
      }
      var userId := serializer.deserialize(serializedUnprotectedToken.value);
      if userId.None? {
        return Fail(MalformedPayload);
      }
      var found := UserByKey(users, userId.value);
      if found.None? {
        return Fail(UnknownUser);
      }
      var i := found.value;
      var user := users[i];
      var restorePasswordInfo := TokenRecord(user.userLogins);
      if restorePasswordInfo.None? || user.userLogins[restorePasswordInfo.value].providerUserKey != token {
        return Fail(NotCurrentToken);
      }
      var k := restorePasswordInfo.value;
      if AtMostOneTokenEach(users) {
        ConsumedKeepsAtMostOne(users, i, k, newPassword);
      }
      users := users[i := user.(userLogins := RemoveAt(user.userLogins, k), password := Some(newPassword))];
      r := Pass;
    }
  }
}
