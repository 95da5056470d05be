/**
 * Accounts on the server side (api/server.js): the signup body rules, the
 * client address, username normalisation, the `auth.json` records and their
 * lookups, new user ids, and the admission rules of `/api/signup`: one account
 * per address unless the address is whitelisted, and usernames unique without
 * regard to case.
 */
module Accounts {
  import opened Wrappers
  import opened JsMath
  import opened Text
  import opened JsObjects

  /** `usernameSchema`: 2 .. 20 characters, ASCII letters only. */
  predicate ValidUsername(u: string) {
    2 <= |u| <= 20 && forall i :: 0 <= i < |u| ==> IsAsciiLetter(u[i])
  }

  /** `passwordSchema`: 3 .. 28 characters. */
  predicate ValidPassword(p: string) {
    3 <= |p| <= 28
  }

  /** The signup request body: each field is `None` when missing or not a string. */
  datatype SignupBody = SignupBody(username: Option<string>, password: Option<string>)

  /** `signupSchema.safeParse(body)`: the two fields when both satisfy their rules. */
  function ParseSignup(body: SignupBody): (r: Option<(string, string)>)
    ensures r.Some? <==> body.username.Some? && body.password.Some? &&
                         ValidUsername(body.username.value) && ValidPassword(body.password.value)
    ensures r.Some? ==> r.value == (body.username.value, body.password.value)
  {
    if body.username.Some? && body.password.Some? &&
       ValidUsername(body.username.value) && ValidPassword(body.password.value)
    then Some((body.username.value, body.password.value))
    else None
  }

  /**
   * `getClientIP(req)`: the trimmed first entry of a non-empty `X-Forwarded-For`
   * string header, else the socket's address, else "unknown".
   */
  function GetClientIP(forwardedFor: Option<string>, remoteAddress: Option<string>): string {
    if forwardedFor.Some? && |forwardedFor.value| > 0 then Trim(BeforeFirst(forwardedFor.value, ','))
    else if remoteAddress.Some? && remoteAddress.value != "" then remoteAddress.value
    else "unknown"
  }

  /**
   * With a forwarded-for header the address is what the header starts with, after
   * its leading whitespace: no comma, no surrounding whitespace, and for a header
   * without commas just the trimmed header.
   */
  lemma ClientIPFromHeader(h: string, remoteAddress: Option<string>)
    requires |h| > 0
    ensures var ip := GetClientIP(Some(h), remoteAddress);
            && ',' !in ip
            && (ip != [] ==> !IsJsWhitespace(ip[0]) && !IsJsWhitespace(ip[|ip| - 1]))
            && ip <= h[LeadingSpace(h)..]
            && (',' !in h ==> ip == Trim(h))
  {
    assert GetClientIP(Some(h), remoteAddress) == Trim(BeforeFirst(h, ','));
    FirstFieldTrimmed(h);
  }

  lemma FirstFieldTrimmed(h: string)
    ensures var ip := Trim(BeforeFirst(h, ','));
            && ',' !in ip
            && ip <= h[LeadingSpace(h)..]
            && (',' !in h ==> ip == Trim(h))
  {
    var f := BeforeFirst(h, ',');
    TrimKeepsOut(f, ',');
    TrimOfPrefix(h, f);
    if ',' !in h {
      assert f == h;
    }
  }

  /** Without a forwarded-for header the address is the socket's, or "unknown"; never empty. */
  lemma ClientIPFallback(forwardedFor: Option<string>, remoteAddress: Option<string>)
    requires forwardedFor.None? || forwardedFor.value == ""
    ensures var ip := GetClientIP(forwardedFor, remoteAddress);
            && ip != ""
            && (remoteAddress.Some? && remoteAddress.value != "" ==> ip == remoteAddress.value)
            && (remoteAddress.None? || remoteAddress.value == "" ==> ip == "unknown")
  {
  }

  /** `toLower(s)`: trimmed, then lower-cased (inputs are ASCII, see README). */
  function ToLower(s: string): string {
    AsciiLower(Trim(s))
  }

  /**
   * For a valid username the normal form is its lower-cased self, so two valid
   * usernames clash exactly when they are equal ignoring ASCII case.
   */
  lemma ToLowerOfValid(u: string, v: string)
    requires ValidUsername(u) && ValidUsername(v)
    ensures ToLower(u) == AsciiLower(u)
    ensures ToLower(u) == ToLower(v) <==> |u| == |v| && forall i :: 0 <= i < |u| ==> LowerChar(u[i]) == LowerChar(v[i])
  {
    LettersTrimmed(u);
    LettersTrimmed(v);
    AsciiLowerEqual(u, v);
  }

  /** A valid username has nothing to trim. */
  lemma LettersTrimmed(u: string)
    requires ValidUsername(u)
    ensures Trim(u) == u
  {
    forall i | 0 <= i < |u| ensures !IsJsWhitespace(u[i]) {
      assert IsAsciiLetter(u[i]);
    }
    TrimNoSpace(u);
  }

  /** Two strings lower-case alike exactly when they match character by character ignoring case. */
  lemma AsciiLowerEqual(u: string, v: string)
    ensures AsciiLower(u) == AsciiLower(v) <==> |u| == |v| && forall i :: 0 <= i < |u| ==> LowerChar(u[i]) == LowerChar(v[i])
  {
    var a, b := AsciiLower(u), AsciiLower(v);
    if a == b {
      assert |u| == |a| == |b| == |v|;
      forall i | 0 <= i < |u| ensures LowerChar(u[i]) == LowerChar(v[i]) {
        assert a[i] == b[i];
      }
    }
    if |u| == |v| && forall i :: 0 <= i < |u| ==> LowerChar(u[i]) == LowerChar(v[i]) {
      assert forall i :: 0 <= i < |a| ==> a[i] == b[i];
    }
  }

  /** A record of `auth.json`. */
  datatype AuthRecord = AuthRecord(
    usernameLower: string,
    passwordHash: string,
    registrationIP: string,
    pwVersion: int,
    lastLogin: Option<string>)

  /** `authDB.auth`: user id to the user's credentials. */
  type AuthDB = Object<AuthRecord>

  /** No two records share a normalised username. */
  ghost predicate UniqueUsernames(auth: AuthDB) {
    forall a, b :: a in auth.entries && b in auth.entries && a != b ==>
      auth.entries[a].usernameLower != auth.entries[b].usernameLower
  }

  /** Two records registered from one address only when the address is whitelisted. */
  ghost predicate OneAccountPerAddress(auth: AuthDB, whitelist: seq<string>) {
    forall a, b ::
      (a in auth.entries && b in auth.entries && a != b &&
       auth.entries[a].registrationIP == auth.entries[b].registrationIP) ==>
      auth.entries[a].registrationIP in whitelist
  }

  /**
   * `findAuthByUsernameLower(authDB, unameLower)`: the first record in
   * enumeration order whose `usernameLower` matches, with its id.
   */
  method FindAuthByUsernameLower(auth: AuthDB, unameLower: string) returns (found: Option<(string, AuthRecord)>)
    requires Valid(auth)
    ensures found.None? <==> forall k :: k in auth.entries ==> auth.entries[k].usernameLower != unameLower
    ensures found.Some? ==>
              && found.value.0 in auth.entries
              && auth.entries[found.value.0] == found.value.1
              && found.value.1.usernameLower == unameLower
              && exists j :: 0 <= j < |auth.keys| && auth.keys[j] == found.value.0 &&
                   forall i :: 0 <= i < j ==> auth.entries[auth.keys[i]].usernameLower != unameLower
  {
    var i := 0;
    while i < |auth.keys|
      invariant 0 <= i <= |auth.keys|
      invariant forall j :: 0 <= j < i ==> auth.entries[auth.keys[j]].usernameLower != unameLower
    {
      var userId := auth.keys[i];
      var record := auth.entries[userId];
      if record.usernameLower == unameLower {
        return Some((userId, record));
      }
      i := i + 1;
    }
    forall k | k in auth.entries
      ensures auth.entries[k].usernameLower != unameLower
    {
      var j :| 0 <= j < |auth.keys| && auth.keys[j] == k;
    }
    return None;
  }

  /** Some record was registered from `ip`. */
  ghost predicate AddressHasAccount(auth: AuthDB, ip: string) {
    exists k :: k in auth.entries && auth.entries[k].registrationIP == ip
  }

  /** The loop of `/api/signup` over `Object.values(authDB.auth)` looking for the client's address. */
  method FindAccountFromAddress(auth: AuthDB, ip: string) returns (taken: bool)
    requires Valid(auth)
    ensures taken <==> AddressHasAccount(auth, ip)
  {
    var i := 0;
    while i < |auth.keys|
      invariant 0 <= i <= |auth.keys|
      invariant forall j :: 0 <= j < i ==> auth.entries[auth.keys[j]].registrationIP != ip
    {
      if auth.entries[auth.keys[i]].registrationIP == ip {
        return true;
      }
      i := i + 1;
    }
    forall k | k in auth.entries
      ensures auth.entries[k].registrationIP != ip
    {
      var j :| 0 <= j < |auth.keys| && auth.keys[j] == k;
    }
    return false;
  }

  /** `Number(k)` for a key: surrounding whitespace is ignored and the empty string is 0. */
  function KeyNumber(k: string): Num {
    var t := Trim(k);
    if AllDigits(t) then Finite(DecimalValue(t)) else NaN
  }

  /** The keys all read as numbers. */
  predicate AllNumeric(ids: seq<string>) {
    forall i :: 0 <= i < |ids| ==> KeyNumber(ids[i]).Finite?
  }

  /** `Math.max(...ids.map(Number))` for keys that all read as numbers. */
  function MaxId(ids: seq<string>): (m: nat)
    requires |ids| > 0 && AllNumeric(ids)
    ensures forall i :: 0 <= i < |ids| ==> KeyNumber(ids[i]).value <= m
    ensures exists i :: 0 <= i < |ids| && KeyNumber(ids[i]).value == m
  {
    var v: nat := DecimalValue(Trim(ids[0]));
    if |ids| == 1 then v
    else
      var m := MaxId(ids[1..]);
      assert forall i :: 1 <= i < |ids| ==> ids[i] == ids[1..][i - 1];
      if v >= m then v else m
  }

  /**
   * `generateUniqueId(usersDB)` over the user ids `ids`. The float expression
   * `Math.round(Math.pow(length * 5, 1.25))` is the parameter `maxIncrementFor`
   * of the digit count, and `r` is the draw of `Math.random()`.
   */
  function GenerateUniqueId(ids: seq<string>, maxIncrementFor: nat -> nat, r: Unit): string {
    if |ids| == 0 then "1"
    else if !AllNumeric(ids) then "NaN"
    else
      var lastId := MaxId(ids);
      var maxIncrement := maxIncrementFor(|NatToString(lastId)|);
      NatToString(lastId + FloorTimes(r, maxIncrement) + 1)
  }

  /**
   * When every id reads as a number the new id is a canonical numeral above all of
   * them, by at most the increment bound, so it is not among them.
   */
  lemma GenerateUniqueIdFresh(ids: seq<string>, maxIncrementFor: nat -> nat, r: Unit)
    requires AllNumeric(ids)
    ensures var id := GenerateUniqueId(ids, maxIncrementFor, r);
            && IsCanonicalNumeral(id)
            && KeyNumber(id) == Finite(DecimalValue(id))
            && id !in ids
            && (forall i :: 0 <= i < |ids| ==> KeyNumber(ids[i]).value < DecimalValue(id))
            && (|ids| > 0 ==>
                  var m := MaxId(ids);
                  m + 1 <= DecimalValue(id) <= m + Max1(maxIncrementFor(|NatToString(m)|)))
  {
    var id := GenerateUniqueId(ids, maxIncrementFor, r);
    var n: nat := if |ids| == 0 then 1 else MaxId(ids) + FloorTimes(r, maxIncrementFor(|NatToString(MaxId(ids))|)) + 1;
    assert id == NatToString(n);
    DecimalRoundTrip(n);
    assert IsCanonicalNumeral(id);
    TrimNoSpace(id);
    assert KeyNumber(id) == Finite(n);
  }

  function Max1(n: nat): nat { if n == 0 then 1 else n }

  /** An id that does not read as a number makes every new id "NaN". */
  lemma GenerateUniqueIdNaN(ids: seq<string>, maxIncrementFor: nat -> nat, r: Unit)
    requires |ids| > 0 && !AllNumeric(ids)
    ensures GenerateUniqueId(ids, maxIncrementFor, r) == "NaN"
  {
  }

  /** The outcome of the admission checks of `/api/signup`, in the order they are made. */
  datatype Admission =
    | Malformed                 // 400
    | AddressTaken              // 409 "You already have an account"
    | UsernameTaken             // 409 "This username already exists"
    | Admitted(username: string, password: string, unameLower: string, clientIP: string)

  /**
   * The rules of admission: a malformed body is refused first; then an address
   * outside the whitelist that already registered an account; then a username
   * some record already holds once normalised.
   */
  ghost function AdmissionOf(auth: AuthDB, whitelist: seq<string>, body: SignupBody,
                             forwardedFor: Option<string>, remoteAddress: Option<string>): Admission
  {
    var ip := GetClientIP(forwardedFor, remoteAddress);
    match ParseSignup(body)
    case None => Malformed
    case Some((u, p)) =>
      if ip !in whitelist && AddressHasAccount(auth, ip) then AddressTaken
      else if exists k :: k in auth.entries && auth.entries[k].usernameLower == ToLower(u) then UsernameTaken
      else Admitted(u, p, ToLower(u), ip)
  }

  /** The checks that come before the account is created, made by the two searches. */
  method Admit(auth: AuthDB, whitelist: seq<string>, body: SignupBody,
               forwardedFor: Option<string>, remoteAddress: Option<string>) returns (a: Admission)
    requires Valid(auth)
    ensures a == AdmissionOf(auth, whitelist, body, forwardedFor, remoteAddress)
  {
    var parsed := ParseSignup(body);
    if parsed.None? {
      return Malformed;
    }
    var (username, password) := parsed.value;
    var unameLower := ToLower(username);
    var clientIP := GetClientIP(forwardedFor, remoteAddress);
    if clientIP !in whitelist {
      var taken := FindAccountFromAddress(auth, clientIP);
      if taken {
        return AddressTaken;
      }
    }
    var existing := FindAuthByUsernameLower(auth, unameLower);
    if existing.Some? {
      return UsernameTaken;
    }
    return Admitted(username, password, unameLower, clientIP);
  }

  /**
   * An admitted signup has a well-formed body, a username no record holds once
   * normalised, and an address that is whitelisted or has no account yet; a body
   * that breaks a rule is refused whatever the stores hold.
   */
  lemma AdmittedSound(auth: AuthDB, whitelist: seq<string>, body: SignupBody,
                      forwardedFor: Option<string>, remoteAddress: Option<string>)
    ensures var a := AdmissionOf(auth, whitelist, body, forwardedFor, remoteAddress);
            && (a.Malformed? <==> ParseSignup(body).None?)
            && (a.Admitted? ==>
                  && ValidUsername(a.username) && ValidPassword(a.password)
                  && a.unameLower == ToLower(a.username)
                  && a.clientIP == GetClientIP(forwardedFor, remoteAddress)
                  && (forall k :: k in auth.entries ==> auth.entries[k].usernameLower != a.unameLower)
                  && (a.clientIP !in whitelist ==> !AddressHasAccount(auth, a.clientIP)))
  {
  }

  /**
   * Adding the record of an admitted signup under a new id keeps usernames unique
   * and keeps to one account per address outside the whitelist.
   */
  lemma AdmittedKeepsInvariants(auth: AuthDB, whitelist: seq<string>, id: string, rec: AuthRecord)
    requires Valid(auth) && id !in auth.entries
    requires UniqueUsernames(auth) && OneAccountPerAddress(auth, whitelist)
    requires forall k :: k in auth.entries ==> auth.entries[k].usernameLower != rec.usernameLower
    requires rec.registrationIP !in whitelist ==> !AddressHasAccount(auth, rec.registrationIP)
    ensures UniqueUsernames(Put(auth, id, rec))
    ensures OneAccountPerAddress(Put(auth, id, rec), whitelist)
  {
  }
}
