/**
 * The request handlers of api/server.js that carry game logic — `/api/signup`,
 * `/api/add-honey`, `/api/change-question`, `/api/leaderboard` — and one step of
 * the midnight timer. The JSON stores `users.json` and `auth.json` are values
 * passed in and returned; `req.session.userId` is `session`, and every
 * `Math.random()` draw a handler makes is a parameter, in the order it is made.
 */
module Server {
  import opened Wrappers
  import opened JsMath
  import opened Text
  import opened JsObjects
  import opened Questions
  import opened Honey
  import opened Users
  import opened Accounts
  import opened Leaderboard
  import opened MadridTime
  import Calendar

  /** A JSON reply: an error status with its message, or a success status with a body. */
  datatype Reply<T> = Fail(status: nat, message: string) | Ok(status: nat, body: T)

  /** `req.session.userId` is truthy. */
  predicate LoggedIn(session: Option<string>) {
    session.Some? && session.value != ""
  }

  /** `usersDB.users[id]` is a user, neither missing nor `null`. */
  predicate HasUser(db: UsersDB, id: string) {
    id in db.entries && db.entries[id].Some?
  }

  /** Replacing the user at an existing id keeps the store well formed and its order. */
  lemma ReplaceUser(db: UsersDB, id: string, v: User)
    requires ValidDB(db) && HasUser(db, id) && Valid(v.collection)
    ensures ValidDB(Put(db, id, Some(v)))
    ensures Put(db, id, Some(v)).keys == db.keys
  {
  }

  // ----- /api/add-honey -----

  /** The reply body of `/api/add-honey`. */
  datatype HoneyBody = HoneyBody(added: int, honey: int, todayHoney: int, totalHoney: int)

  /**
   * `POST /api/add-honey`: the user's daily fields are corrected, the reward is
   * drawn from the corrected count, and the three counters grow by it. The reply
   * reports the counters as stored.
   */
  method AddHoney(db: UsersDB, session: Option<string>, today: string, r: Unit)
    returns (reply: Reply<HoneyBody>, db': UsersDB)
    requires ValidDB(db)
    ensures ValidDB(db')
    ensures !LoggedIn(session) ==> reply == Fail(401, "Not logged in") && db' == db
    ensures LoggedIn(session) && !HasUser(db, session.value) ==> reply == Fail(404, "User not found") && db' == db
    ensures LoggedIn(session) && HasUser(db, session.value) ==>
              var id := session.value;
              var u := db.entries[id].value;
              var day := if u.lastDailyReset.None? || u.lastDailyReset == Some(today) then u.todayHoney.GetOr(0) else 0;
              && reply.Ok? && reply.status == 200
              && reply.body.added == Reward(day, r)
              && db'.keys == db.keys
              && db'.entries == db.entries[id := Some(u.(
                   honey := u.honey + reply.body.added,
                   todayHoney := Some(day + reply.body.added),
                   lastDailyReset := Some(today),
                   stats := u.stats.(totalHoney := u.stats.totalHoney + reply.body.added)))]
              && reply.body.honey == u.honey + reply.body.added
              && reply.body.todayHoney == day + reply.body.added
              && reply.body.totalHoney == u.stats.totalHoney + reply.body.added
  {
    if !LoggedIn(session) {
      return Fail(401, "Not logged in"), db;
    }
    var id := session.value;
    var user := Get(db, id);
    if user.None? || user.value.None? {
      return Fail(404, "User not found"), db;
    }
    var u := EnsureDaily(user.value.value, today);
    EnsureDailyEffect(user.value.value, today);
    var added := Reward(u.todayHoney.value, r);
    var v := Credit(u, added);
    ReplaceUser(db, id, v);
    db' := Put(db, id, Some(v));
    reply := Ok(200, HoneyBody(added, v.honey, v.todayHoney.value, v.stats.totalHoney));
  }

  /**
   * What a logged-in user gains from one request: a wheel prize when today's
   * corrected count is 0, otherwise an amount of the count's band; the store
   * changes at that user only.
   */
  lemma AddHoneyGain(db: UsersDB, id: string, today: string, r: Unit)
    requires ValidDB(db) && id != "" && HasUser(db, id)
    ensures var u := db.entries[id].value;
            var day := EnsureDaily(u, today).todayHoney.value;
            var added := Reward(day, r);
            && (day == 0 ==> added in {25, 50, 100, 200, 500, 1000})
            && (day != 0 ==> BandLow(day) <= added <= BandHigh(day))
            && (added == 0 ==> day >= 5001)
            && added >= 0
  {
    var u := db.entries[id].value;
    var day := EnsureDaily(u, today).todayHoney.value;
    if day != 0 {
      LaterRewardInBand(day, r);
    }
    RewardZeroOnlyLate(day, r);
  }

  // ----- /api/change-question -----

  /** `POST /api/change-question`: the user's question is replaced by a fresh one, which the reply returns. */
  method ChangeQuestionHandler(db: UsersDB, session: Option<string>, rt: Unit, ra: Unit, rb: Unit)
    returns (reply: Reply<Question>, db': UsersDB)
    requires ValidDB(db)
    ensures ValidDB(db')
    ensures !LoggedIn(session) ==> reply == Fail(401, "Not logged in") && db' == db
    ensures LoggedIn(session) && !HasUser(db, session.value) ==> reply == Fail(404, "User not found") && db' == db
    ensures LoggedIn(session) && HasUser(db, session.value) ==>
              var id := session.value;
              && reply.Ok? && reply.status == 200
              && reply.body == ChangeQuestion(rt, ra, rb)
              && WellFormed(reply.body)
              && db'.keys == db.keys
              && db'.entries == db.entries[id := Some(db.entries[id].value.(actualQuestion := reply.body))]
  {
    if !LoggedIn(session) {
      return Fail(401, "Not logged in"), db;
    }
    var id := session.value;
    var user := Get(db, id);
    if user.None? || user.value.None? {
      return Fail(404, "User not found"), db;
    }
    var q := ChangeQuestion(rt, ra, rb);
    ChangeQuestionWellFormed(rt, ra, rb);
    var v := user.value.value.(actualQuestion := q);
    ReplaceUser(db, id, v);
    db' := Put(db, id, Some(v));
    reply := Ok(200, q);
  }

  // ----- /api/signup -----

  /** The record `/api/signup` stores in `users.json`; it has no daily fields yet. */
  function NewUser(username: string, createdAt: string, q: Question): (u: User)
    ensures Valid(u.collection) && u.collection.keys == []
    ensures u.todayHoney.None? && u.lastDailyReset.None?
  {
    User(username, createdAt, EmptyObject(), 0, "./assets/HiveFest.png", Stats(0, 0, 0, 0, 0), q, None, None)
  }

  /**
   * What the two stores keep between requests: both well formed, the same ids in
   * both, every id a number, usernames unique without regard to case, and one
   * account per address outside the whitelist.
   */
  ghost predicate StoreInvariant(users: UsersDB, auth: AuthDB, whitelist: seq<string>) {
    && ValidDB(users)
    && Valid(auth)
    && users.entries.Keys == auth.entries.Keys
    && AllNumeric(users.keys)
    && UniqueUsernames(auth)
    && OneAccountPerAddress(auth, whitelist)
  }

  /** A numeric id put into a store whose ids are numeric leaves them numeric. */
  lemma PutKeepsNumeric<V>(o: Object<V>, id: string, v: V)
    requires Valid(o) && AllNumeric(o.keys) && KeyNumber(id).Finite?
    ensures AllNumeric(Put(o, id, v).keys)
  {
    var r := Put(o, id, v);
    forall i | 0 <= i < |r.keys| ensures KeyNumber(r.keys[i]).Finite? {
      var k := r.keys[i];
      assert k in r.entries;
      if k != id {
        assert k in o.keys;
        var j :| 0 <= j < |o.keys| && o.keys[j] == k;
      }
    }
  }

  /**
   * `POST /api/signup`. After the admission checks the user gets the signup
   * question, an id generated from the ids of `users.json`, a fresh public record
   * and an auth record holding `hash(password + pepper)`, the address and
   * `pwVersion` 1. `now` is `nowISO()`, `rt`, `ra`, `rb` are the question's draws
   * and `rid` the id's.
   */
  method Signup(users: UsersDB, auth: AuthDB, whitelist: seq<string>, body: SignupBody,
                forwardedFor: Option<string>, remoteAddress: Option<string>,
                hash: string -> string, pepper: string, maxIncrementFor: nat -> nat,
                rt: Unit, ra: Unit, rb: Unit, rid: Unit, now: string)
    returns (reply: Reply<()>, users': UsersDB, auth': AuthDB)
    requires ValidDB(users) && Valid(auth)
    ensures ValidDB(users') && Valid(auth')
    ensures match AdmissionOf(auth, whitelist, body, forwardedFor, remoteAddress)
            case Malformed =>
              reply == Fail(400, "Neither symbols and spaces are permitted (except _ and -)") && users' == users && auth' == auth
            case AddressTaken =>
              reply == Fail(409, "You already have an account") && users' == users && auth' == auth
            case UsernameTaken =>
              reply == Fail(409, "This username already exists") && users' == users && auth' == auth
            case Admitted(username, password, unameLower, clientIP) =>
              var id := GenerateUniqueId(users.keys, maxIncrementFor, rid);
              && reply == Ok(201, ())
              && users' == Put(users, id, Some(NewUser(username, now, SignupQuestion(rt, ra, rb))))
              && auth' == Put(auth, id, AuthRecord(unameLower, hash(password + pepper), clientIP, 1, None))
    ensures StoreInvariant(users, auth, whitelist) ==> StoreInvariant(users', auth', whitelist)
    ensures StoreInvariant(users, auth, whitelist) && AdmissionOf(auth, whitelist, body, forwardedFor, remoteAddress).Admitted? ==>
              var id := GenerateUniqueId(users.keys, maxIncrementFor, rid);
              && id !in users.entries
  {
    var a := Admit(auth, whitelist, body, forwardedFor, remoteAddress);
    AdmittedSound(auth, whitelist, body, forwardedFor, remoteAddress);
    match a
    case Malformed =>
      return Fail(400, "Neither symbols and spaces are permitted (except _ and -)"), users, auth;
    case AddressTaken =>
      return Fail(409, "You already have an account"), users, auth;
    case UsernameTaken =>
      return Fail(409, "This username already exists"), users, auth;
    case Admitted(username, password, unameLower, clientIP) =>
      users', auth' := CreateAccount(users, auth, username, password, unameLower, clientIP,
                                     hash, pepper, maxIncrementFor, rt, ra, rb, rid, now);
      reply := Ok(201, ());
      if StoreInvariant(users, auth, whitelist) {
        var id := GenerateUniqueId(users.keys, maxIncrementFor, rid);
        var user := NewUser(username, now, SignupQuestion(rt, ra, rb));
        var rec := AuthRecord(unameLower, hash(password + pepper), clientIP, 1, None);
        GenerateUniqueIdFresh(users.keys, maxIncrementFor, rid);
        AdmittedInvariant(users, auth, whitelist, id, user, rec);
        assert users' == Put(users, id, Some(user)) && auth' == Put(auth, id, rec);
      }
  }

  /** The writes of an admitted signup: the public record and the auth record under the new id. */
  method CreateAccount(users: UsersDB, auth: AuthDB, username: string, password: string,
                       unameLower: string, clientIP: string,
                       hash: string -> string, pepper: string, maxIncrementFor: nat -> nat,
                       rt: Unit, ra: Unit, rb: Unit, rid: Unit, now: string)
    returns (users': UsersDB, auth': AuthDB)
    requires ValidDB(users) && Valid(auth)
    ensures var id := GenerateUniqueId(users.keys, maxIncrementFor, rid);
            && users' == Put(users, id, Some(NewUser(username, now, SignupQuestion(rt, ra, rb))))
            && auth' == Put(auth, id, AuthRecord(unameLower, hash(password + pepper), clientIP, 1, None))
            && ValidDB(users') && Valid(auth')
  {
    var passwordHash := hash(password + pepper);
    var q := SignupQuestion(rt, ra, rb);
    var id := GenerateUniqueId(users.keys, maxIncrementFor, rid);
    var user := NewUser(username, now, q);
    AddUserValid(users, id, user);
    users' := Put(users, id, Some(user));
    auth' := Put(auth, id, AuthRecord(unameLower, passwordHash, clientIP, 1, None));
  }

  /** A new user with a well-formed collection keeps the user store well formed. */
  lemma AddUserValid(users: UsersDB, id: string, user: User)
    requires ValidDB(users) && Valid(user.collection)
    ensures ValidDB(Put(users, id, Some(user)))
  {
  }

  /** The store half of the signup proof: the new id is fresh in both stores and the invariant survives. */
  lemma AdmittedInvariant(users: UsersDB, auth: AuthDB, whitelist: seq<string>, id: string,
                          user: User, rec: AuthRecord)
    requires StoreInvariant(users, auth, whitelist)
    requires id !in users.entries && KeyNumber(id).Finite?
    requires Valid(user.collection)
    requires forall k :: k in auth.entries ==> auth.entries[k].usernameLower != rec.usernameLower
    requires rec.registrationIP !in whitelist ==> !AddressHasAccount(auth, rec.registrationIP)
    ensures id !in auth.entries
    ensures StoreInvariant(Put(users, id, Some(user)), Put(auth, id, rec), whitelist)
  {
    assert id !in auth.entries;
    AddUserValid(users, id, user);
    PutKeepsNumeric(users, id, Some(user));
    AdmittedKeepsInvariants(auth, whitelist, id, rec);
    PutKeepsSameIds(users, auth, id, Some(user), rec);
  }

  /** Putting one id into both stores keeps their ids the same. */
  lemma PutKeepsSameIds(users: UsersDB, auth: AuthDB, id: string, u: Option<User>, rec: AuthRecord)
    requires Valid(users) && Valid(auth) && users.entries.Keys == auth.entries.Keys
    ensures Put(users, id, u).entries.Keys == Put(auth, id, rec).entries.Keys
  {
    assert Put(users, id, u).entries.Keys == users.entries.Keys + {id};
    assert Put(auth, id, rec).entries.Keys == auth.entries.Keys + {id};
  }

  // ----- /api/leaderboard -----

  /**
   * `GET /api/leaderboard?metric=…`: the metric is lower-cased and checked, then
   * the reply holds the best ten items by that metric, best first.
   */
  method LeaderboardHandler(db: UsersDB, session: Option<string>, metric: Option<string>)
    returns (reply: Reply<(string, seq<Item>)>)
    requires ValidDB(db)
    ensures !LoggedIn(session) ==> reply == Fail(401, "Not logged in")
    ensures LoggedIn(session) && ParseMetric(metric).None? ==> reply == Fail(400, "Unknown metric")
    ensures LoggedIn(session) && ParseMetric(metric).Some? ==>
              var m := ParseMetric(metric).value;
              var all := ItemsOf(Values(db), m);
              && reply.Ok? && reply.status == 200 && reply.body.0 == m
              && reply.body.1 == Top(all)
              && |reply.body.1| == (if |all| <= 10 then |all| else 10)
              && SortedDesc(reply.body.1)
              && multiset(reply.body.1) <= multiset(all)
              && forall x, i :: x in multiset(all) - multiset(reply.body.1) && 0 <= i < |reply.body.1| ==>
                   x.value <= reply.body.1[i].value
  {
    if !LoggedIn(session) {
      return Fail(401, "Not logged in");
    }
    var parsed := ParseMetric(metric);
    if parsed.None? {
      return Fail(400, "Unknown metric");
    }
    var items := BuildItems(db, parsed.value);
    TopLaw(items);
    reply := Ok(200, (parsed.value, Top(items)));
  }

  // ----- the midnight timer -----

  /**
   * One round of `scheduleDailyReset`: the delay is computed at `now`; when the
   * timer fires at `fired` every user is reset with the Madrid date of that moment.
   */
  method DailyResetStep(z: Zone, now: int, fired: int, db: UsersDB) returns (delay: nat, db': UsersDB)
    requires Valid(db)
    ensures delay == ScheduleDelay(z, now)
    ensures db' == ResetAll(db, MadridDateString(z, fired))
  {
    delay := ScheduleDelay(z, now);
    db' := ResetAllDailyHoney(db, MadridDateString(z, fired));
  }

  /**
   * On a day without a clock change, a timer that fires on time fires at the
   * next Madrid midnight: the wall clock then reads 00:00:00 of tomorrow, and
   * the date it stamps differs from today's.
   */
  lemma TimerFiresTomorrow(z: Zone, now: int)
    requires ValidParts(z.partsAt(now)) && !(0 <= z.partsAt(now).year <= 99)
    requires SteadyOffset(z, now)
    requires TimeZoneOffsetMs(z, NextMidnightUTCms(z, now)) == TimeZoneOffsetMs(z, MidnightGuess(z, now))
    requires ValidParts(z.partsAt(NextMidnightUTCms(z, now))) && !(0 <= z.partsAt(NextMidnightUTCms(z, now)).year <= 99)
    ensures now + ScheduleDelay(z, now) == NextMidnightUTCms(z, now)
    ensures var tomorrow := Calendar.NextDay(DateOf(z.partsAt(now)));
            z.partsAt(now + ScheduleDelay(z, now)) == Parts(tomorrow.year, tomorrow.month, tomorrow.day, 0, 0, 0)
    ensures MadridDateString(z, now + ScheduleDelay(z, now)) != MadridDateString(z, now)
  {
    var t := NextMidnightUTCms(z, now);
    var tomorrow := Calendar.NextDay(DateOf(z.partsAt(now)));
    assert now + ScheduleDelay(z, now) == t by {
      DelayWithinOneDay(z, now);
    }
    assert z.partsAt(t) == Parts(tomorrow.year, tomorrow.month, tomorrow.day, 0, 0, 0)
        && MadridDateString(z, t) != MadridDateString(z, now) by {
      NextMidnightIsLocalMidnight(z, now);
    }
  }

  /**
   * A timer that fires on time resets every user with tomorrow's date, so no
   * lazy correction later that day touches them again.
   */
  lemma TimerStampsTomorrow(z: Zone, now: int, db: UsersDB)
    requires ValidDB(db)
    requires ValidParts(z.partsAt(now)) && !(0 <= z.partsAt(now).year <= 99)
    requires SteadyOffset(z, now)
    requires TimeZoneOffsetMs(z, NextMidnightUTCms(z, now)) == TimeZoneOffsetMs(z, MidnightGuess(z, now))
    requires ValidParts(z.partsAt(NextMidnightUTCms(z, now))) && !(0 <= z.partsAt(NextMidnightUTCms(z, now)).year <= 99)
    ensures var stamp := MadridDateString(z, now + ScheduleDelay(z, now));
            && stamp != MadridDateString(z, now)
            && (forall k :: k in db.entries && db.entries[k].Some? ==>
                  ResetAll(db, stamp).entries[k].value.lastDailyReset == Some(stamp) &&
                  ResetAll(db, stamp).entries[k].value.todayHoney == Some(0))
            && EnsureAll(ResetAll(db, stamp), stamp) == ResetAll(db, stamp)
  {
    TimerFiresTomorrow(z, now);
    ResetStampsEveryone(db, MadridDateString(z, now + ScheduleDelay(z, now)));
  }

  lemma ResetStampsEveryone(db: UsersDB, stamp: string)
    requires ValidDB(db)
    ensures forall k :: k in db.entries && db.entries[k].Some? ==>
              ResetAll(db, stamp).entries[k].value.lastDailyReset == Some(stamp) &&
              ResetAll(db, stamp).entries[k].value.todayHoney == Some(0)
    ensures EnsureAll(ResetAll(db, stamp), stamp) == ResetAll(db, stamp)
  {
    ResetAllEffect(db, stamp);
  }
}
