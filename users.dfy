/**
 * The public user record of `users.json` (api/server.js) and the daily
 * bookkeeping on it: the lazy correction `ensureDailyFieldsAndResetIfNeeded`,
 * the midnight pass `resetAllDailyHoney`, the start-up migration, and the
 * honey credit of `/api/add-honey`. `today` is always Madrid's date string at
 * the moment the server code runs, as `madridDateString()` returns it.
 */
module Users {
  import opened Wrappers
  import opened JsObjects
  import opened Questions

  datatype Stats = Stats(bigPrizes: int, greatPrizes: int, goodPrizes: int, played: int, totalHoney: int)

  /**
   * A user. `todayHoney` is `None` when the field is missing or not a number,
   * `lastDailyReset` is `None` when it is missing or not a string.
   */
  datatype User = User(
    username: string,
    accountCreatedAt: string,
    collection: Object<int>,
    honey: int,
    favCharacImage: string,
    stats: Stats,
    actualQuestion: Question,
    todayHoney: Option<int>,
    lastDailyReset: Option<string>)

  /** `usersDB.users`: user id to user, where `None` stands for a `null` entry. */
  type UsersDB = Object<Option<User>>

  ghost predicate ValidDB(db: UsersDB) {
    && Valid(db)
    && forall k :: k in db.entries && db.entries[k].Some? ==> Valid(db.entries[k].value.collection)
  }

  /** `u` and `v` differ at most in the two daily fields. */
  predicate SameButDaily(u: User, v: User) {
    v == u.(todayHoney := v.todayHoney, lastDailyReset := v.lastDailyReset)
  }

  /** `ensureDailyFieldsAndResetIfNeeded(user)` */
  function EnsureDaily(u: User, today: string): User {
    var t := if u.todayHoney.Some? then u.todayHoney else Some(0);
    if u.lastDailyReset.None? then u.(todayHoney := t, lastDailyReset := Some(today))
    else if u.lastDailyReset.value != today then u.(todayHoney := Some(0), lastDailyReset := Some(today))
    else u.(todayHoney := t)
  }

  /**
   * Afterwards the count is a number and the stamp is today. The count survives
   * when the stamp was today or missing (a missing count reads 0) and is zeroed
   * when the stamp was another day; nothing else changes.
   */
  lemma EnsureDailyEffect(u: User, today: string)
    ensures var v := EnsureDaily(u, today);
            && SameButDaily(u, v)
            && v.lastDailyReset == Some(today)
            && v.todayHoney == Some(if u.lastDailyReset.None? || u.lastDailyReset == Some(today)
                                    then u.todayHoney.GetOr(0) else 0)
  {
  }

  /** A second correction on the same day changes nothing. */
  lemma EnsureDailyIdempotent(u: User, today: string)
    ensures EnsureDaily(EnsureDaily(u, today), today) == EnsureDaily(u, today)
  {
  }

  /** A user already stamped today with a numeric count is left exactly as they are. */
  lemma EnsureDailyCurrent(u: User, today: string)
    requires u.lastDailyReset == Some(today) && u.todayHoney.Some?
    ensures EnsureDaily(u, today) == u
  {
  }

  /** What `resetAllDailyHoney` does to one user. */
  function ResetDaily(u: User, today: string): User {
    u.(todayHoney := Some(0), lastDailyReset := Some(today))
  }

  /** After the midnight reset the lazy correction has nothing left to do. */
  lemma ResetIsEnsured(u: User, today: string)
    ensures EnsureDaily(ResetDaily(u, today), today) == ResetDaily(u, today)
    ensures SameButDaily(u, ResetDaily(u, today))
  {
  }

  /** One step of the migration loop: the corrected user and its `changed` flag. */
  function MigrateUser(u: User, today: string): (User, bool) {
    var (u1, c1) := if u.todayHoney.None? then (u.(todayHoney := Some(0)), true) else (u, false);
    var (u2, c2) := if u1.lastDailyReset.None? then (u1.(lastDailyReset := Some(today)), true) else (u1, c1);
    if u2.lastDailyReset != Some(today) then (u2.(todayHoney := Some(0), lastDailyReset := Some(today)), true)
    else (u2, c2)
  }

  /**
   * The migration reaches the state of the lazy correction, and flags a user
   * exactly when that changes them; a user stamped another day ends up reset.
   */
  lemma MigrateIsEnsure(u: User, today: string)
    ensures MigrateUser(u, today).0 == EnsureDaily(u, today)
    ensures MigrateUser(u, today).1 <==> EnsureDaily(u, today) != u
    ensures u.lastDailyReset.Some? && u.lastDailyReset != Some(today) ==>
              MigrateUser(u, today).0 == ResetDaily(u, today)
  {
  }

  /** `user.honey += n; user.todayHoney += n; user.stats.totalHoney += n` */
  function Credit(u: User, n: int): User
    requires u.todayHoney.Some?
  {
    u.(honey := u.honey + n, todayHoney := Some(u.todayHoney.value + n),
       stats := u.stats.(totalHoney := u.stats.totalHoney + n))
  }

  /** The three counters grow by exactly `n`; no other field changes. */
  lemma CreditEffect(u: User, n: int)
    requires u.todayHoney.Some?
    ensures var v := Credit(u, n);
            && v.honey - u.honey == n
            && v.todayHoney.Some? && v.todayHoney.value - u.todayHoney.value == n
            && v.stats.totalHoney - u.stats.totalHoney == n
            && v.(honey := u.honey, todayHoney := u.todayHoney, stats := u.stats) == u
            && v.stats.(totalHoney := u.stats.totalHoney) == u.stats
  {
  }

  /** Applies `f` to every non-null user, keeping ids, order and null entries. */
  function MapUsers(db: UsersDB, f: User -> User): (r: UsersDB)
    ensures r.keys == db.keys && r.entries.Keys == db.entries.Keys
    ensures forall k :: k in db.entries ==> r.entries[k] == (if db.entries[k].Some? then Some(f(db.entries[k].value)) else None)
  {
    Object(db.keys, map k | k in db.entries :: if db.entries[k].Some? then Some(f(db.entries[k].value)) else None)
  }

  /** The users after `resetAllDailyHoney`. */
  function ResetAll(db: UsersDB, today: string): UsersDB {
    MapUsers(db, u => ResetDaily(u, today))
  }

  /** The users after the migration. */
  function EnsureAll(db: UsersDB, today: string): UsersDB {
    MapUsers(db, u => EnsureDaily(u, today))
  }

  /** The user at `k` is one the correction changes. */
  predicate StaleAt(db: UsersDB, k: string, today: string) {
    k in db.entries && db.entries[k].Some? && EnsureDaily(db.entries[k].value, today) != db.entries[k].value
  }

  /** Some non-null user is changed by the correction. */
  ghost predicate SomeUserStale(db: UsersDB, today: string) {
    exists k :: StaleAt(db, k, today)
  }

  /** Some user among the first `n` in enumeration order is stale. */
  predicate StaleBefore(db: UsersDB, n: int, today: string)
    requires 0 <= n <= |db.keys|
  {
    exists j :: 0 <= j < n && StaleAt(db, db.keys[j], today)
  }

  lemma StaleBeforeAll(db: UsersDB, today: string)
    requires Valid(db)
    ensures StaleBefore(db, |db.keys|, today) <==> SomeUserStale(db, today)
  {
    if SomeUserStale(db, today) {
      var k :| StaleAt(db, k, today);
      var j :| 0 <= j < |db.keys| && db.keys[j] == k;
    }
  }

  /** `map k | k in m :: (if k in done then f'(m[k]) else m[k])`, the state halfway through a pass. */
  ghost predicate PassedOver(m: map<string, Option<User>>, r: map<string, Option<User>>, done: seq<string>, f: User -> User) {
    && r.Keys == m.Keys
    && forall k :: k in m ==> r[k] == (if k in done && m[k].Some? then Some(f(m[k].value)) else m[k])
  }

  lemma PassedOverAll(db: UsersDB, r: map<string, Option<User>>, f: User -> User)
    requires Valid(db) && PassedOver(db.entries, r, db.keys, f)
    ensures Object(db.keys, r) == MapUsers(db, f)
  {
  }

  /** One more user of the pass: the entry at the next key is still the original one, and treating it extends the pass. */
  lemma PassOneMore(db: UsersDB, r: map<string, Option<User>>, i: int, f: User -> User)
    requires Valid(db) && 0 <= i < |db.keys| && PassedOver(db.entries, r, db.keys[..i], f)
    ensures db.keys[i] in r && r[db.keys[i]] == db.entries[db.keys[i]]
    ensures var k := db.keys[i];
            PassedOver(db.entries, if r[k].Some? then r[k := Some(f(r[k].value))] else r, db.keys[..i + 1], f)
  {
    var k := db.keys[i];
    var done := db.keys[..i];
    assert db.keys[..i + 1] == done + [k];
    assert k !in done;
    PassedOverStep(db.entries, r, done, db.keys[..i + 1], k, f);
  }

  /** Applying `f` to the value at one more key extends the keys passed over by that key. */
  lemma PassedOverStep(m: map<string, Option<User>>, r: map<string, Option<User>>, done: seq<string>,
                       done': seq<string>, k: string, f: User -> User)
    requires PassedOver(m, r, done, f) && k in m && k !in done
    requires forall j :: j in done' <==> j in done || j == k
    ensures r[k] == m[k]
    ensures PassedOver(m, if r[k].Some? then r[k := Some(f(r[k].value))] else r, done', f)
  {
    if r[k].Some? {
      var r' := r[k := Some(f(r[k].value))];
      forall j | j in m
        ensures r'[j] == (if j in done' && m[j].Some? then Some(f(m[j].value)) else m[j])
      {
        if j != k {
          assert r'[j] == r[j];
        }
      }
    }
  }

  /** Whether a stale user comes among the first `i + 1`. */
  lemma StaleBeforeStep(db: UsersDB, i: int, today: string)
    requires 0 <= i < |db.keys|
    ensures StaleBefore(db, i + 1, today) <==> StaleBefore(db, i, today) || StaleAt(db, db.keys[i], today)
  {
  }

  /** `resetAllDailyHoney()`: every non-null user, in enumeration order, gets a zero count and today's stamp. */
  method ResetAllDailyHoney(db: UsersDB, today: string) returns (r: UsersDB)
    requires Valid(db)
    ensures r == ResetAll(db, today)
  {
    var entries := db.entries;
    var i := 0;
    while i < |db.keys|
      invariant 0 <= i <= |db.keys|
      invariant PassedOver(db.entries, entries, db.keys[..i], u => ResetDaily(u, today))
    {
      var k := db.keys[i];
      PassOneMore(db, entries, i, u => ResetDaily(u, today));
      var user := entries[k];
      if user.Some? {
        entries := entries[k := Some(ResetDaily(user.value, today))];
      }
      i := i + 1;
    }
    assert db.keys[..i] == db.keys;
    PassedOverAll(db, entries, u => ResetDaily(u, today));
    r := Object(db.keys, entries);
  }

  /** The start-up migration: every user corrected, and `touched` says whether any changed. */
  method Migrate(db: UsersDB, today: string) returns (r: UsersDB, touched: bool)
    requires Valid(db)
    ensures r == EnsureAll(db, today)
    ensures touched <==> SomeUserStale(db, today)
  {
    var entries := db.entries;
    touched := false;
    var i := 0;
    while i < |db.keys|
      invariant 0 <= i <= |db.keys|
      invariant PassedOver(db.entries, entries, db.keys[..i], u => EnsureDaily(u, today))
      invariant touched <==> StaleBefore(db, i, today)
    {
      var k := db.keys[i];
      PassOneMore(db, entries, i, u => EnsureDaily(u, today));
      StaleBeforeStep(db, i, today);
      var user := entries[k];
      if user.Some? {
        var step := MigrateUser(user.value, today);
        MigrateIsEnsure(user.value, today);
        entries := entries[k := Some(step.0)];
        touched := touched || step.1;
      }
      i := i + 1;
    }
    assert db.keys[..i] == db.keys;
    PassedOverAll(db, entries, u => EnsureDaily(u, today));
    StaleBeforeAll(db, today);
    r := Object(db.keys, entries);
  }

  /** The reset keeps the store well formed, stamps every user today and clears every count. */
  lemma ResetAllEffect(db: UsersDB, today: string)
    requires ValidDB(db)
    ensures ValidDB(ResetAll(db, today))
    ensures forall k :: k in db.entries ==>
              (ResetAll(db, today).entries[k].None? <==> db.entries[k].None?)
    ensures forall k :: k in db.entries && db.entries[k].Some? ==>
              var v := ResetAll(db, today).entries[k].value;
              v.todayHoney == Some(0) && v.lastDailyReset == Some(today) && SameButDaily(db.entries[k].value, v)
    ensures EnsureAll(ResetAll(db, today), today) == ResetAll(db, today)
  {
    var r := ResetAll(db, today);
    forall k | k in r.entries && r.entries[k].Some?
      ensures EnsureDaily(r.entries[k].value, today) == r.entries[k].value
    {
      ResetIsEnsured(db.entries[k].value, today);
    }
  }
}
