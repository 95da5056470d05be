/**
 * The leaderboard of `GET /api/leaderboard` (api/server.js): the metric
 * allow-list, the value `compute` gives each user, the items built in
 * enumeration order, the sort by descending value and the top-ten cut.
 * `Array.prototype.sort` is stable, so the sort is a stable one.
 */
module Leaderboard {
  import opened Wrappers
  import opened Text
  import opened JsObjects
  import opened Users

  /** `String(req.query.metric || "").toLowerCase()` checked against the allow-list. */
  function ParseMetric(raw: Option<string>): (m: Option<string>)
    ensures m.Some? <==> AsciiLower(raw.GetOr("")) in {"honey", "totalhoney", "uniquehivees", "totalhivees"}
    ensures m.Some? ==> m.value == AsciiLower(raw.GetOr(""))
  {
    var metric := AsciiLower(raw.GetOr(""));
    if metric in {"honey", "totalhoney", "uniquehivees", "totalhivees"} then Some(metric) else None
  }

  /** How many counts are positive. */
  function CountPositive(vs: seq<int>): (n: nat)
    ensures n <= |vs|
  {
    if vs == [] then 0 else CountPositive(vs[..|vs| - 1]) + (if vs[|vs| - 1] > 0 then 1 else 0)
  }

  function Sum(vs: seq<int>): int {
    if vs == [] then 0 else Sum(vs[..|vs| - 1]) + vs[|vs| - 1]
  }

  /** With no negative counts, the distinct hivees never outnumber the hivees. */
  lemma {:induction false} CountPositiveAtMostSum(vs: seq<int>)
    requires forall i :: 0 <= i < |vs| ==> vs[i] >= 0
    ensures 0 <= CountPositive(vs) <= Sum(vs)
  {
    if vs != [] {
      CountPositiveAtMostSum(vs[..|vs| - 1]);
    }
  }

  /** The `uniquehivees` loop: entries of the collection with a positive count. */
  method CountUnique(coll: Object<int>) returns (uniq: nat)
    requires Valid(coll)
    ensures uniq == CountPositive(Values(coll))
  {
    var vs := Values(coll);
    uniq := 0;
    var i := 0;
    while i < |coll.keys|
      invariant 0 <= i <= |coll.keys|
      invariant uniq == CountPositive(vs[..i])
    {
      assert vs[..i + 1][..i] == vs[..i];
      if coll.entries[coll.keys[i]] > 0 {
        uniq := uniq + 1;
      }
      i := i + 1;
    }
    assert vs[..i] == vs;
  }

  /** The `totalhivees` loop: the sum of the counts. */
  method SumHivees(coll: Object<int>) returns (sum: int)
    requires Valid(coll)
    ensures sum == Sum(Values(coll))
  {
    var vs := Values(coll);
    sum := 0;
    var i := 0;
    while i < |coll.keys|
      invariant 0 <= i <= |coll.keys|
      invariant sum == Sum(vs[..i])
    {
      assert vs[..i + 1][..i] == vs[..i];
      sum := sum + coll.entries[coll.keys[i]];
      i := i + 1;
    }
    assert vs[..i] == vs;
  }

  /** A user's value for `metric`; any metric but the first three is `totalhivees`. */
  ghost function MetricValue(u: User, metric: string): int
    requires Valid(u.collection)
  {
    if metric == "honey" then u.honey
    else if metric == "totalhoney" then u.stats.totalHoney
    else if metric == "uniquehivees" then CountPositive(Values(u.collection))
    else Sum(Values(u.collection))
  }

  /** `compute(user)` */
  method Compute(u: User, metric: string) returns (value: int)
    requires Valid(u.collection)
    ensures value == MetricValue(u, metric)
  {
    if metric == "honey" {
      return u.honey;
    }
    if metric == "totalhoney" {
      return u.stats.totalHoney;
    }
    if metric == "uniquehivees" {
      value := CountUnique(u.collection);
      return;
    }
    value := SumHivees(u.collection);
  }

  /** An entry of the response. */
  datatype Item = Item(username: string, avatar: string, value: int)

  /** `user.favCharacImage || "./assets/HiveFest.png"` */
  function Avatar(u: User): string {
    if u.favCharacImage == "" then "./assets/HiveFest.png" else u.favCharacImage
  }

  /** The items of the non-null users, in the order the users come. */
  ghost function ItemsOf(users: seq<Option<User>>, metric: string): seq<Item>
    requires forall i :: 0 <= i < |users| && users[i].Some? ==> Valid(users[i].value.collection)
  {
    if users == [] then []
    else
      var last := users[|users| - 1];
      ItemsOf(users[..|users| - 1], metric) +
      (if last.Some? then [Item(last.value.username, Avatar(last.value), MetricValue(last.value, metric))] else [])
  }

  /** The loop that pushes one item per non-null user, in enumeration order. */
  method BuildItems(db: UsersDB, metric: string) returns (items: seq<Item>)
    requires ValidDB(db)
    ensures items == ItemsOf(Values(db), metric)
  {
    var users := Values(db);
    items := [];
    var i := 0;
    while i < |db.keys|
      invariant 0 <= i <= |db.keys|
      invariant items == ItemsOf(users[..i], metric)
    {
      assert users[..i + 1][..i] == users[..i];
      var user := db.entries[db.keys[i]];
      if user.Some? {
        var value := Compute(user.value, metric);
        items := items + [Item(user.value.username, Avatar(user.value), value)];
      }
      i := i + 1;
    }
    assert users[..i] == users;
  }

  predicate SortedDesc(s: seq<Item>) {
    forall i, j :: 0 <= i < j < |s| ==> s[i].value >= s[j].value
  }

  /** Puts `x` after every element of the sorted `s` that is worth at least as much. */
  function Insert(x: Item, s: seq<Item>): seq<Item> {
    if s == [] then [x]
    else if s[0].value >= x.value then [s[0]] + Insert(x, s[1..])
    else [x] + s
  }

  /** `items.sort((a, b) => b.value - a.value)`: a stable sort by descending value. */
  function SortDesc(s: seq<Item>): seq<Item> {
    if s == [] then [] else Insert(s[|s| - 1], SortDesc(s[..|s| - 1]))
  }

  /** The items worth `v`, in their order. */
  function WorthOf(s: seq<Item>, v: int): seq<Item> {
    if s == [] then [] else (if s[0].value == v then [s[0]] else []) + WorthOf(s[1..], v)
  }

  lemma {:induction false} WorthOfAppend(a: seq<Item>, b: seq<Item>, v: int)
    ensures WorthOf(a + b, v) == WorthOf(a, v) + WorthOf(b, v)
  {
    if a == [] {
      assert a + b == b;
    } else {
      var h := if a[0].value == v then [a[0]] else [];
      assert (a + b)[0] == a[0];
      assert (a + b)[1..] == a[1..] + b;
      WorthOfAppend(a[1..], b, v);
      assert WorthOf(a + b, v) == h + (WorthOf(a[1..], v) + WorthOf(b, v));
    }
  }

  lemma {:induction false} InsertMultiset(x: Item, s: seq<Item>)
    ensures multiset(Insert(x, s)) == multiset(s) + multiset{x}
  {
    if s != [] && s[0].value >= x.value {
      InsertMultiset(x, s[1..]);
      assert s == [s[0]] + s[1..];
    }
  }

  lemma {:induction false} InsertSorted(x: Item, s: seq<Item>)
    requires SortedDesc(s)
    ensures SortedDesc(Insert(x, s))
  {
    if s != [] && s[0].value >= x.value {
      InsertSorted(x, s[1..]);
      InsertMultiset(x, s[1..]);
      var r := Insert(x, s[1..]);
      forall i | 0 <= i < |r| ensures s[0].value >= r[i].value {
        assert r[i] in multiset(r);
        if r[i] != x {
          assert r[i] in multiset(s[1..]);
        }
      }
    }
  }

  lemma {:induction false} NoneWorth(s: seq<Item>, v: int)
    requires forall i :: 0 <= i < |s| ==> s[i].value < v
    ensures WorthOf(s, v) == []
  {
    if s != [] {
      NoneWorth(s[1..], v);
    }
  }

  /** The one-item case of `WorthOf`. */
  lemma WorthOfOne(y: Item, v: int)
    ensures WorthOf([y], v) == (if y.value == v then [y] else [])
  {
    assert [y][1..] == [];
  }

  /** Inserting `x` adds it behind the items already there of the same value. */
  lemma {:induction false} InsertWorth(x: Item, s: seq<Item>, v: int)
    requires SortedDesc(s)
    ensures WorthOf(Insert(x, s), v) == WorthOf(s, v) + (if x.value == v then [x] else [])
  {
    if s == [] {
      WorthOfOne(x, v);
    } else if s[0].value >= x.value {
      var rest := Insert(x, s[1..]);
      assert Insert(x, s) == [s[0]] + rest;
      assert s == [s[0]] + s[1..];
      InsertWorth(x, s[1..], v);
      WorthOfAppend([s[0]], rest, v);
      WorthOfAppend([s[0]], s[1..], v);
    } else {
      assert Insert(x, s) == [x] + s;
      WorthOfAppend([x], s, v);
      WorthOfOne(x, v);
      if x.value == v {
        NoneWorth(s, v);
      }
    }
  }

  /** The sort orders items by descending value and keeps exactly the same items. */
  lemma {:induction false} SortDescSorted(s: seq<Item>)
    ensures SortedDesc(SortDesc(s))
    ensures multiset(SortDesc(s)) == multiset(s)
  {
    if s != [] {
      var init, last := s[..|s| - 1], s[|s| - 1];
      SortDescSorted(init);
      InsertSorted(last, SortDesc(init));
      InsertMultiset(last, SortDesc(init));
      assert s == init + [last];
    }
  }

  /** The sort is stable: the items of any one value keep their order. */
  lemma {:induction false} SortDescStable(s: seq<Item>, v: int)
    ensures WorthOf(SortDesc(s), v) == WorthOf(s, v)
  {
    if s != [] {
      var init, last := s[..|s| - 1], s[|s| - 1];
      assert s == init + [last];
      var sorted := SortDesc(init);
      assert SortDesc(s) == Insert(last, sorted);
      SortDescStable(init, v);
      SortDescSorted(init);
      InsertWorth(last, sorted, v);
      WorthOfAppend(init, [last], v);
      WorthOfOne(last, v);
    }
  }

  /** `items.slice(0, 10)` of the sorted items. */
  function Top(items: seq<Item>): seq<Item> {
    var sorted := SortDesc(items);
    if |sorted| <= 10 then sorted else sorted[..10]
  }

  /**
   * The response holds at most ten items, best first; they are items of the
   * users, as many of them as there are up to ten, and every item left out is
   * worth no more than any item shown.
   */
  lemma TopLaw(items: seq<Item>)
    ensures var top := Top(items);
            && |top| == (if |items| <= 10 then |items| else 10)
            && SortedDesc(top)
            && multiset(top) <= multiset(items)
            && forall x, i :: x in multiset(items) - multiset(top) && 0 <= i < |top| ==> x.value <= top[i].value
  {
    SortDescSorted(items);
    var sorted := SortDesc(items);
    assert |sorted| == |items| by { assert |multiset(sorted)| == |multiset(items)|; }
    var n := if |sorted| <= 10 then |sorted| else 10;
    assert Top(items) == sorted[..n];
    PrefixLaw(sorted, n);
  }

  /** A prefix of a sorted sequence is sorted, and dominates what it leaves out. */
  lemma PrefixLaw(sorted: seq<Item>, n: nat)
    requires SortedDesc(sorted) && n <= |sorted|
    ensures var top := sorted[..n];
            && SortedDesc(top)
            && multiset(top) <= multiset(sorted)
            && forall x, i :: x in multiset(sorted) - multiset(top) && 0 <= i < n ==> x.value <= top[i].value
  {
    var top := sorted[..n];
    assert sorted == top + sorted[n..];
    assert multiset(sorted) == multiset(top) + multiset(sorted[n..]);
    forall x, i | x in multiset(sorted) - multiset(top) && 0 <= i < n
      ensures x.value <= top[i].value
    {
      assert x in multiset(sorted[n..]);
      var j :| 0 <= j < |sorted[n..]| && sorted[n..][j] == x;
      assert sorted[n + j] == x;
    }
  }
}
