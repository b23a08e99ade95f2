/** The values of the reward economy of the treats-and-dreams app: catalog
    entries, the read-only views the page renders from them, and the facts
    about those views that the state machine in module Session relies on. */
module Economy {

  datatype Option<+T> = None | Some(value: T)

  /** A catalog activity: completing it earns `points` activity points. */
  datatype Activity = Activity(name: string, points: int)

  /** A treat or a dream: a named reward with a cost and the ordered list of
      the users who bought it. An entry is the page's `user` variable at the
      time of the purchase, which is None when no user exists. */
  datatype Reward = Reward(name: string, cost: int, purchasedBy: seq<Option<string>>)

  /** What a button handler did: `Ok` when it changed the state, otherwise
      the reason it left the state alone. */
  datatype Status =
    | Ok
    | EmptyName          // a text input was submitted empty
    | DuplicateUser      // "User already exists."
    | NoUser             // no user is selected
    | UnknownActivity    // no catalog activity carries the chosen name
    | AlreadyPurchased   // the entry shows "Purchased!" instead of a Buy button
    | NotEnoughPoints    // the entry shows a progress bar but no Buy button

  // The first-run catalog, used when the bank file has no such key.
  const SeedActivities: seq<Activity> := [Activity("Run 5km", 10), Activity("Yoga 30min", 5)]
  const SeedTreats: seq<Reward> := [Reward("Ice Cream", 15, [])]
  const SeedDreams: seq<Reward> := [Reward("Weekend Trip", 100, [])]

  predicate NoDuplicates<T(==)>(s: seq<T>) {
    forall i, j :: 0 <= i < j < |s| ==> s[i] != s[j]
  }

  /** A roster as "Add User" builds it: no name twice and no empty name. */
  predicate RosterValid(users: seq<string>) {
    NoDuplicates(users) && forall i :: 0 <= i < |users| ==> users[i] != ""
  }

  /** Every reward costs at least one point and is bought at most once per user. */
  predicate RewardsValid(catalog: seq<Reward>) {
    forall i :: 0 <= i < |catalog| ==> catalog[i].cost >= 1 && NoDuplicates(catalog[i].purchasedBy)
  }

  predicate ActivitiesValid(catalog: seq<Activity>) {
    forall i :: 0 <= i < |catalog| ==> catalog[i].points >= 1
  }

  predicate BalancesValid(banks: map<string, int>) {
    forall u :: u in banks ==> banks[u] >= 0
  }

  // ---- Sequence edits the handlers perform ----

  /** `list.pop(i)`: the entry at `i` is gone and the others keep their order. */
  function RemoveAt<T>(s: seq<T>, i: nat): (r: seq<T>)
    requires i < |s|
    ensures |r| == |s| - 1
    ensures forall j :: 0 <= j < i ==> r[j] == s[j]
    ensures forall j :: i <= j < |r| ==> r[j] == s[j + 1]
    ensures multiset(r) + multiset{s[i]} == multiset(s)
  {
    assert s == s[..i] + [s[i]] + s[i + 1..];
    s[..i] + s[i + 1..]
  }

  /** The position of the first occurrence of `x` in `s`. */
  function IndexOf<T(==)>(s: seq<T>, x: T): (k: nat)
    requires x in s
    ensures k < |s| && s[k] == x
    ensures forall j :: 0 <= j < k ==> s[j] != x
  {
    if s[0] == x then 0 else 1 + IndexOf(s[1..], x)
  }

  /** `list.remove(x)`, written as Python's list does it: walk to the first
      occurrence of `x` and drop it. */
  function RemoveFirst<T(==)>(s: seq<T>, x: T): (r: seq<T>)
    requires x in s
    ensures |r| == |s| - 1
    ensures multiset(r) == multiset(s) - multiset{x}
  {
    if s[0] == x then
      assert s == [s[0]] + s[1..];
      s[1..]
    else
      assert s == [s[0]] + s[1..];
      [s[0]] + RemoveFirst(s[1..], x)
  }

  /** Walking to the first occurrence and dropping it is deleting the entry
      at the first occurrence's position. */
  lemma {:induction false} RemoveFirstAt<T>(s: seq<T>, x: T)
    requires x in s
    ensures RemoveFirst(s, x) == RemoveAt(s, IndexOf(s, x))
  {
    if s[0] != x {
      RemoveFirstAt(s[1..], x);
      RemoveAtCons(s, IndexOf(s, x));
    }
  }

  /** Deleting past the head of a list deletes in its tail. */
  lemma RemoveAtCons<T>(s: seq<T>, k: nat)
    requires 0 < k < |s|
    ensures RemoveAt(s, k) == [s[0]] + RemoveAt(s[1..], k - 1)
  {
  }

  /** On a list without repetitions, removing `x` removes every trace of it
      and keeps every other element. */
  lemma RemoveFirstUnique<T>(s: seq<T>, x: T)
    requires x in s && NoDuplicates(s)
    ensures NoDuplicates(RemoveFirst(s, x))
    ensures x !in RemoveFirst(s, x)
    ensures forall y :: y in RemoveFirst(s, x) <==> y in s && y != x
  {
    var k := IndexOf(s, x);
    var r := RemoveFirst(s, x);
    RemoveFirstAt(s, x);
    forall y | y in r ensures y in s && y != x {
      var j :| 0 <= j < |r| && r[j] == y;
      if j < k { assert s[j] == y; } else { assert s[j + 1] == y; }
    }
    forall y | y in s && y != x ensures y in r {
      var j :| 0 <= j < |s| && s[j] == y;
      if j < k { assert r[j] == y; } else { assert r[j - 1] == y; }
    }
  }

  /** Removing a user keeps the roster valid and removes exactly that name. */
  lemma RemoveFromRoster(users: seq<string>, u: string)
    requires u in users && RosterValid(users)
    ensures RosterValid(RemoveFirst(users, u))
    ensures u !in RemoveFirst(users, u)
    ensures forall v :: v in RemoveFirst(users, u) <==> v in users && v != u
  {
    var rest := RemoveFirst(users, u);
    RemoveFirstUnique(users, u);
    forall i | 0 <= i < |rest| ensures rest[i] != "" {
      assert rest[i] in users;
    }
  }

  /** `catalog[i]["purchased_by"].append(buyer)`. */
  function RecordPurchase(catalog: seq<Reward>, i: nat, buyer: Option<string>): (r: seq<Reward>)
    requires i < |catalog|
    ensures |r| == |catalog|
    ensures r[i].name == catalog[i].name && r[i].cost == catalog[i].cost
    ensures r[i].purchasedBy == catalog[i].purchasedBy + [buyer]
    ensures buyer in r[i].purchasedBy
    ensures forall j :: 0 <= j < |r| && j != i ==> r[j] == catalog[j]
  {
    catalog[i := catalog[i].(purchasedBy := catalog[i].purchasedBy + [buyer])]
  }

  // ---- Lookups and read-only views ----

  /** The catalog position `next(a for a in activities if a["name"] == name)`
      stops at, or None where `next` raises StopIteration. */
  function FirstActivityNamed(activities: seq<Activity>, name: string): (r: Option<nat>)
    ensures r.None? <==> forall j :: 0 <= j < |activities| ==> activities[j].name != name
    ensures r.Some? ==> r.value < |activities| && activities[r.value].name == name
    ensures r.Some? ==> forall j :: 0 <= j < r.value ==> activities[j].name != name
  {
    if activities == [] then None
    else if activities[0].name == name then Some(0)
    else match FirstActivityNamed(activities[1..], name)
      case None => None
      case Some(k) => Some(k + 1)
  }

  /** `user_banks.get(u, {"activity_points": 0})["activity_points"]`. */
  function Balance(banks: map<string, int>, u: string): (r: int)
    ensures u in banks ==> r == banks[u]
    ensures u !in banks ==> r == 0
    ensures BalancesValid(banks) ==> r >= 0
  {
    if u in banks then banks[u] else 0
  }

  /** The points the treat list measures a treat against: the selected
      user's balance, or 0 when no user exists. */
  function TreatFunds(banks: map<string, int>, user: Option<string>): (r: int)
    ensures user.None? ==> r == 0
    ensures user.Some? ==> r == Balance(banks, user.value)
    ensures r != 0 ==> user.Some? && user.value in banks && r == banks[user.value]
    ensures BalancesValid(banks) ==> r >= 0
  {
    if user.Some? then Balance(banks, user.value) else 0
  }

  /** "Points needed": `max(cost - available, 0)`. It is 0 exactly when the
      available points cover the cost, and otherwise it is the shortfall. */
  function PointsNeeded(cost: int, available: int): (r: nat)
    ensures r == 0 <==> available >= cost
    ensures r > 0 ==> available + r == cost
  {
    if cost > available then cost - available else 0
  }

  /** `sum(user in t["purchased_by"] for t in catalog)`. */
  function PurchasedCount(catalog: seq<Reward>, user: Option<string>): (r: nat)
    ensures r <= |catalog|
    ensures r == 0 <==> forall i :: 0 <= i < |catalog| ==> user !in catalog[i].purchasedBy
    ensures r == |catalog| <==> forall i :: 0 <= i < |catalog| ==> user in catalog[i].purchasedBy
  {
    if catalog == [] then 0
    else (if user in catalog[0].purchasedBy then 1 else 0) + PurchasedCount(catalog[1..], user)
  }

  /** A purchase raises the buyer's purchased count by one when it is their
      first purchase of that entry, and leaves every other user's count alone. */
  lemma {:induction false} PurchasedCountAfterPurchase(catalog: seq<Reward>, i: nat, buyer: Option<string>, viewer: Option<string>)
    requires i < |catalog|
    ensures PurchasedCount(RecordPurchase(catalog, i, buyer), viewer)
         == PurchasedCount(catalog, viewer) + (if viewer == buyer && buyer !in catalog[i].purchasedBy then 1 else 0)
  {
    var after := RecordPurchase(catalog, i, buyer);
    if i == 0 {
      assert after[1..] == catalog[1..];
    } else {
      assert after[1..] == RecordPurchase(catalog[1..], i - 1, buyer);
      PurchasedCountAfterPurchase(catalog[1..], i - 1, buyer, viewer);
    }
  }

  /** Deleting an entry lowers a user's purchased count by one when the user
      had bought it, and never by more. */
  lemma {:induction false} PurchasedCountAfterRemove(catalog: seq<Reward>, i: nat, user: Option<string>)
    requires i < |catalog|
    ensures PurchasedCount(RemoveAt(catalog, i), user)
         == PurchasedCount(catalog, user) - (if user in catalog[i].purchasedBy then 1 else 0)
  {
    if i == 0 {
      assert RemoveAt(catalog, 0) == catalog[1..];
    } else {
      assert RemoveAt(catalog, i)[1..] == RemoveAt(catalog[1..], i - 1);
      PurchasedCountAfterRemove(catalog[1..], i - 1, user);
    }
  }

  /** A newly added entry has no buyers, so no user's count changes. */
  lemma {:induction false} PurchasedCountAfterAppend(catalog: seq<Reward>, entry: Reward, user: Option<string>)
    requires entry.purchasedBy == []
    ensures PurchasedCount(catalog + [entry], user) == PurchasedCount(catalog, user)
  {
    if catalog != [] {
      assert (catalog + [entry])[1..] == catalog[1..] + [entry];
      PurchasedCountAfterAppend(catalog[1..], entry, user);
    }
  }

  // ---- The ledger of the roster ----

  /** The activity points held by the users of the roster, each user's
      balance read as the page reads it. */
  function RosterTotal(users: seq<string>, banks: map<string, int>): int {
    if users == [] then 0 else Balance(banks, users[0]) + RosterTotal(users[1..], banks)
  }

  /** The total sees the balances of the roster's users and nothing else. */
  lemma {:induction false} RosterTotalAgree(users: seq<string>, b1: map<string, int>, b2: map<string, int>)
    requires forall u :: u in users ==> Balance(b1, u) == Balance(b2, u)
    ensures RosterTotal(users, b1) == RosterTotal(users, b2)
  {
    if users != [] {
      RosterTotalAgree(users[1..], b1, b2);
    }
  }

  /** Setting one balance changes the total by exactly the change of that
      balance when the user is on the roster once, and not at all otherwise. */
  lemma {:induction false} RosterTotalUpdate(users: seq<string>, banks: map<string, int>, u: string, v: int)
    requires NoDuplicates(users)
    ensures RosterTotal(users, banks[u := v])
         == RosterTotal(users, banks) + (if u in users then v - Balance(banks, u) else 0)
  {
    if users != [] {
      assert NoDuplicates(users[1..]);
      RosterTotalUpdate(users[1..], banks, u, v);
      assert users[0] == u ==> u !in users[1..];
    }
  }

  /** A user appended to the roster contributes exactly their balance. */
  lemma {:induction false} RosterTotalAppend(users: seq<string>, banks: map<string, int>, u: string)
    ensures RosterTotal(users + [u], banks) == RosterTotal(users, banks) + Balance(banks, u)
  {
    if users != [] {
      assert (users + [u])[1..] == users[1..] + [u];
      RosterTotalAppend(users[1..], banks, u);
    }
  }

  /** Removing a user from both the roster and the ledger takes exactly that
      user's balance out of the total: nothing is refunded anywhere. */
  lemma {:induction false} RosterTotalRemove(users: seq<string>, banks: map<string, int>, u: string)
    requires u in users && NoDuplicates(users)
    ensures RosterTotal(RemoveFirst(users, u), banks - {u}) == RosterTotal(users, banks) - Balance(banks, u)
  {
    assert NoDuplicates(users[1..]);
    if users[0] == u {
      assert u !in users[1..];
      RosterTotalAgree(users[1..], banks - {u}, banks);
    } else {
      assert RemoveFirst(users, u)[1..] == RemoveFirst(users[1..], u);
      RosterTotalRemove(users[1..], banks, u);
    }
  }
}
