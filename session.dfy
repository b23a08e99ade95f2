/** The session state of the app (`st.session_state`) as an object whose
    fields the button handlers update in place. Each handler is one method;
    the acting user is always `selectedUser`, which the page copies from the
    user select box before any handler runs. */
module Session {
  import opened Economy

  /** What `load_bank()` returned: one optional value per key of the bank
      file. When the file is absent every key is missing. */
  datatype BankFile = BankFile(
    activities: Option<seq<Activity>>,
    treats: Option<seq<Reward>>,
    dreams: Option<seq<Reward>>,
    userBanks: Option<map<string, int>>,
    dreamBank: Option<int>)

  const NoBankFile := BankFile(None, None, None, None, None)

  function GetOr<T>(o: Option<T>, default: T): T {
    if o.Some? then o.value else default
  }

  /** A loaded roster and bank file that satisfy every invariant of the session. */
  predicate LoadValid(users: seq<string>, bank: BankFile) {
    RosterValid(users) &&
    (bank.activities.Some? ==> ActivitiesValid(bank.activities.value)) &&
    (bank.treats.Some? ==> RewardsValid(bank.treats.value)) &&
    (bank.dreams.Some? ==> RewardsValid(bank.dreams.value)) &&
    (bank.userBanks.Some? ==> BalancesValid(bank.userBanks.value)) &&
    (bank.dreamBank.Some? ==> bank.dreamBank.value >= 0)
  }

  class AppState {
    var users: seq<string>
    var selectedUser: Option<string>
    var userBanks: map<string, int>   // user -> activity_points
    var activities: seq<Activity>
    var treats: seq<Reward>
    var dreams: seq<Reward>
    var dreamBank: int

    /** The session invariant: the roster has no repeated or empty names, the
        selected user is on it and some user is selected whenever the roster
        is not empty (the select box always holds a roster name), no balance
        is negative, the pool is not negative, every catalog value is at least
        one point, and nobody bought an entry twice. */
    ghost predicate Valid()
      reads this
    {
      RosterValid(users) &&
      (selectedUser.Some? ==> selectedUser.value in users) &&
      (users != [] ==> selectedUser.Some?) &&
      BalancesValid(userBanks) && dreamBank >= 0 &&
      ActivitiesValid(activities) && RewardsValid(treats) && RewardsValid(dreams)
    }

    /** The start of a session: the roster from the users file, the first
        user selected, and every bank-file key that is missing replaced by
        its first-run default (a zero balance for each roster user). */
    constructor Load(loadedUsers: seq<string>, bank: BankFile)
      ensures users == loadedUsers
      ensures selectedUser == if loadedUsers == [] then None else Some(loadedUsers[0])
      ensures activities == GetOr(bank.activities, SeedActivities)
      ensures treats == GetOr(bank.treats, SeedTreats)
      ensures dreams == GetOr(bank.dreams, SeedDreams)
      ensures userBanks == GetOr(bank.userBanks, map u | u in loadedUsers :: 0)
      ensures dreamBank == GetOr(bank.dreamBank, 0)
      ensures LoadValid(loadedUsers, bank) ==> Valid()
    {
      users := loadedUsers;
      selectedUser := if loadedUsers == [] then None else Some(loadedUsers[0]);
      activities := GetOr(bank.activities, SeedActivities);
      treats := GetOr(bank.treats, SeedTreats);
      dreams := GetOr(bank.dreams, SeedDreams);
      userBanks := GetOr(bank.userBanks, map u | u in loadedUsers :: 0);
      dreamBank := GetOr(bank.dreamBank, 0);
    }

    /** The user select box: it offers only roster names. */
    method SelectUser(u: string)
      requires Valid() && u in users
      modifies this`selectedUser
      ensures Valid() && selectedUser == Some(u)
    {
      selectedUser := Some(u);
    }

    /** "Add User": ignored on an empty name, refused on a name already on
        the roster; otherwise the name goes to the end of the roster with a
        fresh zero balance, replacing any balance left under that name. The
        rerun that follows shows the select box again; when the roster was
        empty its only choice, the new user, becomes the acting user. */
    method AddUser(name: string) returns (status: Status)
      requires Valid()
      modifies this`users, this`userBanks, this`selectedUser
      ensures Valid()
      ensures status == EmptyName <==> name == ""
      ensures status == DuplicateUser <==> name != "" && name in old(users)
      ensures status == Ok <==> name != "" && name !in old(users)
      ensures status == Ok ==> users == old(users) + [name] && userBanks == old(userBanks)[name := 0]
      ensures status == Ok ==> selectedUser == if old(users) == [] then Some(name) else old(selectedUser)
      ensures status != Ok ==>
        users == old(users) && userBanks == old(userBanks) && selectedUser == old(selectedUser)
      ensures RosterTotal(users, userBanks) == old(RosterTotal(users, userBanks))
    {
      if name == "" {
        return EmptyName;
      }
      if name in users {
        return DuplicateUser;
      }
      RosterTotalAppend(users, userBanks[name := 0], name);
      RosterTotalAgree(users, userBanks[name := 0], userBanks);
      if users == [] {
        selectedUser := Some(name);
      }
      users := users + [name];
      userBanks := userBanks[name := 0];
      status := Ok;
    }

    /** "Delete User": the selected user leaves the roster and the ledger,
        the first remaining user becomes selected, and the catalogs (with the
        purchase lists that still name the user) are left as they are. */
    method DeleteUser() returns (status: Status)
      requires Valid()
      modifies this`users, this`userBanks, this`selectedUser
      ensures Valid()
      ensures status == NoUser <==> old(selectedUser).None?
      ensures status == NoUser <==> old(users) == []
      ensures status == Ok <==> old(selectedUser).Some?
      ensures status == NoUser ==> users == old(users) && userBanks == old(userBanks) && selectedUser == old(selectedUser)
      ensures status == Ok ==>
        var u := old(selectedUser).value;
        users == RemoveFirst(old(users), u) && userBanks == old(userBanks) - {u}
      ensures status == Ok ==>
        var u := old(selectedUser).value;
        u !in users && u !in userBanks && forall v :: v in users <==> v in old(users) && v != u
      ensures status == Ok ==> selectedUser == (if users == [] then None else Some(users[0]))
      ensures status == Ok ==>
        RosterTotal(users, userBanks) == old(RosterTotal(users, userBanks)) - Balance(old(userBanks), old(selectedUser).value)
    {
      if selectedUser.None? {
        return NoUser;
      }
      var u := selectedUser.value;
      var rest := RemoveFirst(users, u);
      RemoveFromRoster(users, u);
      RosterTotalRemove(users, userBanks, u);
      users := rest;
      userBanks := userBanks - {u};
      selectedUser := if users == [] then None else Some(users[0]);
      status := Ok;
    }

    /** "Add Activity": the points field cannot go below one; an empty name
        is ignored; otherwise the activity goes to the end of the catalog. */
    method AddActivity(name: string, points: int) returns (status: Status)
      requires Valid() && points >= 1
      modifies this`activities
      ensures Valid()
      ensures status == Ok <==> name != ""
      ensures status != Ok ==> status == EmptyName && activities == old(activities)
      ensures status == Ok ==> activities == old(activities) + [Activity(name, points)]
    {
      if name == "" {
        return EmptyName;
      }
      activities := activities + [Activity(name, points)];
      status := Ok;
    }

    /** The delete button of the activity at position `i`. */
    method DeleteActivity(i: nat)
      requires Valid() && i < |activities|
      modifies this`activities
      ensures Valid()
      ensures activities == RemoveAt(old(activities), i)
    {
      activities := RemoveAt(activities, i);
    }

    /** "Complete Activity": with a user selected, credits them the points of
        the first catalog activity carrying the chosen name. */
    method CompleteActivity(choice: string) returns (status: Status)
      requires Valid()
      requires selectedUser.Some? ==> selectedUser.value in userBanks
      modifies this`userBanks
      ensures Valid()
      ensures status == NoUser <==> selectedUser.None?
      ensures status == NoUser <==> users == []
      ensures status == UnknownActivity <==> selectedUser.Some? && FirstActivityNamed(activities, choice).None?
      ensures status == Ok <==> selectedUser.Some? && FirstActivityNamed(activities, choice).Some?
      ensures status != Ok ==> userBanks == old(userBanks)
      ensures status == Ok ==>
        var u := selectedUser.value;
        var k := FirstActivityNamed(activities, choice).value;
        userBanks == old(userBanks)[u := old(userBanks)[u] + activities[k].points] &&
        userBanks[u] > old(userBanks)[u] &&
        RosterTotal(users, userBanks) == old(RosterTotal(users, userBanks)) + activities[k].points
    {
      if selectedUser.None? {
        return NoUser;
      }
      var found := FirstActivityNamed(activities, choice);
      if found.None? {
        return UnknownActivity;
      }
      var u := selectedUser.value;
      var points := activities[found.value].points;
      RosterTotalUpdate(users, userBanks, u, userBanks[u] + points);
      userBanks := userBanks[u := userBanks[u] + points];
      status := Ok;
    }

    /** The Buy button of the treat at position `i`. It is shown only when
        the selected user has not bought the treat and their points cover its
        cost; the purchase records the buyer and moves the cost from the
        buyer's points into the dream bank. */
    method BuyTreat(i: nat) returns (status: Status)
      requires Valid() && i < |treats|
      modifies this`treats, this`userBanks, this`dreamBank
      ensures Valid()
      ensures status in {Ok, AlreadyPurchased, NotEnoughPoints}
      ensures status == AlreadyPurchased <==> selectedUser in old(treats)[i].purchasedBy
      ensures status == Ok <==>
        selectedUser !in old(treats)[i].purchasedBy &&
        PointsNeeded(old(treats)[i].cost, TreatFunds(old(userBanks), selectedUser)) == 0
      ensures status == Ok ==> forall v :: PurchasedCount(treats, v) == PurchasedCount(old(treats), v) + (if v == selectedUser then 1 else 0)
      ensures status != Ok ==>
        treats == old(treats) && userBanks == old(userBanks) && dreamBank == old(dreamBank)
      ensures status == Ok ==>
        var cost := old(treats)[i].cost;
        selectedUser.Some? && selectedUser.value in old(userBanks) &&
        var u := selectedUser.value;
        treats == RecordPurchase(old(treats), i, selectedUser) &&
        selectedUser in treats[i].purchasedBy &&
        userBanks == old(userBanks)[u := old(userBanks)[u] - cost] &&
        dreamBank == old(dreamBank) + cost &&
        userBanks[u] + dreamBank == old(userBanks)[u] + old(dreamBank)
      ensures RosterTotal(users, userBanks) + dreamBank == old(RosterTotal(users, userBanks)) + old(dreamBank)
    {
      var treat := treats[i];
      if selectedUser in treat.purchasedBy {
        return AlreadyPurchased;
      }
      var points := TreatFunds(userBanks, selectedUser);
      if points < treat.cost {
        return NotEnoughPoints;
      }
      var u := selectedUser.value;
      RosterTotalUpdate(users, userBanks, u, userBanks[u] - treat.cost);
      forall v ensures PurchasedCount(RecordPurchase(treats, i, selectedUser), v) == PurchasedCount(treats, v) + (if v == selectedUser then 1 else 0) {
        PurchasedCountAfterPurchase(treats, i, selectedUser, v);
      }
      treats := RecordPurchase(treats, i, selectedUser);
      userBanks := userBanks[u := userBanks[u] - treat.cost];
      dreamBank := dreamBank + treat.cost;
      status := Ok;
    }

    /** "Add Treat": the cost field cannot go below one; an empty name is
        ignored; otherwise the treat goes to the end with no buyers. */
    method AddTreat(name: string, cost: int) returns (status: Status)
      requires Valid() && cost >= 1
      modifies this`treats
      ensures Valid()
      ensures status == Ok <==> name != ""
      ensures status != Ok ==> status == EmptyName && treats == old(treats)
      ensures status == Ok ==> treats == old(treats) + [Reward(name, cost, [])]
      ensures forall v :: PurchasedCount(treats, v) == PurchasedCount(old(treats), v)
    {
      if name == "" {
        return EmptyName;
      }
      forall v ensures PurchasedCount(treats + [Reward(name, cost, [])], v) == PurchasedCount(treats, v) {
        PurchasedCountAfterAppend(treats, Reward(name, cost, []), v);
      }
      treats := treats + [Reward(name, cost, [])];
      status := Ok;
    }

    /** The delete button of the treat at position `i`: no points come back,
        whoever bought it. */
    method DeleteTreat(i: nat)
      requires Valid() && i < |treats|
      modifies this`treats
      ensures Valid()
      ensures treats == RemoveAt(old(treats), i)
      ensures forall v :: PurchasedCount(treats, v) == PurchasedCount(old(treats), v) - (if v in old(treats)[i].purchasedBy then 1 else 0)
    {
      forall v ensures PurchasedCount(RemoveAt(treats, i), v) == PurchasedCount(treats, v) - (if v in treats[i].purchasedBy then 1 else 0) {
        PurchasedCountAfterRemove(treats, i, v);
      }
      treats := RemoveAt(treats, i);
    }

    /** The Buy button of the dream at position `i`. It is shown when the
        acting user has not bought the dream and the dream bank covers its
        cost (no user need exist); the purchase records the buyer and takes
        the cost out of the dream bank. */
    method BuyDream(i: nat) returns (status: Status)
      requires Valid() && i < |dreams|
      modifies this`dreams, this`dreamBank
      ensures Valid()
      ensures status in {Ok, AlreadyPurchased, NotEnoughPoints}
      ensures status == AlreadyPurchased <==> selectedUser in old(dreams)[i].purchasedBy
      ensures status == Ok <==>
        selectedUser !in old(dreams)[i].purchasedBy && PointsNeeded(old(dreams)[i].cost, old(dreamBank)) == 0
      ensures status == Ok ==> forall v :: PurchasedCount(dreams, v) == PurchasedCount(old(dreams), v) + (if v == selectedUser then 1 else 0)
      ensures status == Ok && users != [] ==> selectedUser.Some? && selectedUser.value in users
      ensures status != Ok ==> dreams == old(dreams) && dreamBank == old(dreamBank)
      ensures status == Ok ==>
        dreams == RecordPurchase(old(dreams), i, selectedUser) &&
        selectedUser in dreams[i].purchasedBy &&
        dreamBank == old(dreamBank) - old(dreams)[i].cost && dreamBank >= 0
    {
      var dream := dreams[i];
      if selectedUser in dream.purchasedBy {
        return AlreadyPurchased;
      }
      if dreamBank < dream.cost {
        return NotEnoughPoints;
      }
      forall v ensures PurchasedCount(RecordPurchase(dreams, i, selectedUser), v) == PurchasedCount(dreams, v) + (if v == selectedUser then 1 else 0) {
        PurchasedCountAfterPurchase(dreams, i, selectedUser, v);
      }
      dreams := RecordPurchase(dreams, i, selectedUser);
      dreamBank := dreamBank - dream.cost;
      status := Ok;
    }

    /** "Add Dream": the cost field cannot go below one; an empty name is
        ignored; otherwise the dream goes to the end with no buyers. */
    method AddDream(name: string, cost: int) returns (status: Status)
      requires Valid() && cost >= 1
      modifies this`dreams
      ensures Valid()
      ensures status == Ok <==> name != ""
      ensures status != Ok ==> status == EmptyName && dreams == old(dreams)
      ensures status == Ok ==> dreams == old(dreams) + [Reward(name, cost, [])]
      ensures forall v :: PurchasedCount(dreams, v) == PurchasedCount(old(dreams), v)
    {
      if name == "" {
        return EmptyName;
      }
      forall v ensures PurchasedCount(dreams + [Reward(name, cost, [])], v) == PurchasedCount(dreams, v) {
        PurchasedCountAfterAppend(dreams, Reward(name, cost, []), v);
      }
      dreams := dreams + [Reward(name, cost, [])];
      status := Ok;
    }

    /** The delete button of the dream at position `i`: the dream bank gets
        nothing back, whoever bought it. */
    method DeleteDream(i: nat)
      requires Valid() && i < |dreams|
      modifies this`dreams
      ensures Valid()
      ensures dreams == RemoveAt(old(dreams), i)
      ensures forall v :: PurchasedCount(dreams, v) == PurchasedCount(old(dreams), v) - (if v in old(dreams)[i].purchasedBy then 1 else 0)
    {
      forall v ensures PurchasedCount(RemoveAt(dreams, i), v) == PurchasedCount(dreams, v) - (if v in dreams[i].purchasedBy then 1 else 0) {
        PurchasedCountAfterRemove(dreams, i, v);
      }
      dreams := RemoveAt(dreams, i);
    }
  }
}
