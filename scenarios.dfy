/** Client code: what a caller of the session can conclude from the handlers'
    contracts alone. Each method steps through a session that starts from a
    loaded state: the first-run defaults or a given bank file. */
module Scenarios {
  import opened Economy
  import opened Session

  /** Where the first-run catalog's activities are found by name. */
  lemma SeedLookups()
    ensures FirstActivityNamed(SeedActivities, "Run 5km") == Some(0)
    ensures FirstActivityNamed(SeedActivities, "Yoga 30min") == Some(1)
  {
  }

  /** Earning points, then buying a treat at exactly its cost. */
  method TreatAtExactBalance() {
    SeedLookups();
    var s := new AppState.Load(["Mike"], NoBankFile);
    assert s.Valid() && s.selectedUser == Some("Mike") && s.userBanks["Mike"] == 0;
    var st := s.CompleteActivity("Yoga 30min");        // 5
    assert st == Ok && s.userBanks["Mike"] == 5;
    st := s.CompleteActivity("Run 5km");               // 15
    assert st == Ok && s.userBanks["Mike"] == 15;
    st := s.BuyTreat(0);                               // Ice Cream costs 15
    assert st == Ok && s.userBanks["Mike"] == 0 && s.dreamBank == 15;
    PurchasedCountAfterPurchase(SeedTreats, 0, Some("Mike"), Some("Mike"));
    assert PurchasedCount(s.treats, Some("Mike")) == 1;
  }

  /** A treat once bought is never offered to the same user again, however
      many points they hold. */
  method SecondPurchaseRefused() {
    var bank := NoBankFile.(treats := Some([Reward("Ice Cream", 15, [Some("Mike")])]),
                            userBanks := Some(map["Mike" := 20]));
    var s := new AppState.Load(["Mike"], bank);
    assert s.Valid();
    var st := s.BuyTreat(0);
    assert st == AlreadyPurchased && s.userBanks["Mike"] == 20 && s.dreamBank == 0;
  }

  /** A refused purchase changes nothing. */
  method TreatShortOfPoints() {
    SeedLookups();
    var s := new AppState.Load(["Mike"], NoBankFile);
    var st := s.CompleteActivity("Run 5km");           // 10 < 15
    st := s.BuyTreat(0);
    assert st == NotEnoughPoints;
    assert s.userBanks["Mike"] == 10 && s.dreamBank == 0 && s.treats == SeedTreats;
    assert PointsNeeded(SeedTreats[0].cost, TreatFunds(s.userBanks, s.selectedUser)) == 5;
  }

  /** Two users buy the same dream; each purchase debits the pool by its cost. */
  method OneDreamTwoBuyers() {
    var bank := NoBankFile.(dreamBank := Some(200));
    var s := new AppState.Load(["Mike", "Anna"], bank);
    assert s.Valid() && s.dreamBank == 200;
    var st := s.BuyDream(0);                           // Weekend Trip costs 100
    assert st == Ok && s.dreamBank == 100;
    s.SelectUser("Anna");
    st := s.BuyDream(0);
    assert st == Ok && s.dreamBank == 0;
    assert s.dreams[0].purchasedBy == [Some("Mike"), Some("Anna")];
    s.SelectUser("Mike");
    st := s.BuyDream(0);
    assert st == AlreadyPurchased;
  }

  /** A re-added user starts again from zero points, while the purchase lists
      kept through the deletion still name them. */
  method DeleteThenReadd() {
    var bank := NoBankFile.(treats := Some([Reward("Ice Cream", 15, [Some("Mike")])]),
                            userBanks := Some(map["Mike" := 5]));
    var s := new AppState.Load(["Mike"], bank);
    assert s.Valid();
    var st := s.DeleteUser();
    assert st == Ok && s.users == [] && s.selectedUser == None && "Mike" !in s.userBanks;
    st := s.AddUser("Mike");
    assert st == Ok && s.users == ["Mike"] && s.userBanks["Mike"] == 0 && s.selectedUser == Some("Mike");
    st := s.BuyTreat(0);
    assert st == AlreadyPurchased;
  }

  /** With no user at all, a dream is still offered once the pool covers it,
      and the purchase records None as the buyer. */
  method DreamWithoutUser() {
    var bank := NoBankFile.(dreamBank := Some(100));
    var s := new AppState.Load([], bank);
    var st := s.CompleteActivity("Run 5km");
    assert st == NoUser;
    st := s.BuyDream(0);
    assert st == Ok && s.dreamBank == 0 && s.dreams[0].purchasedBy == [None];
  }

  /** The first user added to an empty roster acts at once: the dream they
      buy records them, and the activity they complete credits them. */
  method FirstUserActsAtOnce() {
    SeedLookups();
    var bank := NoBankFile.(dreamBank := Some(100));
    var s := new AppState.Load([], bank);
    var st := s.AddUser("Mike");
    assert st == Ok && s.selectedUser == Some("Mike");
    st := s.BuyDream(0);
    assert st == Ok && s.dreams[0].purchasedBy == [Some("Mike")] && s.dreamBank == 0;
    st := s.CompleteActivity("Run 5km");
    assert st == Ok && s.userBanks["Mike"] == 10;
  }
}
