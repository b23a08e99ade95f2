# Treats and Dreams: the reward economy

The treats-and-dreams app is a Streamlit page. Users earn activity points by
completing catalog activities. They spend those points on treats, and every
point spent on a treat lands in one shared dream bank. Any user can then buy
a dream out of that bank. The page keeps its state in `st.session_state` and
changes it from its button handlers. This project models that state and those
handlers in Dafny:

- `economy.dfy`, module `Economy`, holds the values: activities, and rewards
  (treats and dreams: name, cost, buyer list). It also holds the list edits
  the handlers make (`pop`, `remove`, `append` to a buyer list), the views the
  page renders ("points needed", the purchased count, the catalog lookup by
  name) and the lemmas about them. One lemma family covers the roster's
  point total: how each kind of handler moves it.
- `session.dfy`, module `Session`, holds class `AppState`, whose fields are
  those of the session state: the roster, the selected user, `user_banks`
  (user to activity points), the three catalogs and `dream_bank`. There is one
  method per button handler. `Valid()` is the invariant every handler keeps:
  - the roster has no repeated and no empty name, the selected user is on it,
    and some user is selected whenever the roster is not empty;
  - no balance is negative and the dream bank is not negative;
  - every activity is worth at least one point and every reward costs at least one;
  - no buyer list names anyone twice.

  Each method states its whole new state, and its `modifies` frame names
  the fields it may touch. Treat purchases conserve "roster points plus
  dream bank". Completing an activity raises that sum by exactly the
  activity's points.
- `scenarios.dfy`, module `Scenarios`, holds client methods. Each one steps
  through a session that starts from a loaded state (the first-run defaults
  or a given bank file) and asserts what the contracts alone imply:
  - `TreatAtExactBalance` (first-run defaults): buying a treat with exactly
    its cost leaves a balance of 0;
  - `TreatShortOfPoints` (first-run defaults): a purchase that lacks points
    changes nothing;
  - `SecondPurchaseRefused` (given bank file): a treat already bought is
    refused, however many points the user holds;
  - `OneDreamTwoBuyers` (given bank file): two users buy the same dream, and
    each purchase takes its cost from the pool;
  - `DeleteThenReadd` (given bank file): a deleted and re-added user starts
    from zero, while the old buyer lists still name them;
  - `DreamWithoutUser` (given bank file): a dream can be bought while no user
    exists;
  - `FirstUserActsAtOnce` (given bank file): the first user added to an empty
    roster is the acting user for the next purchase and activity.

The acting user of every handler is `selectedUser`: the page copies the select
box's value into it before any handler runs (main.py:72-73). The select box
always holds a roster name, so `selectedUser` is None exactly when the roster
is empty. Adding the first user therefore selects that user, as the rerun
after "Add User" does (main.py:107, 69-73). Buyer lists hold `Option<string>`
because the dream Buy button (main.py:223-231) only checks that the pool
covers the cost. With no user at all it is still offered, and buying records
None as the buyer. The model keeps this behaviour as written. A treat cannot
be bought that way: with no user the available points are 0, and every cost
is at least 1.

Where a Python handler would raise, the model either requires what the page
guarantees or returns a status with the state unchanged:

- the delete and buy buttons only exist for positions produced by
  `enumerate`, so those methods require a valid index;
- the number inputs have `min_value=1`, so the add methods require a value of
  at least 1;
- `next(...)` raising on a name with no activity happens before any change,
  so `CompleteActivity` returns `UnknownActivity`.

Treats form one global list, and each treat carries a `purchased_by` list,
as in `main.py`. A treat list per user with a purchased flag would be a
different design, and it is not the one modelled. `main.py` has no levels, no
level-up bonuses, no activity log and no ledger or pool resets, so they are
not part of this model.

## Model

| member | source | states |
|---|---|---|
| `Economy.RemoveAt` | main.py:126 | `pop(i)` removes exactly the entry at `i`: the length drops by one, entries before `i` stay in place, later ones shift down by one, and the multiset loses only that entry |
| `Economy.IndexOf` | main.py:79 | the position `list.remove` stops at holds the value, and no earlier position does |
| `Economy.RemoveFirst` | main.py:79 | `list.remove(x)`, walked as Python does it, shortens the list by one and removes exactly one copy of `x` from its multiset of entries |
| `Economy.RemoveFirstAt` | main.py:79 | that walk equals deleting the entry at the first position holding `x` |
| `Economy.RemoveFirstUnique` | main.py:79 | on a list without repetitions, removal leaves no trace of `x`, keeps every other element, and keeps the list free of repetitions |
| `Economy.RemoveFromRoster` | main.py:79-83 | removing the deleted user from a valid roster gives a valid roster that holds exactly the other users |
| `Economy.RecordPurchase` | main.py:179 | appending the buyer to entry `i`'s buyer list leaves its name and cost, puts the buyer at the end of that list, and changes no other entry; the same append is main.py:230 |
| `Economy.Balance` | main.py:74 | the balance read with a default is the ledger value for a user with an entry and 0 otherwise, never negative on a valid ledger |
| `Economy.TreatFunds` | main.py:172 | the points a treat is measured against are 0 with no user and the user's balance otherwise, so they are only non-zero for a user with a ledger entry |
| `Economy.FirstActivityNamed` | main.py:150 | the lookup finds an activity exactly when some catalog entry carries the name, and it finds the first such entry |
| `Economy.PointsNeeded` | main.py:172-177 | "points needed" is 0 exactly when the available points cover the cost (when Buy is offered); otherwise available plus needed equals the cost |
| `Economy.PurchasedCount` | main.py:203-204 | the purchased count never exceeds the catalog size; it is 0 exactly when the user bought no entry, and equals the size exactly when the user bought every entry |
| `Economy.PurchasedCountAfterPurchase` | main.py:179 | recording a purchase raises the buyer's count by one if it is their first purchase of that entry, and no other user's count changes |
| `Economy.PurchasedCountAfterRemove` | main.py:186 | deleting an entry lowers a user's count by one if they had bought it, and otherwise leaves it alone |
| `Economy.PurchasedCountAfterAppend` | main.py:194-196 | adding a reward with no buyers changes no user's count |
| `Economy.RosterTotalAgree` | main.py:74 | the roster's point total depends only on the balances of the users on the roster |
| `Economy.RosterTotalUpdate` | main.py:180 | changing one roster user's balance changes the roster total by exactly that change, and a balance off the roster does not count |
| `Economy.RosterTotalAppend` | main.py:101-104 | a user appended to the roster adds exactly their balance to the total |
| `Economy.RosterTotalRemove` | main.py:79-81 | deleting a user from the roster and the ledger takes exactly their balance out of the total, with no refund |
| `Session.AppState.Load` | main.py:40-63 | the session starts with the loaded roster and its first user selected; each missing bank key takes its first-run default (the seed catalog, a zero balance per roster user, an empty pool); loaded data that meets the invariants gives a valid session |
| `Session.AppState.SelectUser` | main.py:72-73 | the select box makes a roster user the acting user and changes nothing else |
| `Session.AppState.AddUser` | main.py:99-109 | an empty name is ignored and a name already on the roster is refused, with nothing changed; otherwise the name is appended and its balance set to 0, replacing any old entry; the first user added to an empty roster becomes the selected user and otherwise the select box's earlier choice is kept (see "## Left out"); the roster total is unchanged |
| `Session.AppState.DeleteUser` | main.py:77-85 | nothing happens exactly when the roster is empty; otherwise the selected user leaves the roster and the ledger and every other user stays; the first remaining user (or None) is selected; catalogs and buyer lists are untouched; the total loses exactly that user's balance |
| `Session.AppState.AddActivity` | main.py:131-141 | a non-empty name appends the activity at the end; an empty name changes nothing |
| `Session.AppState.DeleteActivity` | main.py:125-128 | exactly the chosen activity is removed and the others keep their order |
| `Session.AppState.CompleteActivity` | main.py:145-153 | with no user (an empty roster) nothing changes; otherwise the selected user gains exactly the points of the first activity with the chosen name, no other balance changes, and an unknown name changes nothing |
| `Session.AppState.BuyTreat` | main.py:164-183 | the purchase happens exactly when the user has not bought the treat and points needed is 0; it records the buyer, moves exactly the cost from the buyer's points to the dream bank (their sum is unchanged and the balance stays at least 0), raises the buyer's purchased count by one, and leaves dreams and other users alone; otherwise nothing changes |
| `Session.AppState.AddTreat` | main.py:190-199 | a non-empty name appends the treat with no buyers and leaves every purchased count alone; an empty name changes nothing |
| `Session.AppState.DeleteTreat` | main.py:185-188 | exactly the chosen treat is removed, with no refund to anyone; each user's count falls by one if they had bought it |
| `Session.AppState.BuyDream` | main.py:215-233 | the purchase happens exactly when the acting user has not bought the dream and the dream bank covers the cost; it records the buyer, who is a roster user whenever the roster is not empty, lowers the bank by exactly the cost (staying at least 0), and changes no balance; otherwise nothing changes |
| `Session.AppState.AddDream` | main.py:240-248 | a non-empty name appends the dream with no buyers and leaves every purchased count alone; an empty name changes nothing |
| `Session.AppState.DeleteDream` | main.py:235-238 | exactly the chosen dream is removed and the dream bank gets nothing back; each user's count falls by one if they had bought it |
| `Scenarios.SeedLookups` | main.py:45-48 | in the first-run catalog, "Run 5km" is found at position 0 and "Yoga 30min" at position 1 |

## Left out

- JSON persistence (`load_users`, `save_users`, `load_bank`, `save_bank`, the data directory; main.py:8-37): this is file I/O. `Load` takes the loaded roster and bank file as parameters, and no handler models its save call.
- Adding a user saves the users file but not the bank file (main.py:102). This is a persistence matter and has no effect on the in-session state.
- The roster is re-read from the users file on every run (main.py:40). Every roster change is saved to that file at once, so within a session this re-read changes nothing, and it is not modelled.
- Streamlit widgets, forms, columns, expanders, `st.rerun`, and the success, warning and info messages: these are presentation. Each Status value stands for the message or the missing button.
- The random form key of the activity form (main.py:129-130, 142-143): this is widget state. It has one visible effect that the model does not capture. The run after a successful Add Activity shows the form under a random key and then clears the flag. The run that handles the next click therefore builds the form under `add_activity`, where the clicked submit button does not exist, and that second Add Activity is silently lost.
- The progress percentages and the purchased-percentage displays (main.py:173-175, 205, 224-226, 254): this is floating-point display arithmetic. Only the integer points needed and the integer counts are modelled.
- AddUser: the selection after adding a user to a roster that already has users depends on how Streamlit identifies the select box (main.py:72). Adding a user changes the box's options. Releases that build a widget's identity from its options reset the box to its first user, and releases that identify a keyed widget by key alone keep the earlier choice. `main.py` pins no version, and the model keeps the earlier choice.
- CompleteActivity: requires the selected user to have a ledger entry. Line 151 raises a KeyError otherwise, which can happen after a reload since adding a user does not save the bank. The crash is not modelled.
- BuyTreat: does not model the crash on repeated treat names. The Buy button is keyed by the treat's name (main.py:178), and Add Treat accepts a name already in the catalog (main.py:193-195). When two unbought treats with the same name are both affordable, the page draws the first Buy button and raises Streamlit's duplicate-key error at the second. The second treat then cannot be bought, and nothing drawn after it works: the later treats, the Add Treat form and the whole Dreams section (main.py:190-255). The model lets either treat be bought.
- BuyDream: does not model the crash on repeated dream names. The Buy button is keyed by the dream's name (main.py:229), and Add Dream accepts a name already in the catalog (main.py:243-245). When two unbought dreams with the same name are both affordable from the pool, the page raises Streamlit's duplicate-key error at the second Buy button. That dream and everything drawn after it are unusable. The model lets either dream be bought.
- Concurrency and Streamlit's rerun model: the handlers run one at a time, and the model runs them in sequence.
