/** Properties of the lending service that relate several calls: the
    borrow/return cycle, duplicate rejection, reminders, and invariants kept
    by every sequence of operations. */
module LendingProperties {
  import opened Results
  import opened Users
  import opened Items
  import opened Notifications
  import opened Sequences
  import ItemStore
  import UserStore
  import opened Lending

  /** Borrowing an available item and returning it restores the item store
      exactly, sends a borrow then a return notice to the same user, and a
      second return then reports false. */
  lemma BorrowReturnRoundTrip(st: State, userId: string, itemId: int)
    requires userId in st.users && itemId in st.items && IsAvailable(st.items[itemId])
    ensures var (s1, lent) := BorrowItem(st, userId, itemId);
      var (s2, returned) := ReturnItem(s1, itemId);
      && lent && returned
      && s2.items == st.items && s2.users == st.users
      && s2.log == st.log + [BorrowedNotice(st.users[userId].email, st.items[itemId].name),
                             ReturnedNotice(st.users[userId].email, st.items[itemId].name)]
      && ReturnItem(s2, itemId) == (s2, false)
  {
    var (s1, _) := BorrowItem(st, userId, itemId);
    var (s2, _) := ReturnItem(s1, itemId);
    assert s1.items[itemId] == st.items[itemId].(borrower := Some(st.users[userId]));
    assert s2.items[itemId] == st.items[itemId];
    assert s2.items == st.items by {
      forall k | true ensures (k in s2.items <==> k in st.items) && (k in st.items ==> s2.items[k] == st.items[k]) {
        assert ItemStore.FindById(s2.items, k) == ItemStore.FindById(st.items, k);
      }
    }
  }

  /** While an item is out on loan, nobody can borrow it — not even its
      borrower — and nothing changes. */
  lemma BorrowWhileLentFails(st: State, userId: string, itemId: int)
    requires itemId in st.items && !IsAvailable(st.items[itemId])
    ensures BorrowItem(st, userId, itemId) == (st, false)
  {
  }

  /** Borrowing takes the item off the available list; returning it puts
      it back. */
  lemma BorrowAndReturnMoveAvailability(st: State, userId: string, itemId: int, order: seq<int>)
    requires userId in st.users && itemId in st.items && IsAvailable(st.items[itemId])
    requires IsEnumeration(order, st.items.Keys)
    ensures st.items[itemId] in GetAvailableItems(st, order)
    ensures var s1 := BorrowItem(st, userId, itemId).0;
      && s1.items.Keys == st.items.Keys
      && (forall it :: it in GetAvailableItems(s1, order) ==> it.id != itemId)
      && st.items[itemId] in GetAvailableItems(ReturnItem(s1, itemId).0, order)
  {
    var s1 := BorrowItem(st, userId, itemId).0;
    assert s1.items.Keys == st.items.Keys by {
      forall k ensures k in s1.items <==> k in st.items {
        assert ItemStore.FindById(s1.items, k).Some? <==> ItemStore.FindById(st.items, k).Some?;
      }
    }
    BorrowReturnRoundTrip(st, userId, itemId);
  }

  /** A second `addItem` with an id already used fails, whatever the other
      fields of the second item. */
  lemma AddItemTwiceFails(st: State, first: Item, second: Item)
    requires AddItem(st, first).1.Success?
    requires second.id == first.id
    ensures AddItem(AddItem(st, first).0, second).1 == Failure(DuplicateItemId(first.id))
  {
  }

  /** A second `registerUser` with an email already used fails, whatever its
      user id; with a new user id, the email is what it reports. */
  lemma RegisterSameEmailFails(st: State, first: User, second: User)
    requires RegisterUser(st, first).1.Success?
    requires second.email == first.email
    ensures RegisterUser(RegisterUser(st, first).0, second).1.Failure?
    ensures second.userId != first.userId && second.userId !in st.users ==>
      RegisterUser(RegisterUser(st, first).0, second).1 == Failure(DuplicateEmail(first.email))
  {
    var s1 := RegisterUser(st, first).0;
    assert s1.users[first.userId] == first;
  }

  /** The stored ids whose item is out on loan. */
  function OnLoan(items: ItemStore.ItemMap): (onLoan: int -> bool) {
    id => id in items && !IsAvailable(items[id])
  }

  /** `sendReminders` sends exactly one reminder per listed id whose item is
      stored and borrowed, in list order, to that item's borrower. */
  lemma {:induction false} RemindersOnePerLoanedId(items: ItemStore.ItemMap, ids: seq<int>)
    ensures var loaned := Filter(ids, OnLoan(items));
      && |RemindersFor(items, ids)| == |loaned|
      && forall j :: 0 <= j < |loaned| ==>
           loaned[j] in items && !IsAvailable(items[loaned[j]])
           && RemindersFor(items, ids)[j] == Reminder(items[loaned[j]].borrower.value.email, items[loaned[j]].name)
    decreases |ids|
  {
    if ids != [] {
      RemindersOnePerLoanedId(items, ids[1..]);
    }
  }

  /** Reminders for a borrowed id and an unknown one: one reminder, no error. */
  lemma ReminderSkipsUnknownId(st: State, u: User)
    requires 1 in st.items && st.items[1].borrower == Some(u)
    requires 99 !in st.items
    ensures RemindersFor(st.items, [1, 99]) == [Reminder(u.email, st.items[1].name)]
  {
    assert [1, 99][1..] == [99];
  }

  /** A whole session: add (1, "Drill", "DX100"), register
      u1, borrow twice, return twice; a missing user cannot borrow. */
  lemma DrillScenario()
    ensures var drill := NewItem(1, "Drill", "DX100");
      var alice := User("u1", "Alice", "alice@x.com");
      var (s1, added) := AddItem(Initial, drill);
      var (s2, registered) := RegisterUser(s1, alice);
      var (s3, b1) := BorrowItem(s2, "u1", 1);
      var (s4, b2) := BorrowItem(s3, "u1", 1);
      var (s5, r1) := ReturnItem(s4, 1);
      var (s6, r2) := ReturnItem(s5, 1);
      && added == Success(drill) && registered == Success(alice)
      && BorrowItem(s2, "ghost", 1) == (s2, false)
      && b1 && s3.items[1].borrower == Some(alice)
      && !b2 && s4 == s3
      && r1 && IsAvailable(s5.items[1])
      && !r2 && s6 == s5
  {
    var drill := NewItem(1, "Drill", "DX100");
    var alice := User("u1", "Alice", "alice@x.com");
    var s1 := AddItem(Initial, drill).0;
    assert !UserStore.EmailTaken(s1.users, alice.email);
  }

  /** The query reaches the store untrimmed: with the drill stored, " dx"
      is accepted but finds nothing, while "dX1" finds the drill. */
  lemma SearchPassesQueryUntrimmed(st: State)
    requires st.items == map[1 := NewItem(1, "Drill", "DX100")]
    ensures SearchItemsByName(st, [1], Some(" dx")) == Success([])
    ensures SearchItemsByName(st, [1], Some("dX1")) == Success([st.items[1]])
  {
    var drill := st.items[1];
    ItemStore.MatchesModelNameNotName();
    assert !JavaText.IsTrimmable(" dx"[1]);
    assert !JavaText.IsTrimmable("dX1"[0]);
    var one := ItemStore.FindByName(st.items, [1], "dX1");
    assert drill in st.items.Values;
    assert |one| == 1;
    assert one == [drill];
  }

  /** A query of spaces only, and a null query, are refused whatever is stored. */
  lemma SearchRefusesBlank(st: State, order: seq<int>)
    requires IsEnumeration(order, st.items.Keys)
    ensures SearchItemsByName(st, order, Some("  ")) == Failure(BlankName)
    ensures SearchItemsByName(st, order, Some("")) == Failure(BlankName)
    ensures SearchItemsByName(st, order, None) == Failure(BlankName)
  {
  }

  /** One call to the service, as the application makes it. */
  datatype Op =
    | AddItemOp(item: Item)
    | RegisterUserOp(user: User)
    | BorrowOp(userId: string, itemId: int)
    | ReturnOp(itemId: int)
    | RemindOp(ids: seq<int>)

  /** The state after one call; a call that throws leaves the state alone. */
  function Step(st: State, op: Op): (next: State) {
    match op
    case AddItemOp(item) => AddItem(st, item).0
    case RegisterUserOp(user) => RegisterUser(st, user).0
    case BorrowOp(userId, itemId) => BorrowItem(st, userId, itemId).0
    case ReturnOp(itemId) => ReturnItem(st, itemId).0
    case RemindOp(ids) => st.(log := st.log + RemindersFor(st.items, ids))
  }

  /** The state after a series of calls. */
  function Run(st: State, ops: seq<Op>): (last: State)
    decreases |ops|
  {
    if ops == [] then st else Run(Step(st, ops[0]), ops[1..])
  }

  /** No call deletes or rewrites what is stored: items keep their final
      fields, users stay as registered, and the log only grows. */
  predicate Preserves(before: State, after: State) {
    && (forall k :: k in before.items ==> k in after.items && SameFields(after.items[k], before.items[k]))
    && (forall k :: k in before.users ==> k in after.users && after.users[k] == before.users[k])
    && before.log <= after.log
  }

  lemma StepPreserves(st: State, op: Op)
    ensures Preserves(st, Step(st, op))
  {
    var next := Step(st, op);
    forall k | k in st.items ensures k in next.items && SameFields(next.items[k], st.items[k]) {
      assert ItemStore.FindById(st.items, k).Some?;
    }
    forall k | k in st.users ensures k in next.users && next.users[k] == st.users[k] {
      assert UserStore.FindById(st.users, k).Some?;
    }
  }

  lemma {:induction false} RunPreserves(st: State, ops: seq<Op>)
    ensures Preserves(st, Run(st, ops))
    decreases |ops|
  {
    if ops != [] {
      StepPreserves(st, ops[0]);
      RunPreserves(Step(st, ops[0]), ops[1..]);
    }
  }

  /** Emails stay unique under every series of calls from a state where
      they are unique — in particular from the initial state. */
  lemma {:induction false} RunKeepsEmailsUnique(st: State, ops: seq<Op>)
    requires UserStore.EmailsUnique(st.users)
    ensures UserStore.EmailsUnique(Run(st, ops).users)
    decreases |ops|
  {
    if ops != [] {
      var next := Step(st, ops[0]);
      if ops[0].RegisterUserOp? && RegisterUser(st, ops[0].user).1.Success? {
        var u := ops[0].user;
        forall a, b | a in next.users && b in next.users && a != b
          ensures next.users[a].email != next.users[b].email
        {
          assert UserStore.FindById(next.users, a) == (if a == u.userId then Some(u) else UserStore.FindById(st.users, a));
          assert UserStore.FindById(next.users, b) == (if b == u.userId then Some(u) else UserStore.FindById(st.users, b));
        }
      }
      RunKeepsEmailsUnique(next, ops[1..]);
    }
  }

  lemma InitialEmailsUnique()
    ensures UserStore.EmailsUnique(Initial.users)
  {
  }
}
