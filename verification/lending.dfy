/** The lending service: registration, borrowing, returning, search and
    reminders over an item store, a user store and a notification log. */
module Lending {
  import opened Results
  import opened Users
  import opened Items
  import opened Notifications
  import opened Sequences
  import opened JavaText
  import ItemStore
  import UserStore

  /** Everything the service reads and writes: the two stores and the
      notifications sent so far, oldest first. */
  datatype State = State(items: ItemStore.ItemMap, users: UserStore.UserMap, log: seq<Notice>)

  /** The `IllegalArgumentException`s the service throws. */
  datatype LendingError =
    | DuplicateItemId(id: int)
    | DuplicateUserId(userId: string)
    | DuplicateEmail(email: string)
    | BlankName

  /** Empty stores and nothing sent, as the application starts. */
  const Initial: State := State(map[], map[], [])

  /** `addItem(item)`: refuses an id already stored; otherwise stores the
      item and returns it. */
  function AddItem(st: State, item: Item): (r: (State, Result<Item, LendingError>))
    ensures r.1.Failure? <==> ItemStore.FindById(st.items, item.id).Some?
    ensures r.1.Failure? ==> r.0 == st && r.1.error == DuplicateItemId(item.id)
    ensures r.1.Success? ==> r.1.value == item
    ensures r.1.Success? ==> ItemStore.FindById(r.0.items, item.id) == Some(item)
    ensures r.1.Success? ==> ItemStore.SameExcept(r.0.items, st.items, item.id)
    ensures r.1.Success? ==> r.0.users == st.users && r.0.log == st.log
  {
    if ItemStore.FindById(st.items, item.id).Some? then
      (st, Failure(DuplicateItemId(item.id)))
    else
      (st.(items := ItemStore.Save(st.items, item)), Success(item))
  }

  /** `registerUser(user)`: refuses a user id already stored, then an email
      some stored user already has; otherwise stores the user and returns it.
      Java asks `findByEmail(..).isPresent()`, which is `EmailTaken` whatever
      the iteration order (see `UserStore.FindByEmail`). */
  function RegisterUser(st: State, user: User): (r: (State, Result<User, LendingError>))
    ensures r.1.Failure? <==> user.userId in st.users || UserStore.EmailTaken(st.users, user.email)
    ensures r.1.Failure? ==> r.0 == st
    ensures r.1.Failure? && user.userId in st.users ==> r.1.error == DuplicateUserId(user.userId)
    ensures r.1.Failure? && user.userId !in st.users ==> r.1.error == DuplicateEmail(user.email)
    ensures r.1.Success? ==> r.1.value == user
    ensures r.1.Success? ==> UserStore.FindById(r.0.users, user.userId) == Some(user)
    ensures r.1.Success? ==> UserStore.SameExcept(r.0.users, st.users, user.userId)
    ensures r.1.Success? ==> r.0.items == st.items && r.0.log == st.log
  {
    if UserStore.FindById(st.users, user.userId).Some? then
      (st, Failure(DuplicateUserId(user.userId)))
    else if UserStore.EmailTaken(st.users, user.email) then
      (st, Failure(DuplicateEmail(user.email)))
    else
      (st.(users := UserStore.Save(st.users, user)), Success(user))
  }

  /** `borrowItem(userId, itemId)`: lends a stored, available item to a
      stored user and notifies that user; reports false, changing nothing,
      in every other case. */
  function BorrowItem(st: State, userId: string, itemId: int): (r: (State, bool))
    ensures r.1 <==> userId in st.users && itemId in st.items && IsAvailable(st.items[itemId])
    ensures !r.1 ==> r.0 == st
    ensures r.1 ==> r.0.users == st.users
    ensures r.1 ==>
      ItemStore.FindById(r.0.items, itemId) == Some(st.items[itemId].(borrower := Some(st.users[userId])))
    ensures r.1 ==> ItemStore.SameExcept(r.0.items, st.items, itemId)
    ensures r.1 ==> r.0.log == st.log + [BorrowedNotice(st.users[userId].email, st.items[itemId].name)]
  {
    var user := UserStore.FindById(st.users, userId);
    var item := ItemStore.FindById(st.items, itemId);
    if user.None? || item.None? then (st, false)
    else if !IsAvailable(item.value) then (st, false)
    else
      match SetBorrower(item.value, Some(user.value))
      case Failure(_) => assert false; (st, false)
      case Success(lent) =>
        (State(ItemStore.Save(st.items, lent), st.users,
               st.log + [BorrowedNotice(user.value.email, lent.name)]), true)
  }

  /** `returnItem(itemId)`: makes a stored item that is out on loan
      available again and notifies the former borrower; reports false,
      changing nothing, in every other case. */
  function ReturnItem(st: State, itemId: int): (r: (State, bool))
    ensures r.1 <==> itemId in st.items && !IsAvailable(st.items[itemId])
    ensures !r.1 ==> r.0 == st
    ensures r.1 ==> r.0.users == st.users
    ensures r.1 ==> ItemStore.FindById(r.0.items, itemId) == Some(st.items[itemId].(borrower := None))
    ensures r.1 ==> ItemStore.SameExcept(r.0.items, st.items, itemId)
    ensures r.1 ==>
      r.0.log == st.log + [ReturnedNotice(st.items[itemId].borrower.value.email, st.items[itemId].name)]
  {
    var item := ItemStore.FindById(st.items, itemId);
    if item.None? then (st, false)
    else if IsAvailable(item.value) then (st, false)
    else
      var formerBorrower := item.value.borrower.value;
      match SetBorrower(item.value, None)
      case Failure(_) => assert false; (st, false)
      case Success(returned) =>
        (State(ItemStore.Save(st.items, returned), st.users,
               st.log + [ReturnedNotice(formerBorrower.email, returned.name)]), true)
  }

  /** `searchItemsByName(name)`: refuses a null (`None`) or blank query;
      otherwise hands the query, untrimmed, to the item store's `findByName`. */
  function SearchItemsByName(st: State, order: seq<int>, name: Option<string>): (r: Result<seq<Item>, LendingError>)
    requires IsEnumeration(order, st.items.Keys)
    ensures r.Failure? <==> name.None? || forall i :: 0 <= i < |name.value| ==> IsTrimmable(name.value[i])
    ensures r.Failure? ==> r.error == BlankName
    ensures r.Success? ==> r.value == ItemStore.FindByName(st.items, order, name.value)
    ensures r.Success? ==> forall it :: it in r.value <==> it in st.items.Values && ItemStore.ModelNameMatches(it, name.value)
  {
    if name.None? then Failure(BlankName)
    else
      BlankIffAllTrimmable(name.value);
      if IsBlank(name.value) then Failure(BlankName)
      else Success(ItemStore.FindByName(st.items, order, name.value))
  }

  /** `getAvailableItems()`: the stored items nobody has borrowed, in the
      store's iteration order. */
  function GetAvailableItems(st: State, order: seq<int>): (r: seq<Item>)
    requires IsEnumeration(order, st.items.Keys)
    ensures forall it :: it in r <==> it in st.items.Values && IsAvailable(it)
    ensures IsSubsequence(r, ItemStore.FindAll(st.items, order))
  {
    var all := ItemStore.FindAll(st.items, order);
    FilterIsSubsequence(all, IsAvailable);
    var r := Filter(all, IsAvailable);
    assert forall it :: it in r <==> it in all && IsAvailable(it) by {
      forall it ensures it in r <==> it in all && IsAvailable(it) {
        if it in all {
          var i :| 0 <= i < |all| && all[i] == it;
        }
        if it in r {
          var i :| 0 <= i < |r| && r[i] == it;
        }
      }
    }
    r
  }

  /** The reminder `sendReminders` sends for one id: one, to the borrower,
      when the item is stored and out on loan; none otherwise. */
  function ReminderFor(items: ItemStore.ItemMap, id: int): (r: seq<Notice>) {
    match ItemStore.FindById(items, id)
    case None => []
    case Some(it) => if IsAvailable(it) then [] else [Reminder(it.borrower.value.email, it.name)]
  }

  /** The reminders for a list of ids, in list order. */
  function RemindersFor(items: ItemStore.ItemMap, ids: seq<int>): (r: seq<Notice>)
    decreases |ids|
  {
    if ids == [] then [] else ReminderFor(items, ids[0]) + RemindersFor(items, ids[1..])
  }

  lemma {:induction false} RemindersForSnoc(items: ItemStore.ItemMap, ids: seq<int>, id: int)
    ensures RemindersFor(items, ids + [id]) == RemindersFor(items, ids) + ReminderFor(items, id)
    decreases |ids|
  {
    if ids != [] {
      assert (ids + [id])[1..] == ids[1..] + [id];
      RemindersForSnoc(items, ids[1..], id);
    }
  }

  /** `sendReminders(itemIds)`: walks the list and sends the reminders;
      unknown and available items are skipped, and the stores do not change. */
  method SendReminders(st: State, ids: seq<int>) returns (next: State)
    ensures next.items == st.items && next.users == st.users
    ensures next.log == st.log + RemindersFor(st.items, ids)
  {
    var log := st.log;
    var i := 0;
    while i < |ids|
      invariant 0 <= i <= |ids|
      invariant log == st.log + RemindersFor(st.items, ids[..i])
    {
      var found := ItemStore.FindById(st.items, ids[i]);
      if found.Some? && !IsAvailable(found.value) {
        log := log + [Reminder(found.value.borrower.value.email, found.value.name)];
      }
      RemindersForSnoc(st.items, ids[..i], ids[i]);
      assert ids[..i + 1] == ids[..i] + [ids[i]];
      i := i + 1;
    }
    assert ids[..|ids|] == ids;
    next := st.(log := log);
  }
}
