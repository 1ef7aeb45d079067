/** The item entity: immutable identity and descriptive fields, and a
    mutable optional borrower guarded against silent hand-over. */
module Items {
  import opened Results
  import opened Users

  /** `borrower == None` is the Java `null` borrower: the item is available. */
  datatype Item = Item(id: int, name: string, modelName: string, borrower: Option<User>)

  /** The `IllegalStateException` raised by `setBorrower`. */
  datatype ItemError = AlreadyBorrowedBySomeoneElse

  /** `new Item(id, name, modelName)`: a fresh item nobody has borrowed. */
  function NewItem(id: int, name: string, modelName: string): (it: Item)
    ensures it.id == id && it.name == name && it.modelName == modelName
    ensures IsAvailable(it)
  {
    Item(id, name, modelName, None)
  }

  /** `isAvailable()`. */
  predicate IsAvailable(it: Item) {
    it.borrower.None?
  }

  /** An item is available exactly when every user may borrow it: a borrowed
      item refuses at least the users whose id differs from its borrower's. */
  lemma AvailableIffLendableToAll(it: Item)
    ensures IsAvailable(it) <==> forall u :: SetBorrower(it, Some(u)).Success?
  {
    if !IsAvailable(it) {
      var other := User(it.borrower.value.userId + "'", "", "");
      assert other.userId != it.borrower.value.userId by {
        assert |other.userId| != |it.borrower.value.userId|;
      }
      assert SetBorrower(it, Some(other)).Failure?;
    }
  }

  /** `setBorrower(b)`: refuses to hand an item that is out on loan to a
      user with another user id; otherwise replaces the borrower. The
      failed call leaves the item as it was, so the caller keeps `it`. */
  function SetBorrower(it: Item, b: Option<User>): (r: Result<Item, ItemError>)
    ensures r.Failure? <==> b.Some? && !IsAvailable(it) && it.borrower.value.userId != b.value.userId
    ensures r.Success? ==> r.value.borrower == b
    ensures r.Success? ==> SameFields(r.value, it)
  {
    if b.Some? && it.borrower.Some? && it.borrower.value.userId != b.value.userId then
      Failure(AlreadyBorrowedBySomeoneElse)
    else
      Success(it.(borrower := b))
  }

  /** The fields declared `final`: everything except the borrower. */
  predicate SameFields(a: Item, b: Item) {
    a.id == b.id && a.name == b.name && a.modelName == b.modelName
  }

  /** The item as seen after `setBorrower(b)` returns or throws. */
  function AfterSetBorrower(it: Item, b: Option<User>): (r: Item) {
    match SetBorrower(it, b)
    case Success(next) => next
    case Failure(_) => it
  }

  /** The item after a series of `setBorrower` calls, each applied in turn. */
  function AfterSetBorrowers(it: Item, bs: seq<Option<User>>): (r: Item)
    decreases |bs|
  {
    if bs == [] then it else AfterSetBorrowers(AfterSetBorrower(it, bs[0]), bs[1..])
  }

  /** Clearing the borrower always succeeds and makes the item available. */
  lemma ReleaseAlwaysSucceeds(it: Item)
    ensures SetBorrower(it, None).Success?
    ensures IsAvailable(SetBorrower(it, None).value)
  {
  }

  /** An available item can be lent to anyone. */
  lemma LendAvailable(it: Item, u: User)
    requires IsAvailable(it)
    ensures SetBorrower(it, Some(u)) == Success(it.(borrower := Some(u)))
  {
  }

  /** Lending to a user with another user id fails and the borrower stays. */
  lemma LendToOtherFails(it: Item, u: User)
    requires !IsAvailable(it) && it.borrower.value.userId != u.userId
    ensures SetBorrower(it, Some(u)).Failure?
    ensures AfterSetBorrower(it, Some(u)).borrower == it.borrower
  {
  }

  /** Lending again to a user with the same user id is accepted. */
  lemma LendToSameUserAllowed(it: Item, u: User)
    requires !IsAvailable(it) && it.borrower.value.userId == u.userId
    ensures SetBorrower(it, Some(u)) == Success(it.(borrower := Some(u)))
  {
  }

  /** No sequence of `setBorrower` calls changes the `final` fields. */
  lemma {:induction false} FinalFieldsStable(it: Item, bs: seq<Option<User>>)
    ensures SameFields(AfterSetBorrowers(it, bs), it)
    decreases |bs|
  {
    if bs != [] {
      FinalFieldsStable(AfterSetBorrower(it, bs[0]), bs[1..]);
    }
  }

  /** Without an intervening release, an item on loan stays with a user of
      the same user id, whatever `setBorrower` calls are made. */
  lemma {:induction false} NoHandOverWithoutRelease(it: Item, bs: seq<Option<User>>)
    requires !IsAvailable(it)
    requires forall i :: 0 <= i < |bs| ==> bs[i].Some?
    ensures !IsAvailable(AfterSetBorrowers(it, bs))
    ensures AfterSetBorrowers(it, bs).borrower.value.userId == it.borrower.value.userId
    decreases |bs|
  {
    if bs != [] {
      NoHandOverWithoutRelease(AfterSetBorrower(it, bs[0]), bs[1..]);
    }
  }

  /** `equals`: two items are equal exactly when their ids are. */
  predicate SameItem(a: Item, b: Item) {
    a.id == b.id
  }

  /** `hashCode`: the id itself. */
  function HashCode(it: Item): (h: int) {
    it.id
  }

  /** `equals` is an equivalence, consistent with `hashCode`, and blind to
      everything but the id: lending an item does not change which item it is. */
  lemma EqualsContract(a: Item, b: Item, c: Item, u: Option<User>)
    ensures SameItem(a, a)
    ensures SameItem(a, b) ==> SameItem(b, a)
    ensures SameItem(a, b) && SameItem(b, c) ==> SameItem(a, c)
    ensures SameItem(a, b) ==> HashCode(a) == HashCode(b)
    ensures SameItem(a, a.(borrower := u))
    ensures SameItem(a, b) <==> HashCode(a) == HashCode(b)
  {
  }
}
