# Lending system core, in Dafny

A model of the lending core of a small item-lending tracker (Java,
package `se.yrgo.mocking`). Items move between two states, available and
borrowed by one user. The `LendingService` drives those moves over two keyed
stores: items by integer id and users by user id. Each borrow or return sends
one notification, and reminders can be sent for items out on loan.

Everything is modelled functionally:

- `Items.Item` and `Users.User` are immutable datatypes. `setBorrower` returns
  either the updated item or the `IllegalStateException` as a `Failure`.
- The in-memory repositories are maps. Each is a subset type whose every entry
  is filed under its own entity's id (`ItemStore.ItemMap`, `UserStore.UserMap`),
  because `save` is the only way in and it keys by that id.
- A `HashMap`'s iteration order is an explicit parameter `order`, constrained by
  `Sequences.IsEnumeration`: every key once and nothing else. `Sequences.KeyOrder`
  shows that such an order exists for any key set.
- The service state `Lending.State` holds the two stores and a log of the
  notifications sent. Each operation returns the next state together with the
  Java return value: a `Result` where Java throws `IllegalArgumentException`, a
  `bool` where it reports failure. A call that fails returns the state
  unchanged.
- `java.lang.String`'s `trim`, `toLowerCase` and `contains` are modelled in
  `JavaText`: trim treats characters at or below the space as blank, `contains`
  is `indexOf >= 0`, and lower-casing covers ASCII letters only.

Behaviour of the code worth knowing:

- Item names and model names may be empty. The constructor only rejects null.
- A second `borrowItem` by the current borrower reports `false`. The
  availability check runs before `setBorrower`, so the same-user branch of the
  guard is never reached from the service.
- A reminder carries the borrower's email and the item name only, the two
  parameters of `NotificationService.sendReminder`.
- `registerUser` checks the user id before the email. When both are taken, the
  error reports the user id.

## Model

| member | source | states |
|---|---|---|
| `Items.NewItem` | src/main/java/se/yrgo/mocking/model/Item.java:15-23 | a new item carries the given id, name and model name, and is available |
| `Items.AvailableIffLendableToAll` | src/main/java/se/yrgo/mocking/model/Item.java:37-39 | `isAvailable()` holds exactly when `setBorrower` accepts every user, that is, when there is no borrower |
| `Items.SetBorrower` | src/main/java/se/yrgo/mocking/model/Item.java:45-51 | fails exactly when a user is offered while the item is lent to a user with another user id; on success the borrower is the one offered and the final fields are kept |
| `Items.ReleaseAlwaysSucceeds` | src/main/java/se/yrgo/mocking/model/Item.java:45-51 | `setBorrower(null)` never throws and leaves the item available |
| `Items.LendAvailable` | src/main/java/se/yrgo/mocking/model/Item.java:45-51 | an available item accepts any borrower |
| `Items.LendToOtherFails` | src/main/java/se/yrgo/mocking/model/Item.java:46-48 | lending a borrowed item to another user id throws, and the borrower stays the same |
| `Items.LendToSameUserAllowed` | src/main/java/se/yrgo/mocking/model/Item.java:46-50 | lending again to a user with the same user id is accepted |
| `Items.FinalFieldsStable` | src/main/java/se/yrgo/mocking/model/Item.java:10-13 | no series of `setBorrower` calls changes id, name or model name |
| `Items.NoHandOverWithoutRelease` | src/main/java/se/yrgo/mocking/model/Item.java:45-51 | without a release in between, a borrowed item never passes to a user with another user id |
| `Items.EqualsContract` | src/main/java/se/yrgo/mocking/model/Item.java:59-70 | `equals` is an equivalence that compares ids only, ignores the borrower, and agrees with `hashCode` |
| `JavaText.TrimStart` | src/main/java/se/yrgo/mocking/service/LendingService.java:152 | drops exactly the leading characters at or below the space, leaving a suffix |
| `JavaText.TrimEnd` | src/main/java/se/yrgo/mocking/service/LendingService.java:152 | drops exactly the trailing characters at or below the space, leaving a prefix |
| `JavaText.Trim` | src/main/java/se/yrgo/mocking/service/LendingService.java:152 | the result is an infix of the input, everything before and after it is at or below the space, and it neither starts nor ends with such a character |
| `JavaText.BlankIffAllTrimmable` | src/main/java/se/yrgo/mocking/service/LendingService.java:152 | `trim().isEmpty()` holds exactly when every character is at or below the space |
| `JavaText.LowerDistributes` | src/main/java/se/yrgo/mocking/App.java:186 | lower-casing works character by character: it distributes over concatenation |
| `JavaText.LowerIdempotent` | src/main/java/se/yrgo/mocking/App.java:186 | lower-casing twice equals lower-casing once and leaves no capital letter |
| `JavaText.IndexOf` | src/main/java/se/yrgo/mocking/App.java:186 | for a start index within the text, returns the first occurrence at or after it, or -1 when there is none |
| `JavaText.ContainsIffInfix` | src/main/java/se/yrgo/mocking/App.java:186 | `contains` holds exactly when the pattern is an infix of the text |
| `JavaText.ContainsEmpty` | src/main/java/se/yrgo/mocking/App.java:186 | every string contains the empty string |
| `Sequences.Filter` | src/main/java/se/yrgo/mocking/service/LendingService.java:165-167 | a stream filter keeps exactly the elements that pass the test |
| `Sequences.FilterKeepsEveryOccurrence` | src/main/java/se/yrgo/mocking/service/LendingService.java:165-167 | a stream filter keeps every occurrence of a passing element and drops every occurrence of a failing one |
| `Sequences.FilterIsSubsequence` | src/main/java/se/yrgo/mocking/service/LendingService.java:165-167 | a stream filter keeps the elements in their relative order |
| `Sequences.KeyOrder` | src/main/java/se/yrgo/mocking/App.java:160 | every finite key set has an iteration order that lists each key once |
| `Sequences.EnumerationLength` | src/main/java/se/yrgo/mocking/App.java:174-176 | an iteration order is as long as the key set |
| `ItemStore.Save` | src/main/java/se/yrgo/mocking/App.java:163-166 | upsert keyed by the item's id: afterwards `findById` of that id gives the item, and every other id is unchanged |
| `ItemStore.FindById` | src/main/java/se/yrgo/mocking/App.java:169-171 | empty exactly when the id is absent; otherwise a stored item that carries that id |
| `ItemStore.DeleteById` | src/main/java/se/yrgo/mocking/App.java:179-181 | reports whether the id was present; afterwards it is absent and every other id is unchanged |
| `ItemStore.FindAll` | src/main/java/se/yrgo/mocking/App.java:174-176 | lists exactly the stored items, each once, one per stored id |
| `ItemStore.FindByName` | src/main/java/se/yrgo/mocking/App.java:184-188 | exactly the stored items whose lower-cased model name contains the lower-cased query, in iteration order |
| `ItemStore.SaveDeleteRoundTrip` | src/main/java/se/yrgo/mocking/App.java:163-181 | deleting an item that was just saved under a new id restores the store and reports true |
| `ItemStore.SaveFoundIsIdentity` | src/main/java/se/yrgo/mocking/App.java:163-171 | saving back what `findById` returned leaves the store unchanged |
| `ItemStore.EmptyQueryMatchesAll` | src/main/java/se/yrgo/mocking/App.java:184-188 | the empty query matches every stored item |
| `ItemStore.ModelNameMatchIgnoresNameAndCase` | src/main/java/se/yrgo/mocking/App.java:184-188 | for every item and query, the match ignores the item's name and borrower and the case of the query |
| `ItemStore.MatchesModelNameNotName` | src/main/java/se/yrgo/mocking/App.java:184-188 | on the drill example: the model name is matched case-insensitively, the name is not matched, and a leading space in the query is kept |
| `UserStore.Save` | src/main/java/se/yrgo/mocking/App.java:195-198 | upsert keyed by user id: afterwards `findById` of that user id gives the user, and every other user id is unchanged |
| `UserStore.FindById` | src/main/java/se/yrgo/mocking/App.java:201-203 | empty exactly when the user id is absent; otherwise a stored user with that user id |
| `UserStore.FindAll` | src/main/java/se/yrgo/mocking/App.java:206-208 | lists exactly the stored users, each once |
| `UserStore.FirstWithEmail` | src/main/java/se/yrgo/mocking/App.java:211-215 | the first position whose email equals the query exactly, or -1 when no entry has that email |
| `UserStore.FindByEmail` | src/main/java/se/yrgo/mocking/App.java:211-215 | empty exactly when no stored user has that email; otherwise the first stored user, in iteration order, whose email equals the query exactly |
| `UserStore.FindByEmailOrderIndependent` | src/main/java/se/yrgo/mocking/App.java:211-215 | when emails are unique, the user found does not depend on the iteration order |
| `Notifications.BorrowedNoticeIdentifiesLoan` | src/main/java/se/yrgo/mocking/service/LendingService.java:105-108 | the borrow notice goes to the given email under "Item Borrowed", differs from every return notice, and determines the email and item name |
| `Notifications.ReturnedNoticeIdentifiesReturn` | src/main/java/se/yrgo/mocking/service/LendingService.java:137-140 | the return notice goes to the given email under "Item Returned" and determines the email and item name |
| `Lending.AddItem` | src/main/java/se/yrgo/mocking/service/LendingService.java:48-56 | fails with a duplicate-id error exactly when the id is stored, changing nothing; otherwise stores the item under its id, returns it, and changes nothing else |
| `Lending.RegisterUser` | src/main/java/se/yrgo/mocking/service/LendingService.java:65-77 | fails, changing nothing, exactly when the user id is stored or any stored user has the email, reporting the id first; otherwise stores the user and changes nothing else |
| `Lending.BorrowItem` | src/main/java/se/yrgo/mocking/service/LendingService.java:86-111 | true exactly when user and item exist and the item is available; then the item is lent to that user, all other items and users stay, and one "Item Borrowed" notice goes to the user; false changes nothing; the other-borrower guard of `setBorrower` cannot fire on this path |
| `Lending.ReturnItem` | src/main/java/se/yrgo/mocking/service/LendingService.java:119-143 | true exactly when the item exists and is lent; then it becomes available, nothing else changes, and one "Item Returned" notice goes to the former borrower; false changes nothing |
| `Lending.SearchItemsByName` | src/main/java/se/yrgo/mocking/service/LendingService.java:151-157 | refuses a null query or one made only of characters at or below the space; otherwise gives the store's `findByName` result for the untrimmed query |
| `Lending.GetAvailableItems` | src/main/java/se/yrgo/mocking/service/LendingService.java:164-168 | exactly the stored items without a borrower, in the order `findAll` lists them |
| `Lending.SendReminders` | src/main/java/se/yrgo/mocking/service/LendingService.java:175-187 | leaves both stores unchanged and appends the reminders for the ids, in list order |
| `Lending.RemindersForSnoc` | src/main/java/se/yrgo/mocking/service/LendingService.java:176-186 | the reminders for a list extended by one id are the old reminders followed by that id's reminder |
| `LendingProperties.RemindersOnePerLoanedId` | src/main/java/se/yrgo/mocking/service/LendingService.java:175-187 | one reminder per listed id whose item is stored and lent, in list order, to that item's borrower; other ids send nothing |
| `LendingProperties.ReminderSkipsUnknownId` | src/main/java/se/yrgo/mocking/service/LendingService.java:176-178 | for a borrowed id and an unknown one, exactly one reminder is sent |
| `LendingProperties.BorrowReturnRoundTrip` | src/main/java/se/yrgo/mocking/service/LendingService.java:86-143 | borrow then return restores the item store exactly and sends two notices to the borrower; a second return reports false |
| `LendingProperties.BorrowWhileLentFails` | src/main/java/se/yrgo/mocking/service/LendingService.java:97-99 | a lent item cannot be borrowed again, even by its borrower, and nothing changes |
| `LendingProperties.BorrowAndReturnMoveAvailability` | src/main/java/se/yrgo/mocking/service/LendingService.java:86-168 | borrowing removes the item from the available list and returning puts it back |
| `LendingProperties.AddItemTwiceFails` | src/main/java/se/yrgo/mocking/service/LendingService.java:48-56 | a second `addItem` with the same id fails whatever its other fields |
| `LendingProperties.RegisterSameEmailFails` | src/main/java/se/yrgo/mocking/service/LendingService.java:65-77 | a second registration with the same email fails; with a new user id the error names the email |
| `LendingProperties.SearchPassesQueryUntrimmed` | src/main/java/se/yrgo/mocking/service/LendingService.java:151-157 | a query with a leading space is accepted but matches nothing; a case-varied infix of the model name matches |
| `LendingProperties.SearchRefusesBlank` | src/main/java/se/yrgo/mocking/service/LendingService.java:152-154 | an all-space, empty or null query is refused whatever is stored |
| `LendingProperties.DrillScenario` | src/main/java/se/yrgo/mocking/service/LendingService.java:48-143 | add, register, borrow, borrow again, return, return again give true, false, true, false; an unknown user cannot borrow |
| `LendingProperties.StepPreserves` | src/main/java/se/yrgo/mocking/service/LendingService.java:48-187 | no single service call removes an item or user, rewrites an item's final fields or a stored user, or shortens the log |
| `LendingProperties.RunPreserves` | src/main/java/se/yrgo/mocking/service/LendingService.java:48-187 | the same holds for every series of calls |
| `LendingProperties.RunKeepsEmailsUnique` | src/main/java/se/yrgo/mocking/service/LendingService.java:65-77 | every series of calls keeps stored emails unique if they were unique at the start |
| `LendingProperties.InitialEmailsUnique` | src/main/java/se/yrgo/mocking/App.java:26-28 | emails are unique in the empty stores the application starts with |

## Left out

- The console application (`App.run`, the menu, the `Scanner` input handlers) is interactive I/O.
- `ConsoleNotificationService` only prints and answers true. `NotificationServiceImpl` is an HTTP client. Neither is modelled: each notification is one `Notifications.Notice` appended to the state's log. The boolean the notifier answers with is ignored by the service, so it is not modelled either.
- `NotificationServiceImpl`'s three-parameter `sendReminder` does not match the two-parameter interface. The model follows the interface.
- The repository and notification interfaces have no behaviour of their own. Their meaning is the in-memory implementations in `App.java`.
- `User.java` is not part of this model. `Users.User` carries only the user id, name and email the core reads.
- Null checks (`Objects.requireNonNull`) are excluded by the types. The one null the service tests on purpose, a null search query, is modelled as `None`.
- `Item.toString` is display formatting only.
- Java `equals(Object)` with `null` or with an object of another class is not modelled. `Items.SameItem` compares items only with items.
- Java reference aliasing is not modelled. In Java the item `findById` returns is the object the store holds, so `setBorrower` mutates the stored entry before `save`. In the model, `save` is what commits the change. The two agree because every entry is filed under its own id.
- The iteration order of a `HashMap` is not computed. It is an input to `findAll`, `findByName`, `getAvailableItems` and `findByEmail`.
- `ItemStore.Save` and `UserStore.Save`: Java's `save` also returns its argument. The model returns only the new store.
- `JavaText.Lower`: does not model locale-dependent or non-ASCII lower-casing, because the locale is outside the program. Only `A`-`Z` are mapped.
- `JavaText.IndexOf`: does not model a start index past the end of the text, which Java clamps to the length. `contains` only searches from 0.
- `Items.Item`: the `int` id is an unbounded integer. The core does no arithmetic on ids, so Java's 32-bit width does not change any result.
- The user-facing message text of each exception is not modelled. Each exception is a constructor of `Lending.LendingError` or `Items.ItemError`.
