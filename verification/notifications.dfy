/** The notification service seen from the lending core: each call it makes
    becomes one entry appended to an outbound log. Delivery, and the
    boolean the service answers with, are not part of the core. */
module Notifications {

  datatype Notice =
    | Notification(email: string, subject: string, message: string)  // sendNotification
    | Reminder(email: string, itemTitle: string)                       // sendReminder

  /** What `borrowItem` sends the borrower. */
  function BorrowedNotice(email: string, itemName: string): (n: Notice) {
    Notification(email, "Item Borrowed", "You have successfully borrowed: " + itemName)
  }

  /** What `returnItem` sends the former borrower. */
  function ReturnedNotice(email: string, itemName: string): (n: Notice) {
    Notification(email, "Item Returned", "You have successfully returned: " + itemName)
  }

  /** A borrow notice goes to the borrower under the subject "Item Borrowed",
      is never mistaken for a return notice, and names the item: two borrow
      notices are equal only for the same email and item name. */
  lemma BorrowedNoticeIdentifiesLoan(e1: string, n1: string, e2: string, n2: string)
    ensures BorrowedNotice(e1, n1).Notification?
    ensures BorrowedNotice(e1, n1).email == e1 && BorrowedNotice(e1, n1).subject == "Item Borrowed"
    ensures BorrowedNotice(e1, n1) != ReturnedNotice(e2, n2)
    ensures BorrowedNotice(e1, n1) == BorrowedNotice(e2, n2) <==> e1 == e2 && n1 == n2
  {
    var prefix := "You have successfully borrowed: ";
    if BorrowedNotice(e1, n1) == BorrowedNotice(e2, n2) {
      assert (prefix + n1)[|prefix|..] == n1;
      assert (prefix + n2)[|prefix|..] == n2;
    }
    assert BorrowedNotice(e1, n1).subject[5] != ReturnedNotice(e2, n2).subject[5];
  }

  /** A return notice goes to the former borrower under the subject
      "Item Returned" and names the item: two return notices are equal only
      for the same email and item name. */
  lemma ReturnedNoticeIdentifiesReturn(e1: string, n1: string, e2: string, n2: string)
    ensures ReturnedNotice(e1, n1).Notification?
    ensures ReturnedNotice(e1, n1).email == e1 && ReturnedNotice(e1, n1).subject == "Item Returned"
    ensures ReturnedNotice(e1, n1) == ReturnedNotice(e2, n2) <==> e1 == e2 && n1 == n2
  {
    var prefix := "You have successfully returned: ";
    if ReturnedNotice(e1, n1) == ReturnedNotice(e2, n2) {
      assert (prefix + n1)[|prefix|..] == n1;
      assert (prefix + n2)[|prefix|..] == n2;
    }
  }
}
