/** The in-memory user repository: a hash map from user id to user. */
module UserStore {
  import opened Results
  import opened Users
  import opened Sequences

  /** Every entry is filed under its own user's id, because `save` is the
      only way in and it keys by `getUserId()`. */
  type UserMap = m: map<string, User> | forall k :: k in m ==> m[k].userId == k
    witness map[]

  /** `save(user)`: an upsert keyed by the user id. */
  function Save(m: UserMap, u: User): (r: UserMap)
    ensures FindById(r, u.userId) == Some(u)
    ensures SameExcept(r, m, u.userId)
  {
    m[u.userId := u]
  }

  /** `findById(userId)`. */
  function FindById(m: UserMap, userId: string): (r: Option<User>)
    ensures r.None? <==> userId !in m
    ensures r.Some? ==> r.value.userId == userId && r.value in m.Values
  {
    if userId in m then Some(m[userId]) else None
  }

  /** The two stores agree on every user id but `userId`. */
  ghost predicate SameExcept(a: UserMap, b: UserMap, userId: string) {
    forall k :: k != userId ==> FindById(a, k) == FindById(b, k)
  }

  /** `findAll()`, listing the values in the iteration order `order`. */
  function FindAll(m: UserMap, order: seq<string>): (r: seq<User>)
    requires IsEnumeration(order, m.Keys)
    ensures |r| == |m|
    ensures forall u :: u in r <==> u in m.Values
    ensures forall i, j :: 0 <= i < j < |r| ==> r[i].userId != r[j].userId
  {
    EnumerationLength(order, m.Keys);
    var r := seq(|order|, i requires 0 <= i < |order| => m[order[i]]);
    assert forall u :: u in m.Values ==> u in r by {
      forall u | u in m.Values ensures u in r {
        var k :| k in m && m[k] == u;
        var i :| 0 <= i < |order| && order[i] == k;
        assert r[i] == u;
      }
    }
    r
  }

  /** Some stored user has exactly this email. */
  predicate EmailTaken(m: UserMap, email: string) {
    exists k | k in m :: m[k].email == email
  }

  /** The position of the first user in `us` whose email equals `email`,
      compared exactly, or -1 when there is none. */
  function FirstWithEmail(us: seq<User>, email: string): (i: int)
    ensures -1 <= i < |us|
    ensures i == -1 <==> forall j :: 0 <= j < |us| ==> us[j].email != email
    ensures i >= 0 ==> us[i].email == email && forall j :: 0 <= j < i ==> us[j].email != email
  {
    if us == [] then -1
    else if us[0].email == email then 0
    else
      var i := FirstWithEmail(us[1..], email);
      if i == -1 then -1 else i + 1
  }

  /** `findByEmail(email)`: the first stored user, in iteration order, with
      exactly that email (case matters). Whether one is found does not depend
      on the order. */
  function FindByEmail(m: UserMap, order: seq<string>, email: string): (r: Option<User>)
    requires IsEnumeration(order, m.Keys)
    ensures r.None? <==> !EmailTaken(m, email)
    ensures r.Some? ==> r.value in m.Values && r.value.email == email
    ensures r.Some? ==>
      exists i :: 0 <= i < |FindAll(m, order)| && FindAll(m, order)[i] == r.value
        && forall j :: 0 <= j < i ==> FindAll(m, order)[j].email != email
  {
    var all := FindAll(m, order);
    var i := FirstWithEmail(all, email);
    assert EmailTaken(m, email) ==> i >= 0 by {
      if EmailTaken(m, email) {
        var k :| k in m && m[k].email == email;
        assert m[k] in all;
      }
    }
    if i == -1 then None else Some(all[i])
  }

  /** No two stored users share an email. */
  predicate EmailsUnique(m: UserMap) {
    forall a, b :: a in m && b in m && a != b ==> m[a].email != m[b].email
  }

  /** With unique emails, `findByEmail` finds the same user whatever the
      iteration order. */
  lemma FindByEmailOrderIndependent(m: UserMap, o1: seq<string>, o2: seq<string>, email: string)
    requires EmailsUnique(m)
    requires IsEnumeration(o1, m.Keys) && IsEnumeration(o2, m.Keys)
    ensures FindByEmail(m, o1, email) == FindByEmail(m, o2, email)
  {
    var r1 := FindByEmail(m, o1, email);
    var r2 := FindByEmail(m, o2, email);
    if r1.Some? {
      assert r1.value == m[r1.value.userId];
      assert r2.value == m[r2.value.userId];
    }
  }
}
