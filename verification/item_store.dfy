/** The in-memory item repository: a hash map from id to item. */
module ItemStore {
  import opened Results
  import opened Items
  import opened Users
  import opened JavaText
  import opened Sequences

  /** Every entry is filed under its own item's id, because `save` is the
      only way in and it keys by `getId()`. */
  type ItemMap = m: map<int, Item> | forall k :: k in m ==> m[k].id == k
    witness map[]

  /** `save(item)`: an upsert keyed by the item's id. */
  function Save(m: ItemMap, it: Item): (r: ItemMap)
    ensures FindById(r, it.id) == Some(it)
    ensures SameExcept(r, m, it.id)
  {
    m[it.id := it]
  }

  /** `findById(id)`. */
  function FindById(m: ItemMap, id: int): (r: Option<Item>)
    ensures r.None? <==> id !in m
    ensures r.Some? ==> r.value.id == id && r.value in m.Values
  {
    if id in m then Some(m[id]) else None
  }

  /** The two stores agree on every id but `id`. */
  ghost predicate SameExcept(a: ItemMap, b: ItemMap, id: int) {
    forall k :: k != id ==> FindById(a, k) == FindById(b, k)
  }

  /** `deleteById(id)`: removes the entry and reports whether there was one. */
  function DeleteById(m: ItemMap, id: int): (r: (ItemMap, bool))
    ensures r.1 <==> FindById(m, id).Some?
    ensures FindById(r.0, id) == None
    ensures SameExcept(r.0, m, id)
  {
    (m - {id}, id in m)
  }

  /** `findAll()`, listing the values in the iteration order `order`. */
  function FindAll(m: ItemMap, order: seq<int>): (r: seq<Item>)
    requires IsEnumeration(order, m.Keys)
    ensures |r| == |m|
    ensures forall it :: it in r <==> it in m.Values
    ensures forall i, j :: 0 <= i < j < |r| ==> r[i].id != r[j].id
  {
    EnumerationLength(order, m.Keys);
    var r := seq(|order|, i requires 0 <= i < |order| => m[order[i]]);
    assert forall it :: it in m.Values ==> it in r by {
      forall it | it in m.Values ensures it in r {
        var k :| k in m && m[k] == it;
        var i :| 0 <= i < |order| && order[i] == k;
        assert r[i] == it;
      }
    }
    r
  }

  /** The search predicate of `findByName`: the lower-cased model name
      contains the lower-cased query. The item's `name` plays no part. */
  predicate ModelNameMatches(it: Item, query: string) {
    Contains(Lower(it.modelName), Lower(query))
  }

  /** `findByName(query)`: the stored items whose model name matches, in
      iteration order. */
  function FindByName(m: ItemMap, order: seq<int>, query: string): (r: seq<Item>)
    requires IsEnumeration(order, m.Keys)
    ensures |r| <= |m|
    ensures forall it :: it in r <==> it in m.Values && ModelNameMatches(it, query)
    ensures IsSubsequence(r, FindAll(m, order))
  {
    var all := FindAll(m, order);
    var r := Filter(all, it => ModelNameMatches(it, query));
    FilterIsSubsequence(all, it => ModelNameMatches(it, query));
    assert forall it :: it in r <==> it in all && ModelNameMatches(it, query) by {
      forall it ensures it in r <==> it in all && ModelNameMatches(it, query) {
        if it in all {
          var i :| 0 <= i < |all| && all[i] == it;
        }
        if it in r {
          var i :| 0 <= i < |r| && r[i] == it;
        }
      }
    }
    r
  }

  /** `save` then `findById` gives back what was saved; `delete` undoes a
      `save` of a fresh id. */
  lemma SaveDeleteRoundTrip(m: ItemMap, it: Item)
    requires FindById(m, it.id).None?
    ensures DeleteById(Save(m, it), it.id) == (m, true)
  {
    assert Save(m, it) - {it.id} == m;
  }

  /** Saving back the entry `findById` returned leaves the store as it was. */
  lemma SaveFoundIsIdentity(m: ItemMap, id: int)
    requires FindById(m, id).Some?
    ensures Save(m, FindById(m, id).value) == m
  {
  }

  /** A query that is empty after lower-casing matches every item: Java's
      `contains("")` is true. */
  lemma EmptyQueryMatchesAll(m: ItemMap, order: seq<int>)
    requires IsEnumeration(order, m.Keys)
    ensures forall it :: it in m.Values ==> it in FindByName(m, order, "")
  {
    forall it | it in m.Values ensures ModelNameMatches(it, "") {
      ContainsEmpty(Lower(it.modelName));
    }
  }

  /** For every item and query, the match ignores the item's name and its
      borrower, and the case of the query. */
  lemma ModelNameMatchIgnoresNameAndCase(it: Item, n: string, b: Option<User>, q: string)
    ensures ModelNameMatches(it.(name := n, borrower := b), q) == ModelNameMatches(it, q)
    ensures ModelNameMatches(it, Lower(q)) == ModelNameMatches(it, q)
  {
    LowerIdempotent(q);
  }

  /** The drill example: the match looks at the model name only, ignores
      case, and takes the query as it is. An item named "Drill" with model "DX100" is found by
      "dX1" but neither by "drill" nor by " dx". */
  lemma MatchesModelNameNotName()
    ensures ModelNameMatches(NewItem(1, "Drill", "DX100"), "dX1")
    ensures !ModelNameMatches(NewItem(1, "Drill", "DX100"), "drill")
    ensures !ModelNameMatches(NewItem(1, "Drill", "DX100"), " dx")
  {
    var lower := Lower("DX100");
    assert lower == "dx100";
    assert Lower("dX1") == "dx1";
    assert OccursAt(lower, "dx1", 0);
    assert Lower(" dx") == " dx";
    assert IndexOf(lower, " dx", 0) == -1;
    assert Lower("drill") == "drill";
    assert lower[0..5] != "drill" by { assert lower[1] != "drill"[1]; }
  }
}
