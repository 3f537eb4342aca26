/** The in-memory bookmark collection of src/app.js: an insertion-ordered
    sequence of records, seeded with two entries at start-up, searched
    front to back by id, grown at the end and shrunk by excision. */
module Store {
  import opened Wrappers
  import opened Values

  type Id = string

  /** One saved link. Title and url keep whatever JSON value the client
      sent; rating and description are copied through unchecked and may be
      absent. */
  datatype Bookmark = Bookmark(
    id: Id,
    title: Value,
    url: Value,
    rating: Option<Value>,
    description: Option<Value>)

  type Store = seq<Bookmark>

  /** The two records present when the process starts, in this order. */
  const Seed: Store := [
    Bookmark("1", Str("Thinkful"), Str("https://www.thinkful.com"),
             Some(Str("5")), Some(Str("Think outside the classroom"))),
    Bookmark("2", Str("Google"), Str("https://www.google.com"),
             Some(Str("4")), Some(Str("Where we find everything else")))
  ]

  /** Some record of `s` carries `id`. */
  predicate Contains(s: Store, id: Id) {
    exists k :: 0 <= k < |s| && s[k].id == id
  }

  /** No two records of `s` share an id. */
  predicate UniqueIds(s: Store) {
    forall i, j :: 0 <= i < j < |s| ==> s[i].id != s[j].id
  }

  /** `findIndex(b => b.id == id)`: the position of the first record with
      this id, or `None` where JavaScript answers -1. */
  function FindIndex(s: Store, id: Id): (r: Option<nat>)
    ensures r.None? <==> !Contains(s, id)
    ensures r.Some? ==> r.value < |s| && s[r.value].id == id
    ensures r.Some? ==> forall k :: 0 <= k < r.value ==> s[k].id != id
  {
    if |s| == 0 then None
    else if s[0].id == id then Some(0)
    else
      match FindIndex(s[1..], id)
      case None =>
        assert forall k :: 1 <= k < |s| ==> s[k] == s[1..][k - 1];
        None
      case Some(i) =>
        assert forall k :: 1 <= k <= i ==> s[k] == s[1..][k - 1];
        Some(i + 1)
  }

  /** `find(b => b.id == id)`: the first record with this id, or `None`
      where JavaScript answers `undefined`. */
  function Find(s: Store, id: Id): (r: Option<Bookmark>)
    ensures r.None? <==> !Contains(s, id)
    ensures r.Some? ==> r.value.id == id && r.value in s
  {
    if |s| == 0 then None
    else if s[0].id == id then Some(s[0])
    else
      var r := Find(s[1..], id);
      assert forall k :: 1 <= k < |s| ==> s[k] == s[1..][k - 1];
      r
  }

  /** `find` and `findIndex` agree: the record found is the one at the
      first matching position. */
  lemma {:induction false} FindIsAtFindIndex(s: Store, id: Id)
    ensures Find(s, id) == (match FindIndex(s, id)
                            case None => None
                            case Some(i) => Some(s[i]))
  {
    if |s| > 0 && s[0].id != id {
      FindIsAtFindIndex(s[1..], id);
    }
  }

  /** `splice(i, 1)`: the record at `i` cut out, everything before it kept
      in place and everything after it moved down by one. */
  function Remove(s: Store, i: nat): (r: Store)
    requires i < |s|
    ensures |r| == |s| - 1
    ensures forall k :: 0 <= k < i ==> r[k] == s[k]
    ensures forall k :: i <= k < |r| ==> r[k] == s[k + 1]
  {
    s[..i] + s[i + 1..]
  }

  /** Excision removes exactly one occurrence of the record and nothing else. */
  lemma RemoveMultiset(s: Store, i: nat)
    requires i < |s|
    ensures multiset(Remove(s, i)) + multiset{s[i]} == multiset(s)
  {
    assert s == s[..i] + [s[i]] + s[i + 1..];
  }

  /** The seed satisfies id uniqueness. */
  lemma SeedUnique()
    ensures UniqueIds(Seed)
    ensures |Seed| == 2 && Seed[0].title == Str("Thinkful") && Seed[1].title == Str("Google")
  {
  }

  /** Appending a record whose id is not yet used keeps ids unique. */
  lemma AppendFreshKeepsUnique(s: Store, b: Bookmark)
    requires UniqueIds(s) && !Contains(s, b.id)
    ensures UniqueIds(s + [b])
  {
  }

  /** Excision keeps ids unique. */
  lemma RemoveKeepsUnique(s: Store, i: nat)
    requires UniqueIds(s) && i < |s|
    ensures UniqueIds(Remove(s, i))
  {
  }

  /** With unique ids, excising the record found for `id` leaves no record
      with that id. */
  lemma RemovedIdGone(s: Store, i: nat)
    requires UniqueIds(s) && i < |s|
    ensures !Contains(Remove(s, i), s[i].id)
  {
  }

  /** Excision leaves every other id where it was present. */
  lemma RemoveKeepsOtherIds(s: Store, i: nat, id: Id)
    requires i < |s| && id != s[i].id
    ensures Contains(Remove(s, i), id) <==> Contains(s, id)
  {
    var r := Remove(s, i);
    if Contains(s, id) {
      var k :| 0 <= k < |s| && s[k].id == id;
      if k < i {
        assert r[k] == s[k];
      } else {
        assert r[k - 1] == s[k];
      }
    }
  }

  /** A record appended under a fresh id is what a later search finds. */
  lemma {:induction false} FindAppended(s: Store, b: Bookmark)
    requires !Contains(s, b.id)
    ensures Find(s + [b], b.id) == Some(b)
  {
    if |s| > 0 {
      assert (s + [b])[1..] == s[1..] + [b];
      assert s[0].id != b.id;
      FindAppended(s[1..], b);
    }
  }
}
