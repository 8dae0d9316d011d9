/** The few MongoDB collection operations the handlers rely on, over a collection held as a
    sequence of documents in natural order and filtered by one equality field `{field: k}`. */
module Mongo {

  datatype Option<T> = None | Some(value: T)

  /** Some document of the collection matches the equality filter `{field: k}`. */
  predicate HasKey<T, K(==)>(docs: seq<T>, key: T -> K, k: K) {
    exists j :: 0 <= j < |docs| && key(docs[j]) == k
  }

  /** No two documents of the collection share a value of the field. */
  ghost predicate UniqueKeys<T, K>(docs: seq<T>, key: T -> K) {
    forall i, j :: 0 <= i < j < |docs| ==> key(docs[i]) != key(docs[j])
  }

  /** `findOne({field: k})`: the position of the first matching document, if any. */
  function FindOne<T, K(==)>(docs: seq<T>, key: T -> K, k: K): (r: Option<nat>)
    ensures r.None? <==> !HasKey(docs, key, k)
    ensures r.Some? ==> r.value < |docs| && key(docs[r.value]) == k
    ensures r.Some? ==> forall j :: 0 <= j < r.value ==> key(docs[j]) != k
  {
    if |docs| == 0 then None
    else if key(docs[0]) == k then Some(0)
    else
      match FindOne(docs[1..], key, k)
      case None =>
        assert forall j :: 1 <= j < |docs| ==> docs[j] == docs[1..][j - 1];
        None
      case Some(i) => Some(i + 1)
  }

  /** The collection without its document at position `i`, the others kept in order. */
  function RemoveAt<T>(docs: seq<T>, i: nat): (r: seq<T>)
    requires i < |docs|
    ensures |r| + 1 == |docs|
    ensures forall j :: 0 <= j < |r| ==> r[j] == (if j < i then docs[j] else docs[j + 1])
    ensures multiset(r) + multiset{docs[i]} == multiset(docs)
  {
    assert docs == docs[..i] + [docs[i]] + docs[i + 1..];
    docs[..i] + docs[i + 1..]
  }

  /** `deleteOne({field: k})`: the collection after the first matching document is removed,
      paired with `deletedCount`. */
  function DeleteOne<T, K(==)>(docs: seq<T>, key: T -> K, k: K): (r: (seq<T>, nat))
    ensures r.1 == 0 <==> !HasKey(docs, key, k)
    ensures r.1 == 0 ==> r.0 == docs
    ensures r.1 != 0 ==> r.1 == 1 && |r.0| + 1 == |docs|
    ensures r.1 != 0 ==> multiset(r.0) + multiset{docs[FindOne(docs, key, k).value]} == multiset(docs)
    ensures r.1 != 0 ==> forall j :: 0 <= j < |r.0| ==>
      r.0[j] == (if j < FindOne(docs, key, k).value then docs[j] else docs[j + 1])
  {
    match FindOne(docs, key, k)
    case None => (docs, 0)
    case Some(i) => (RemoveAt(docs, i), 1)
  }

  /** `updateOne({field: k}, {$setOnInsert: …}, {upsert: true})`: an existing match is left
      untouched (the update has no `$set`); otherwise `inserted` is added. */
  function UpsertOnInsert<T, K(==)>(docs: seq<T>, key: T -> K, k: K, inserted: T): (r: seq<T>)
    ensures HasKey(docs, key, k) ==> r == docs
    ensures |docs| <= |r| <= |docs| + 1 && r[..|docs|] == docs
    ensures |r| == |docs| + 1 <==> !HasKey(docs, key, k)
    ensures |r| == |docs| + 1 ==> r[|docs|] == inserted
    ensures key(inserted) == k ==> HasKey(r, key, k)
  {
    if HasKey(docs, key, k) then
      docs
    else
      var r := docs + [inserted];
      assert r[..|docs|] == docs && r[|docs|] == inserted;
      r
  }

  /** Repeating a `$setOnInsert` upsert changes nothing. */
  lemma UpsertIdempotent<T, K>(docs: seq<T>, key: T -> K, k: K, x: T, y: T)
    requires key(x) == k
    ensures UpsertOnInsert(UpsertOnInsert(docs, key, k, x), key, k, y) == UpsertOnInsert(docs, key, k, x)
  {
  }

  /** A document appended under a key no other document holds is what `findOne` returns. */
  lemma AppendFreshFound<T, K>(docs: seq<T>, key: T -> K, x: T)
    requires !HasKey(docs, key, key(x))
    ensures FindOne(docs + [x], key, key(x)) == Some(|docs|)
  {
    var r := docs + [x];
    assert key(r[|docs|]) == key(x);
  }

  /** The `$setOnInsert` upsert keeps the keys of a collection distinct. */
  lemma UpsertPreservesUnique<T, K>(docs: seq<T>, key: T -> K, k: K, inserted: T)
    requires UniqueKeys(docs, key)
    requires key(inserted) == k
    ensures UniqueKeys(UpsertOnInsert(docs, key, k, inserted), key)
  {
  }

  /** In a collection with distinct keys, `findOne` finds the one document holding the key. */
  lemma FindOneInUnique<T, K>(docs: seq<T>, key: T -> K, j: nat)
    requires UniqueKeys(docs, key)
    requires j < |docs|
    ensures FindOne(docs, key, key(docs[j])) == Some(j)
  {
  }

  /** Deleting from a collection with distinct keys keeps them distinct and leaves no
      document with the deleted key. */
  lemma DeletePreservesUnique<T, K>(docs: seq<T>, key: T -> K, k: K)
    requires UniqueKeys(docs, key)
    ensures UniqueKeys(DeleteOne(docs, key, k).0, key)
    ensures !HasKey(DeleteOne(docs, key, k).0, key, k)
  {
  }
}
