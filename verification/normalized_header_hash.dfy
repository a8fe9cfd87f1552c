/**
 * `Xingfus::NormalizedHeaderHash`: a hash whose keys are header names,
 * every one of which is passed through `convert_key` before it is stored,
 * read, queried or deleted.
 *
 * The hash is an immutable value: an operation that changes the receiver
 * in Ruby returns the changed hash here. A hash passed to `update`, `merge`
 * or the constructor is modelled by the sequence of pairs `each_pair`
 * yields, so that "the later pair wins" can be stated.
 */
module NormalizedHeaderHash {
  import opened HeaderName

  datatype Option<T> = None | Some(value: T)

  datatype Result<T, E> = Success(value: T) | Failure(error: E)

  /** Ruby's `KeyError` from `fetch`, naming the normalised key that was missing. */
  datatype KeyError = KeyNotFound(key: string)

  datatype HeaderHash<V> = HeaderHash(entries: map<string, V>)
  {
    /** Every stored key is already in canonical spelling. */
    predicate Valid()
    {
      forall k :: k in entries ==> ConvertKey(k) == k
    }
  }

  /** `NormalizedHeaderHash.new` with no argument. */
  function Empty<V>(): (r: HeaderHash<V>)
    ensures r.Valid()
    ensures |r.entries| == 0
  {
    HeaderHash(map[])
  }

  /** The keys of a sequence of pairs. */
  function KeysOf<V>(pairs: seq<(string, V)>): set<string>
  {
    set i | 0 <= i < |pairs| :: pairs[i].0
  }

  /** No later pair of `pairs` has the key of pair `i`. */
  predicate LastFor<V>(pairs: seq<(string, V)>, i: int)
    requires 0 <= i < |pairs|
  {
    forall j :: i < j < |pairs| ==> pairs[j].0 != pairs[i].0
  }

  /** The pairs with every key in canonical spelling, as `update` hands them to `[]=`. */
  function Converted<V>(pairs: seq<(string, V)>): (r: seq<(string, V)>)
    ensures |r| == |pairs|
    ensures forall i :: 0 <= i < |pairs| ==> r[i] == (ConvertKey(pairs[i].0), pairs[i].1)
  {
    seq(|pairs|, i requires 0 <= i < |pairs| => (ConvertKey(pairs[i].0), pairs[i].1))
  }

  /**
   * The plain `Hash#[]=` of the superclass applied to each pair in turn,
   * with no key conversion: the later of two pairs with one key wins.
   */
  function PutAll<V>(m: map<string, V>, pairs: seq<(string, V)>): (r: map<string, V>)
    ensures r.Keys == m.Keys + KeysOf(pairs)
    ensures forall i :: 0 <= i < |pairs| && LastFor(pairs, i) ==> pairs[i].0 in r && r[pairs[i].0] == pairs[i].1
    ensures forall k :: k in m && k !in KeysOf(pairs) ==> r[k] == m[k]
    decreases |pairs|
  {
    if |pairs| == 0 then m
    else
      var rest := pairs[1..];
      assert KeysOf(pairs) == {pairs[0].0} + KeysOf(rest) by {
        assert forall i :: 0 < i < |pairs| ==> pairs[i] == rest[i - 1];
      }
      assert forall i :: 0 < i < |pairs| && LastFor(pairs, i) ==> LastFor(rest, i - 1) by {
        assert forall i :: 0 < i < |pairs| ==> pairs[i] == rest[i - 1];
      }
      assert LastFor(pairs, 0) ==> pairs[0].0 !in KeysOf(rest) by {
        assert forall i :: 0 < i < |pairs| ==> pairs[i] == rest[i - 1];
      }
      PutAll(m[pairs[0].0 := pairs[0].1], rest)
  }

  /** A sequence of pairs with pairwise distinct keys: every pair is the last for its key. */
  lemma DistinctKeysAreLast<V>(pairs: seq<(string, V)>)
    requires forall i, j :: 0 <= i < j < |pairs| ==> pairs[i].0 != pairs[j].0
    ensures forall i :: 0 <= i < |pairs| ==> LastFor(pairs, i)
  {
  }

  /** Putting every entry of `m`, each once, into an empty map rebuilds `m`. */
  lemma PutAllOfEntries<V>(m: map<string, V>, pairs: seq<(string, V)>)
    requires forall i :: 0 <= i < |pairs| ==> pairs[i].0 in m && pairs[i].1 == m[pairs[i].0]
    requires forall k :: k in m ==> exists i :: 0 <= i < |pairs| && pairs[i].0 == k
    requires forall i :: 0 <= i < |pairs| ==> LastFor(pairs, i)
    ensures PutAll(map[], pairs) == m
  {
    var r := PutAll(map[], pairs);
    forall k | k in m
      ensures k in r && r[k] == m[k]
    {
      var i :| 0 <= i < |pairs| && pairs[i].0 == k;
    }
    assert r.Keys == m.Keys;
  }

  /* ---------------------------------------------------------------------
   * Operations
   * ------------------------------------------------------------------- */

  /** `h.key?(key)`, also reached as `include?`, `has_key?` and `member?`. */
  function HasKey<V>(h: HeaderHash<V>, key: string): (r: bool)
    ensures h.Valid() ==> (r <==> exists k :: k in h.entries && ConvertKey(k) == ConvertKey(key))
  {
    ConvertKey(key) in h.entries
  }

  /** `h[key]`; a missing key reads as `None`. */
  function Get<V>(h: HeaderHash<V>, key: string): (r: Option<V>)
    ensures r.Some? <==> HasKey(h, key)
    ensures h.Valid() ==> forall k :: k in h.entries && ConvertKey(k) == ConvertKey(key) ==> r == Some(h.entries[k])
  {
    if ConvertKey(key) in h.entries then Some(h.entries[ConvertKey(key)]) else None
  }

  /**
   * `h.fetch(key)` and `h.fetch(key, default)`: the stored value, else the
   * default, else a `KeyError` naming the normalised key.
   */
  function Fetch<V>(h: HeaderHash<V>, key: string, default: Option<V>): (r: Result<V, KeyError>)
    ensures r.Success? <==> HasKey(h, key) || default.Some?
    ensures HasKey(h, key) ==> Get(h, key) == Some(r.value)
    ensures !HasKey(h, key) && default.Some? ==> r.value == default.value
    ensures r.Failure? ==> r.error.key == ConvertKey(key)
  {
    var k := ConvertKey(key);
    if k in h.entries then Success(h.entries[k])
    else if default.Some? then Success(default.value)
    else Failure(KeyNotFound(k))
  }

  /**
   * `h[key] = value`: the value lands under the canonical key, and every
   * other entry stays as it was.
   */
  function Store<V>(h: HeaderHash<V>, key: string, value: V): (r: HeaderHash<V>)
    ensures ConvertKey(key) in r.entries && r.entries[ConvertKey(key)] == value
    ensures r.entries.Keys == h.entries.Keys + {ConvertKey(key)}
    ensures forall k :: k in h.entries && k != ConvertKey(key) ==> r.entries[k] == h.entries[k]
    ensures h.Valid() ==> r.Valid()
  {
    ConvertKeyIdempotent(key);
    HeaderHash(h.entries[ConvertKey(key) := value])
  }

  /**
   * `h.delete(key)`: removes the entry under the canonical key, if any, and
   * answers the value it held.
   */
  function Delete<V>(h: HeaderHash<V>, key: string): (r: (HeaderHash<V>, Option<V>))
    ensures r.0.entries.Keys == h.entries.Keys - {ConvertKey(key)}
    ensures forall k :: k in r.0.entries ==> r.0.entries[k] == h.entries[k]
    ensures r.1 == Get(h, key)
    ensures h.Valid() ==> r.0.Valid()
  {
    (HeaderHash(h.entries - {ConvertKey(key)}), Get(h, key))
  }

  /**
   * `h.update(other)` (and `merge!`): each pair of `other`, in the order
   * `each_pair` yields them, goes through `h[convert_key(key)] = value`.
   */
  function Update<V>(h: HeaderHash<V>, other: seq<(string, V)>): (r: HeaderHash<V>)
    ensures h.Valid() ==> r.Valid()
    decreases |other|
  {
    if |other| == 0 then h
    else Update(Store(h, ConvertKey(other[0].0), other[0].1), other[1..])
  }

  /** `NormalizedHeaderHash.new(hash)`: the pairs of `hash` stored into an empty hash. */
  function New<V>(pairs: seq<(string, V)>): (r: HeaderHash<V>)
    ensures r.Valid()
  {
    Update(Empty(), pairs)
  }

  /**
   * Ruby's `each_pair` over a hash: every entry exactly once, in an order
   * this model leaves unspecified.
   */
  method EachPair<V>(m: map<string, V>) returns (pairs: seq<(string, V)>)
    ensures forall i :: 0 <= i < |pairs| ==> pairs[i].0 in m && pairs[i].1 == m[pairs[i].0]
    ensures forall k :: k in m ==> exists i :: 0 <= i < |pairs| && pairs[i].0 == k
    ensures forall i, j :: 0 <= i < j < |pairs| ==> pairs[i].0 != pairs[j].0
  {
    pairs := [];
    var pending := m.Keys;
    while pending != {}
      invariant pending <= m.Keys
      invariant forall i :: 0 <= i < |pairs| ==> pairs[i].0 in m && pairs[i].1 == m[pairs[i].0]
      invariant forall i :: 0 <= i < |pairs| ==> pairs[i].0 !in pending
      invariant forall k :: k in m && k !in pending ==> exists i :: 0 <= i < |pairs| && pairs[i].0 == k
      invariant forall i, j :: 0 <= i < j < |pairs| ==> pairs[i].0 != pairs[j].0
      decreases pending
    {
      var k :| k in pending;
      ghost var before := pairs;
      pairs := pairs + [(k, m[k])];
      forall k' | k' in m && k' !in pending - {k}
        ensures exists i :: 0 <= i < |pairs| && pairs[i].0 == k'
      {
        if k' == k {
          assert pairs[|pairs| - 1].0 == k;
        } else {
          var i :| 0 <= i < |before| && before[i].0 == k';
          assert pairs[i] == before[i];
        }
      }
      pending := pending - {k};
    }
  }

  /**
   * `h.dup`, that is `NormalizedHeaderHash.new(h)`: the entries of `h`,
   * as `each_pair` yields them, stored into an empty hash. A valid hash is
   * copied exactly.
   */
  method Dup<V>(h: HeaderHash<V>) returns (r: HeaderHash<V>)
    ensures r.Valid()
    ensures forall k :: k in h.entries ==> ConvertKey(k) in r.entries
    ensures forall k :: k in r.entries ==> exists k' :: k' in h.entries && ConvertKey(k') == k
    ensures h.Valid() ==> r == h
  {
    var pairs := EachPair(h.entries);
    r := New(pairs);
    NewOfEntriesKeys(h.entries, pairs);
    if h.Valid() {
      NewOfOwnEntries(h, pairs);
    }
  }

  /**
   * `h.merge(other)`, that is `h.dup.update(other)`: the receiver, a value,
   * is untouched, and the result is what `update` would make of it.
   */
  method Merge<V>(h: HeaderHash<V>, other: seq<(string, V)>) returns (r: HeaderHash<V>)
    ensures r.Valid()
    ensures h.Valid() ==> r == Update(h, other)
  {
    var copy := Dup(h);
    r := Update(copy, other);
  }

  /* ---------------------------------------------------------------------
   * Properties
   * ------------------------------------------------------------------- */

  /** The invariant in words: every stored key is a canonical header name. */
  lemma ValidIffHeaderNames<V>(h: HeaderHash<V>)
    ensures h.Valid() <==> forall k :: k in h.entries ==> IsHeaderName(k)
  {
    forall k | k in h.entries
      ensures ConvertKey(k) == k <==> IsHeaderName(k)
    {
      ConvertKeyFixedPoint(k);
    }
  }

  /** Lookups do not see letter case or `_` versus `-`. */
  lemma LookupInsensitive<V>(h: HeaderHash<V>, a: string, b: string, default: Option<V>)
    requires Equivalent(a, b)
    ensures HasKey(h, a) == HasKey(h, b)
    ensures Get(h, a) == Get(h, b)
    ensures Fetch(h, a, default) == Fetch(h, b, default)
  {
    EquivalentKeysConvertEqual(a, b);
  }

  /**
   * After `h[key] = value`, every spelling of the same header reads
   * `value`, and every other header reads as before.
   */
  lemma StoreThenLookup<V>(h: HeaderHash<V>, key: string, value: V, key2: string, default: Option<V>)
    ensures ConvertKey(key2) == ConvertKey(key) ==>
              && Get(Store(h, key, value), key2) == Some(value)
              && HasKey(Store(h, key, value), key2)
              && Fetch(Store(h, key, value), key2, default) == Success(value)
    ensures ConvertKey(key2) != ConvertKey(key) ==>
              && Get(Store(h, key, value), key2) == Get(h, key2)
              && HasKey(Store(h, key, value), key2) == HasKey(h, key2)
              && Fetch(Store(h, key, value), key2, default) == Fetch(h, key2, default)
  {
  }

  /** In particular, a key stored as `content_type` is found as `CONTENT-TYPE`. */
  lemma StoreThenLookupEquivalent<V>(h: HeaderHash<V>, key: string, value: V, key2: string)
    requires Equivalent(key, key2)
    ensures Get(Store(h, key, value), key2) == Some(value)
    ensures HasKey(Store(h, key, value), key2)
  {
    EquivalentKeysConvertEqual(key, key2);
  }

  /** After `h.delete(key)` no spelling of that header is found, and every other header reads as before. */
  lemma DeleteThenLookup<V>(h: HeaderHash<V>, key: string, key2: string)
    ensures ConvertKey(key2) == ConvertKey(key) ==> Get(Delete(h, key).0, key2) == None
    ensures ConvertKey(key2) != ConvertKey(key) ==> Get(Delete(h, key).0, key2) == Get(h, key2)
  {
  }

  /** Deleting a header that was just added to a hash without it gives the hash back. */
  lemma DeleteUndoesStore<V>(h: HeaderHash<V>, key: string, value: V)
    requires !HasKey(h, key)
    ensures Delete(Store(h, key, value), key) == (h, Some(value))
  {
    assert Delete(Store(h, key, value), key).0.entries == h.entries;
  }

  /** Storing a header that is already present under the same value changes nothing. */
  lemma StoreExistingIsIdentity<V>(h: HeaderHash<V>, key: string)
    requires HasKey(h, key)
    ensures Store(h, key, Get(h, key).value) == h
  {
    assert Store(h, key, Get(h, key).value).entries == h.entries;
  }

  /** Storing twice under spellings of the same header keeps only the second value. */
  lemma StoreOverwrites<V>(h: HeaderHash<V>, a: string, b: string, x: V, y: V)
    requires ConvertKey(a) == ConvertKey(b)
    ensures Store(Store(h, a, x), b, y) == Store(h, b, y)
  {
    assert Store(Store(h, a, x), b, y).entries == Store(h, b, y).entries;
  }

  /** The headers of `New(pairs)` are exactly the canonical spellings of the keys of `pairs`. */
  lemma NewKeys<V>(pairs: seq<(string, V)>)
    ensures forall k :: k in New(pairs).entries <==> exists i :: 0 <= i < |pairs| && ConvertKey(pairs[i].0) == k
  {
    UpdateSpec(Empty(), pairs);
  }

  /** Rebuilding from an enumeration of a map's entries gives the canonical spellings of its keys. */
  lemma NewOfEntriesKeys<V>(m: map<string, V>, pairs: seq<(string, V)>)
    requires forall i :: 0 <= i < |pairs| ==> pairs[i].0 in m
    requires forall k :: k in m ==> exists i :: 0 <= i < |pairs| && pairs[i].0 == k
    ensures forall k :: k in m ==> ConvertKey(k) in New(pairs).entries
    ensures forall k :: k in New(pairs).entries ==> exists k' :: k' in m && ConvertKey(k') == k
  {
    NewKeys(pairs);
    forall k | k in m
      ensures ConvertKey(k) in New(pairs).entries
    {
      var i :| 0 <= i < |pairs| && pairs[i].0 == k;
    }
    forall k | k in New(pairs).entries
      ensures exists k' :: k' in m && ConvertKey(k') == k
    {
      var i :| 0 <= i < |pairs| && ConvertKey(pairs[i].0) == k;
      assert pairs[i].0 in m;
    }
  }

  /** Rebuilding a valid hash from an enumeration of its entries gives the same hash. */
  lemma NewOfOwnEntries<V>(h: HeaderHash<V>, pairs: seq<(string, V)>)
    requires h.Valid()
    requires forall i :: 0 <= i < |pairs| ==> pairs[i].0 in h.entries && pairs[i].1 == h.entries[pairs[i].0]
    requires forall k :: k in h.entries ==> exists i :: 0 <= i < |pairs| && pairs[i].0 == k
    requires forall i, j :: 0 <= i < j < |pairs| ==> pairs[i].0 != pairs[j].0
    ensures New(pairs) == h
  {
    DistinctKeysAreLast(pairs);
    UpdateStoresConverted(Empty(), pairs);
    assert Converted(pairs) == pairs;
    PutAllOfEntries(h.entries, pairs);
  }

  /**
   * `update` is the superclass's `[]=` applied to the converted pairs: the
   * second conversion inside the overriding `[]=` changes nothing.
   */
  lemma {:induction false} UpdateStoresConverted<V>(h: HeaderHash<V>, other: seq<(string, V)>)
    ensures Update(h, other).entries == PutAll(h.entries, Converted(other))
    decreases |other|
  {
    if |other| > 0 {
      var key := other[0].0;
      ConvertKeyIdempotent(key);
      UpdateStoresConverted(Store(h, ConvertKey(key), other[0].1), other[1..]);
      assert Converted(other)[1..] == Converted(other[1..]);
    }
  }

  /**
   * After `h.update(other)`: a header is present exactly when it was present
   * before or some pair of `other` names it; the last pair naming a header
   * gives its value; every header `other` does not name keeps its value.
   */
  lemma UpdateSpec<V>(h: HeaderHash<V>, other: seq<(string, V)>)
    ensures forall k :: k in Update(h, other).entries <==>
              k in h.entries || exists i :: 0 <= i < |other| && ConvertKey(other[i].0) == k
    ensures forall i :: 0 <= i < |other| && (forall j :: i < j < |other| ==> ConvertKey(other[j].0) != ConvertKey(other[i].0)) ==>
              Get(Update(h, other), other[i].0) == Some(other[i].1)
    ensures forall k :: k in h.entries && (forall i :: 0 <= i < |other| ==> ConvertKey(other[i].0) != k) ==>
              k in Update(h, other).entries && Update(h, other).entries[k] == h.entries[k]
  {
    UpdateStoresConverted(h, other);
    var c := Converted(other);
    assert forall i :: 0 <= i < |other| ==> c[i].0 == ConvertKey(other[i].0);
    forall k | k in Update(h, other).entries && k !in h.entries
      ensures exists i :: 0 <= i < |other| && ConvertKey(other[i].0) == k
    {
      var i :| 0 <= i < |c| && c[i].0 == k;
    }
    forall i | 0 <= i < |other| && (forall j :: i < j < |other| ==> ConvertKey(other[j].0) != ConvertKey(other[i].0))
      ensures Get(Update(h, other), other[i].0) == Some(other[i].1)
    {
      assert LastFor(c, i);
    }
    forall k | k in h.entries && (forall i :: 0 <= i < |other| ==> ConvertKey(other[i].0) != k)
      ensures k !in KeysOf(c)
    {
    }
  }

  /** `update` with a single pair is `[]=`. */
  lemma UpdateSingle<V>(h: HeaderHash<V>, key: string, value: V)
    ensures Update(h, [(key, value)]) == Store(h, key, value)
  {
    assert [(key, value)][1..] == [];
    ConvertKeyIdempotent(key);
    assert Store(h, ConvertKey(key), value).entries == Store(h, key, value).entries;
  }
}
