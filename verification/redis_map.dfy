/**
  The Redis-backed `MutableMap<String, Int>`. Every operation of the class works
  on one Redis hash (named "redisMap" in the Kotlin code); here that hash is the
  field `store`, a map from field names to the strings Redis holds for them. A
  hash Redis does not have reads as an empty one.
 */
module Adapter {
  import opened Wrappers
  import opened DecimalCodec
  import RedisHash

  /** The hash the adapter writes for a map: each value as `value.toString()`. */
  function Encoded(m: map<string, Int32>): (h: map<string, string>)
    ensures h.Keys == m.Keys
  {
    map k | k in m :: Format(m[k])
  }

  /** Writing one field of the hash is writing one entry of the map. */
  lemma EncodedUpdate(m: map<string, Int32>, key: string, value: Int32)
    ensures Encoded(m[key := value]) == Encoded(m)[key := Format(value)]
  {
  }

  /** Deleting one field of the hash is deleting one entry of the map. */
  lemma EncodedRemove(m: map<string, Int32>, key: string)
    ensures Encoded(m - {key}) == Encoded(m) - {key}
  {
  }

  /** Overriding the hash with the encoding of `from` is encoding the overridden map. */
  lemma EncodedOverride(m: map<string, Int32>, from: map<string, Int32>)
    ensures Encoded(m + from) == Encoded(m) + Encoded(from)
  {
  }

  /**
    Progress of `putAll`: `done` holds exactly the entries of `from` whose
    keys are no longer in `rest`.
   */
  ghost predicate Written(from: map<string, Int32>, done: map<string, Int32>, rest: set<string>) {
    && rest <= from.Keys && rest !! done.Keys
    && (forall k :: k in from ==> k in rest || k in done)
    && (forall k :: k in done ==> k in from && done[k] == from[k])
  }

  /** Writing one more entry of `from` moves its key from `rest` to `done`, and is an override with the larger `done`. */
  lemma WrittenStep(start: map<string, Int32>, from: map<string, Int32>, done: map<string, Int32>, rest: set<string>, k: string)
    requires Written(from, done, rest) && k in rest
    ensures Written(from, done[k := from[k]], rest - {k})
    ensures (start + done)[k := from[k]] == start + done[k := from[k]]
  {
  }

  /** Once nothing is left to write, everything in `from` has been written. */
  lemma WrittenAll(from: map<string, Int32>, done: map<string, Int32>)
    requires Written(from, done, {})
    ensures done == from
  {
  }

  /** A set holding exactly the (key, value) pairs of `m` has one element per key. */
  lemma {:induction false} PairsCardinality(es: set<(string, Int32)>, m: map<string, Int32>)
    requires forall e :: e in es <==> e.0 in m && m[e.0] == e.1
    ensures |es| == |m|
    decreases |m|
  {
    if m == map[] {
      assert es == {};
    } else {
      var k :| k in m;
      var rest := m - {k};
      assert rest.Keys == m.Keys - {k};
      PairsCardinality(es - {(k, m[k])}, rest);
    }
  }

  class RedisMap {
    /** The fields of the Redis hash and their string values. */
    var store: map<string, string>

    /** The `Map<String, Int>` the hash stands for. */
    ghost var contents: map<string, Int32>

    /** Every stored value is the text `put` writes for the `Int` the map holds under that key. */
    ghost predicate Valid()
      reads this
    {
      store == Encoded(contents)
    }

    /** Attaches to a hash that this adapter filled with `initial`. */
    constructor (initial: map<string, Int32>)
      ensures Valid() && contents == initial
    {
      store := Encoded(initial);
      contents := initial;
    }

    /** Every stored field value is the encoding of some `Int`. */
    lemma StoredValuesAreEncodings()
      requires Valid()
      ensures forall k :: k in store ==> IsEncoding(store[k])
    {
      forall k | k in store
        ensures IsEncoding(store[k])
      {
        FormatIsEncoding(contents[k]);
      }
    }

    /** Decoding the string stored under any field gives the `Int` the map holds there. */
    lemma StoredValuesDecode()
      requires Valid()
      ensures forall k :: k in store ==> Parse(store[k]) == Some(contents[k])
    {
      forall k | k in store
        ensures Parse(store[k]) == Some(contents[k])
      {
        ParseFormat(contents[k]);
      }
    }

    /** `size`: HLEN. */
    function Size(): (n: nat)
      reads this
      ensures Valid() ==> n == |contents|
    {
      |store|
    }

    /** `isEmpty()`, defined through `size`. */
    function IsEmpty(): (b: bool)
      reads this
      ensures b <==> Keys() == {}
      ensures Valid() ==> (b <==> contents == map[])
    {
      Size() == 0
    }

    /** `keys`: HKEYS. */
    function Keys(): (ks: set<string>)
      reads this
      ensures |ks| == Size()
      ensures Valid() ==> ks == contents.Keys
    {
      store.Keys
    }

    /** `containsKey(key)`: HEXISTS. */
    function ContainsKey(key: string): (b: bool)
      reads this
      ensures b <==> key in Keys()
      ensures Valid() ==> (b <==> key in contents)
    {
      key in store
    }

    /** `get(key)`: HGET, then `toInt()` on the string if there is one. */
    function Get(key: string): (r: Option<Int32>)
      reads this
      requires Valid()
      ensures r.None? <==> key !in contents
      ensures r.Some? ==> r.value == contents[key]
    {
      if key in store then
        ParseFormat(contents[key]);
        Some(Parse(store[key]).value)
      else
        None
    }

    /** `containsValue(value)`: HVALS, then a search for `value.toString()` among the strings. */
    function ContainsValue(value: Int32): (b: bool)
      reads this
      ensures Valid() ==> (b <==> value in contents.Values)
    {
      ValueEncodedIffPresent(value);
      Format(value) in store.Values
    }

    /** An `Int` is among the map's values exactly when its encoding is among the stored strings. */
    lemma ValueEncodedIffPresent(value: Int32)
      ensures Valid() ==> (Format(value) in store.Values <==> value in contents.Values)
    {
      if Valid() {
        if Format(value) in store.Values {
          var k :| k in store && store[k] == Format(value);
          FormatInjective(contents[k], value);
        }
        if value in contents.Values {
          var k :| k in contents && contents[k] == value;
          assert store[k] == Format(value);
        }
      }
    }

    /**
      `values`: HVALS, then `toInt()` on each string. Redis chooses the order
      of the strings; `fields` records which field each one came from.
     */
    method Values() returns (vs: seq<Int32>, ghost fields: seq<string>)
      requires Valid()
      ensures |vs| == |fields| == Size()
      ensures forall k :: k in fields <==> k in Keys()
      ensures forall i, j :: 0 <= i < j < |fields| ==> fields[i] != fields[j]
      ensures forall i :: 0 <= i < |vs| ==> fields[i] in contents && vs[i] == contents[fields[i]]
      ensures forall v :: v in vs <==> v in contents.Values
    {
      var strings;
      strings, fields := RedisHash.HVals(store);
      vs := [];
      while |vs| < |strings|
        invariant |vs| <= |strings|
        invariant forall i :: 0 <= i < |vs| ==> vs[i] == contents[fields[i]]
      {
        var v := DecodeStored(strings[|vs|], contents[fields[|vs|]]);
        vs := vs + [v];
      }
      ValuesAreContents(vs, fields);
    }

    /** The decoded values of an enumeration of all fields are exactly the values the map holds. */
    lemma ValuesAreContents(vs: seq<Int32>, fields: seq<string>)
      requires Valid()
      requires |vs| == |fields|
      requires forall k :: k in fields <==> k in store
      requires forall i :: 0 <= i < |vs| ==> fields[i] in contents && vs[i] == contents[fields[i]]
      ensures forall v :: v in vs <==> v in contents.Values
    {
    }

    /** `entries`: HGETALL, then one (key, `toInt()` of the value) pair per field, collected into a set. */
    method Entries() returns (es: set<(string, Int32)>)
      requires Valid()
      ensures |es| == Size()
      ensures forall e :: e in es <==> e.0 in contents && contents[e.0] == e.1
    {
      var all := store;
      es := {};
      var rest := all.Keys;
      ghost var done: set<string> := {};
      while rest != {}
        invariant rest !! done && rest + done == contents.Keys
        invariant forall e :: e in es <==> e.0 in done && contents[e.0] == e.1
        decreases |rest|
      {
        var k :| k in rest;
        var v := DecodeStored(all[k], contents[k]);
        es := es + {(k, v)};
        rest, done := rest - {k}, done + {k};
      }
      PairsCardinality(es, contents);
    }

    /** `clear()`: DEL of the whole hash. */
    method Clear()
      modifies this
      ensures Valid() && store == map[] && contents == map[]
      ensures Size() == 0 && IsEmpty()
    {
      store := map[];
      contents := map[];
    }

    /**
      `put(key, value)`: HSET of `value.toString()`. It returns the value it
      wrote, not the one it replaced.
     */
    method Put(key: string, value: Int32) returns (r: Option<Int32>)
      requires Valid()
      modifies this
      ensures Valid() && store == old(store)[key := Format(value)]
      ensures contents == old(contents)[key := value]
      ensures r == Some(value)
    {
      EncodedUpdate(contents, key, value);
      store := store[key := Format(value)];
      contents := contents[key := value];
      r := Some(value);
    }

    /** `putAll(from)`: `put` for each pair of `from`, one HSET each. */
    method PutAll(from: map<string, Int32>)
      requires Valid()
      modifies this
      ensures Valid() && contents == old(contents) + from
      ensures store == old(store) + Encoded(from)
    {
      ghost var start := contents;
      ghost var done: map<string, Int32> := map[];
      var rest := from.Keys;
      while rest != {}
        invariant Valid() && contents == start + done && Written(from, done, rest)
        decreases |rest|
      {
        var k :| k in rest;
        var _ := Put(k, from[k]);
        WrittenStep(start, from, done, rest, k);
        done := done[k := from[k]];
        rest := rest - {k};
      }
      WrittenAll(from, done);
      EncodedOverride(start, from);
    }

    /** `remove(key)`: `get(key)`, then HDEL of the field, returning what `get` found. */
    method Remove(key: string) returns (r: Option<Int32>)
      requires Valid()
      modifies this
      ensures Valid() && store == old(store) - {key}
      ensures contents == old(contents) - {key}
      ensures r == old(Get(key))
      ensures r.None? <==> old(key !in store)
      ensures old(key !in store) ==> store == old(store)
    {
      var value := Get(key);
      EncodedRemove(contents, key);
      store := store - {key};
      contents := contents - {key};
      r := value;
    }
  }

  /** Removing the same key twice: the second call finds nothing and changes nothing. */
  method RemoveTwice(m: RedisMap, key: string) returns (first: Option<Int32>, second: Option<Int32>)
    requires m.Valid()
    modifies m
    ensures m.Valid() && first == old(m.Get(key)) && second == None
    ensures m.contents == old(m.contents) - {key}
  {
    first := m.Remove(key);
    ghost var between := m.store;
    second := m.Remove(key);
    assert m.store == between;
  }

  /** After `put(key, value)`, `get(key)` gives `value` back and `containsKey(key)` holds. */
  method PutThenGet(m: RedisMap, key: string, value: Int32) returns (written: Option<Int32>, read: Option<Int32>)
    requires m.Valid()
    modifies m
    ensures m.Valid() && written == Some(value) && read == Some(value) && m.ContainsKey(key)
  {
    written := m.Put(key, value);
    read := m.Get(key);
  }

  /** After `putAll(from)`, every key of `from` reads back its value; other keys read as before. */
  method PutAllThenGet(m: RedisMap, from: map<string, Int32>)
    requires m.Valid()
    modifies m
    ensures m.Valid()
    ensures forall k :: k in from ==> m.Get(k) == Some(from[k])
    ensures forall k :: k !in from ==> m.Get(k) == old(m.Get(k))
  {
    m.PutAll(from);
  }
}
