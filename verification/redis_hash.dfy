/**
  The one Redis hash command whose result the adapter cannot compute as a plain
  expression of the hash: HVALS lists the values of all fields in an order
  Redis chooses.
 */
module RedisHash {

  /**
    HVALS: each field's value exactly once, in some order. `fields` says which
    field each value belongs to; it is not part of the reply.
   */
  method HVals(hash: map<string, string>) returns (values: seq<string>, ghost fields: seq<string>)
    ensures |values| == |fields| == |hash|
    ensures forall k :: k in fields <==> k in hash
    ensures forall i, j :: 0 <= i < j < |fields| ==> fields[i] != fields[j]
    ensures forall i :: 0 <= i < |values| ==> fields[i] in hash && values[i] == hash[fields[i]]
    ensures forall v :: v in values <==> v in hash.Values
  {
    values, fields := [], [];
    var rest := hash.Keys;
    while rest != {}
      invariant rest <= hash.Keys
      invariant forall k :: k in fields <==> k in hash && k !in rest
      invariant |values| == |fields|
      invariant forall i, j :: 0 <= i < j < |fields| ==> fields[i] != fields[j]
      invariant forall i :: 0 <= i < |values| ==> fields[i] in hash && values[i] == hash[fields[i]]
      decreases |rest|
    {
      var k :| k in rest;
      values, fields := values + [hash[k]], fields + [k];
      rest := rest - {k};
    }
    DistinctLength(fields, hash.Keys);
    forall v
      ensures v in values <==> v in hash.Values
    {
      if v in hash.Values {
        var k :| k in hash && hash[k] == v;
        var i :| 0 <= i < |fields| && fields[i] == k;
        assert values[i] == v;
      }
    }
  }

  /** A sequence without repetitions that lists exactly the elements of `s` is as long as `s` is large. */
  lemma {:induction false} DistinctLength(xs: seq<string>, s: set<string>)
    requires forall i, j :: 0 <= i < j < |xs| ==> xs[i] != xs[j]
    requires forall k :: k in xs <==> k in s
    ensures |xs| == |s|
  {
    if xs == [] {
      assert s == {};
    } else {
      var tail := xs[1..];
      assert forall k :: k in tail <==> k in s - {xs[0]} by {
        forall k
          ensures k in tail <==> k in s - {xs[0]}
        {
          if k in tail {
            var j :| 0 <= j < |tail| && tail[j] == k;
            assert xs[j + 1] == k;
          }
          if k in s - {xs[0]} {
            var j :| 0 <= j < |xs| && xs[j] == k;
            assert j != 0 && tail[j - 1] == k;
          }
        }
      }
      DistinctLength(tail, s - {xs[0]});
    }
  }
}
