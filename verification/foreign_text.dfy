/**
  What the adapter does with a hash it did not write itself, outside the class
  invariant.
 */
module ForeignText {
  import opened Wrappers
  import opened DecimalCodec
  import Adapter

  /**
    Text another client wrote can parse to an `Int` without being the text
    `toString()` writes for it: a field holding "007" reads as 7 through `get`
    and `values`, yet `containsValue(7)` looks for "7" and does not find it.
    Such a hash is not the encoding of any map.
   */
  lemma ForeignTextIsNotFound()
    ensures var hash := map["a" := "007"];
      && Parse(hash["a"]) == Some(7)
      && Format(7) !in hash.Values
      && hash != Adapter.Encoded(map["a" := 7])
  {
  }
}
