# redis-map: the Redis-backed `MutableMap<String, Int>`

This project models `RedisMap`, a Kotlin class that implements
`MutableMap<String, Int>`. It keeps all of its entries in a single Redis hash
named `"redisMap"`. Each map operation becomes one or more hash commands:
HLEN, HGETALL, HKEYS, HVALS, DEL, HEXISTS, HGET, HSET and HDEL. Keys are the
hash's field names. Each value is stored as the decimal text `value.toString()`
and read back with `toInt()`.

The model has five modules. `Wrappers` (`wrappers.dfy`) holds the `Option`
type that stands for Kotlin's nullable results; the other four are below.

- `DecimalCodec` (`decimal_codec.dfy`) writes Kotlin's `Int` in base 10.
  - `Format` is `Int.toString()`. `Parse` is `String.toInt()`, which is
    `Integer.parseInt`: an optional `-` or `+`, at least one digit, and a
    range check. Its failure, a `NumberFormatException`, becomes `None`.
  - The lemmas prove two things. `Parse` undoes `Format` for every 32-bit
    `Int`, and `Format` is injective. The strings `Format` produces are exactly
    the canonical digit strings that `Parse` accepts.
- `RedisHash` (`redis_hash.dfy`) models HVALS. It returns each field's value
  once, in an order Redis chooses.
- `Adapter` (`redis_map.dfy`) holds the class `RedisMap`.
  - The field `store: map<string, string>` is the Redis hash. A hash Redis
    does not have reads as an empty map, so DEL sets `store` to `map[]`.
  - The ghost field `contents` is the `Map<String, Int>` the hash stands for.
  - The class invariant `Valid()` is `store == Encoded(contents)`: every
    stored string is `toString()` of the `Int` the map holds for that field.
    The constructor establishes it, and `Put`, `PutAll`, `Remove` and `Clear`
    keep it.
  - Because of the invariant, `get`, `values`, `entries` and `remove` (which
    calls `get` first) never reach a parse failure.
  - Queries that are one expression over the hash are functions:
    `size`, `isEmpty`, `keys`, `containsKey`, `get` and `containsValue`.
  - `values` and `entries` build their results from a Redis reply, so they
    are methods. `entries` keeps the source's loop.
  - The mutators are methods that modify the object. `putAll` is a loop that
    calls `Put` once per entry of `from`.
- `ForeignText` (`foreign_text.dfy`) shows what the invariant excludes: a
  hash holding numeric text that `toString()` never writes.

`put` returns the value it has just written, not the value it replaced. Its
doc comment says it returns the previous value. The model follows the code:
`Put` ensures `r == Some(value)`.

## Model

| member | source | states |
|---|---|---|
| DecimalCodec.Format | src/main/kotlin/com/amirkenesbay/redismap/RedisMap.kt:121 | `value.toString()`: a '-' for negative numbers, then the decimal digits of the magnitude. Its contract is carried by FormatCanonical (canonical text, '-' exactly for negatives), ParseFormat (round trip) and FormatInjective. |
| DecimalCodec.ScanDigits | src/main/kotlin/com/amirkenesbay/redismap/RedisMap.kt:103 | The digit loop of `Integer.parseInt`: left to right, ten times the running value plus the digit, failing at the first non-digit. Its contract is carried by ScanDigitsOnlyDigits (success only on all-digit strings), ScanDigitsSnoc, ScanDigitsOfDigits and DigitsOfScanDigits. |
| DecimalCodec.Parse | src/main/kotlin/com/amirkenesbay/redismap/RedisMap.kt:103 | `String.toInt()`: an optional '-' or '+', at least one digit, and a value within the `Int` range; a `NumberFormatException` becomes `None`. Its contract is carried by ParseFormat, FormatParse, ParseEdgeCases, ParseRejectsOverflow and ParseRejectsUnderflow. |
| DecimalCodec.ParseRejectsOverflow | src/main/kotlin/com/amirkenesbay/redismap/RedisMap.kt:103 | `toInt()` refuses "2147483648", one more than the largest `Int`. |
| DecimalCodec.ParseRejectsUnderflow | src/main/kotlin/com/amirkenesbay/redismap/RedisMap.kt:103 | `toInt()` refuses "-2147483649", one less than the smallest `Int`. |
| DecimalCodec.Digits | src/main/kotlin/com/amirkenesbay/redismap/RedisMap.kt:121 | The decimal spelling of a natural number has at least one character and only digits. It starts with '0' only when the number is 0, and then it is exactly "0". |
| DecimalCodec.ScanDigitsOnlyDigits | src/main/kotlin/com/amirkenesbay/redismap/RedisMap.kt:103 | If the digit loop of `toInt()` succeeds on a string, every character of that string is a digit. |
| DecimalCodec.ScanDigitsSnoc | src/main/kotlin/com/amirkenesbay/redismap/RedisMap.kt:103 | On an all-digit string, the digit loop of `toInt()` succeeds. Appending one more digit multiplies the value read so far by ten and adds that digit. |
| DecimalCodec.ScanDigitsOfDigits | src/main/kotlin/com/amirkenesbay/redismap/RedisMap.kt:103 | Reading back the digits written for `n` gives `n`. |
| DecimalCodec.DigitsOfScanDigits | src/main/kotlin/com/amirkenesbay/redismap/RedisMap.kt:121 | Take a digit string with no superfluous leading zero. Reading it and writing the result back gives the same string. |
| DecimalCodec.FormatCanonical | src/main/kotlin/com/amirkenesbay/redismap/RedisMap.kt:121 | `toString()` gives canonical text: an optional '-', then digits with no leading zero, and "0" is never signed. The text starts with '-' exactly when the number is negative. |
| DecimalCodec.ParseFormat | src/main/kotlin/com/amirkenesbay/redismap/RedisMap.kt:103 | For every 32-bit `Int` x, `toInt()` of `x.toString()` is x. |
| DecimalCodec.DecodeStored | src/main/kotlin/com/amirkenesbay/redismap/RedisMap.kt:41 | `toInt()` on text that `toString()` wrote for x returns x. |
| DecimalCodec.FormatInjective | src/main/kotlin/com/amirkenesbay/redismap/RedisMap.kt:94 | Two `Int`s with the same text are equal. |
| DecimalCodec.FormatParse | src/main/kotlin/com/amirkenesbay/redismap/RedisMap.kt:103 | If a canonical string parses, `toString()` of its value gives that string back. |
| DecimalCodec.ParseEdgeCases | src/main/kotlin/com/amirkenesbay/redismap/RedisMap.kt:103 | `toInt()` accepts "+7", "-0" and "007". It rejects "", "-", "+" and "1a". |
| DecimalCodec.EncodingIsCanonical | src/main/kotlin/com/amirkenesbay/redismap/RedisMap.kt:121 | A string can be written by `put` exactly when it is canonical and parses to an `Int` (both directions). |
| DecimalCodec.FormatIsEncoding | src/main/kotlin/com/amirkenesbay/redismap/RedisMap.kt:121 | Every string `put` writes parses, and it formats back to itself. |
| RedisHash.HVals | src/main/kotlin/com/amirkenesbay/redismap/RedisMap.kt:63 | HVALS returns one value per field, as many values as the hash has fields. Each value belongs to a distinct field and is that field's string. Every field is covered. A string occurs in the reply exactly when some field holds it. |
| RedisHash.DistinctLength | src/main/kotlin/com/amirkenesbay/redismap/RedisMap.kt:63 | A sequence without repeats that lists exactly the elements of a set is as long as the set is large. |
| Adapter.PairsCardinality | src/main/kotlin/com/amirkenesbay/redismap/RedisMap.kt:36-44 | A set holding exactly the (key, value) pairs of a map has as many elements as the map has keys. |
| Adapter.RedisMap.constructor | src/main/kotlin/com/amirkenesbay/redismap/RedisMap.kt:15 | Attaching to a hash this adapter filled with `initial` establishes the invariant, and the map holds `initial`. |
| Adapter.RedisMap.StoredValuesAreEncodings | src/main/kotlin/com/amirkenesbay/redismap/RedisMap.kt:120-123 | Under the invariant, every stored field value is a valid `Int` encoding. |
| Adapter.RedisMap.StoredValuesDecode | src/main/kotlin/com/amirkenesbay/redismap/RedisMap.kt:103 | Under the invariant, `toInt()` of any stored string is the `Int` the map holds for that field. |
| Adapter.RedisMap.Size | src/main/kotlin/com/amirkenesbay/redismap/RedisMap.kt:25-26 | HLEN equals the number of entries of the map. |
| Adapter.RedisMap.IsEmpty | src/main/kotlin/com/amirkenesbay/redismap/RedisMap.kt:110 | `isEmpty()` holds exactly when there are no keys, and so exactly when the map is the empty map. |
| Adapter.RedisMap.Keys | src/main/kotlin/com/amirkenesbay/redismap/RedisMap.kt:52-53 | HKEYS has `size` elements, and they are the map's keys. |
| Adapter.RedisMap.ContainsKey | src/main/kotlin/com/amirkenesbay/redismap/RedisMap.kt:80 | HEXISTS holds exactly when the key is among `keys`, and so exactly when the map has the key. |
| Adapter.RedisMap.Get | src/main/kotlin/com/amirkenesbay/redismap/RedisMap.kt:103 | `get(key)` is null exactly when the key is absent. Otherwise it is the `Int` the map holds there. It never fails to parse. |
| Adapter.RedisMap.ContainsValue | src/main/kotlin/com/amirkenesbay/redismap/RedisMap.kt:92-95 | `containsValue(v)` holds exactly when v is one of the map's values. |
| Adapter.RedisMap.ValueEncodedIffPresent | src/main/kotlin/com/amirkenesbay/redismap/RedisMap.kt:94 | `v.toString()` is among the stored strings exactly when v is among the map's values (both directions). |
| Adapter.RedisMap.Values | src/main/kotlin/com/amirkenesbay/redismap/RedisMap.kt:61-65 | `values` has `size` elements. They are in one-to-one correspondence with the keys, and each is the `Int` held for its key. An `Int` occurs in it exactly when it is a value of the map. |
| Adapter.RedisMap.ValuesAreContents | src/main/kotlin/com/amirkenesbay/redismap/RedisMap.kt:64 | Decode an enumeration of all fields. The results are exactly the values of the map. |
| Adapter.RedisMap.Entries | src/main/kotlin/com/amirkenesbay/redismap/RedisMap.kt:36-44 | `entries` has `size` elements. A pair is in it exactly when its key is in the map and its value is the one held there. |
| Adapter.RedisMap.Clear | src/main/kotlin/com/amirkenesbay/redismap/RedisMap.kt:70-72 | After DEL the hash and the map are empty, the invariant holds, `size` is 0 and `isEmpty()` holds. |
| Adapter.RedisMap.Put | src/main/kotlin/com/amirkenesbay/redismap/RedisMap.kt:120-123 | HSET sets field `key` to `value.toString()` and leaves every other field unchanged. The map becomes the old map with `key` mapped to `value`. The invariant is kept, and the result is `value` itself. |
| Adapter.RedisMap.PutAll | src/main/kotlin/com/amirkenesbay/redismap/RedisMap.kt:130-132 | Calling `put` for each pair of `from` leaves the map as the old map overridden by `from`, and the hash as the old hash overridden by the encoding of `from`. The invariant is kept. |
| Adapter.RedisMap.Remove | src/main/kotlin/com/amirkenesbay/redismap/RedisMap.kt:140-144 | The result is what `get(key)` gave before the call, and it is null exactly when the field was missing. Afterwards the field is gone and the other fields are unchanged. When the field was missing, nothing changes. |
| ForeignText.ForeignTextIsNotFound | src/main/kotlin/com/amirkenesbay/redismap/RedisMap.kt:92-95 | A field holding "007" parses to 7, but "7", the text `containsValue(7)` searches for, is not among the stored strings, and the hash is not the encoding of the map {"a": 7}. |
| Adapter.RemoveTwice | src/test/kotlin/com/amirkenesbay/redismap/RedisMapTest.kt:36-48 | A second `remove` of the same key returns null and leaves the map as the first one left it. |
| Adapter.PutThenGet | src/test/kotlin/com/amirkenesbay/redismap/RedisMapTest.kt:24-33 | After `put(key, value)`, the call returned `value`, `get(key)` returns `value`, and `containsKey(key)` holds. |
| Adapter.PutAllThenGet | src/test/kotlin/com/amirkenesbay/redismap/RedisMapTest.kt:112-123 | After `putAll(from)`, `get(k)` is `from[k]` for each key of `from`. Every other key reads as it did before. |

## Left out

- The Jedis client and the network are replaced by the `store` field. Connection failures, timeouts and round trips are not modelled.
- Concurrency is not modelled. Another client could write between `remove`'s HGET and its HDEL, or between the HSETs of `putAll`; the model is sequential.
- Adapter.RedisMap.Get, Values, Entries and Remove assume the class invariant. So they do not model the `NumberFormatException` that a non-numeric value written by another client would raise. The constructor only accepts a `Map<String, Int>`. On such a field the source's `remove` throws inside its `get` (RedisMap.kt:141), before the HDEL (RedisMap.kt:142), so the field stays in the hash and nothing is returned.
- Adapter.RedisMap.ContainsValue is proved to agree with the map's values only under the invariant. The invariant also excludes numeric text that `toString()` never writes, such as "007", "+7" or "-0", which another client could store. The source reads such text without error: `get` and `values` give 7 for "007", while `containsValue(7)` compares strings and is false. ForeignText.ForeignTextIsNotFound exhibits this case.
- Adapter.RedisMap.Size returns an unbounded `nat`. It does not model the `Long`-to-`Int` truncation of HLEN's reply, which only matters for a hash with 2^31 fields or more.
- Adapter.RedisMap.Keys and Entries return Dafny sets. Java object identity, the mutability of `MutableMap.MutableEntry`, and the fact that changes to the returned collections are not written back to Redis are not modelled.
- Adapter.RedisMap.Values lists the values in an order Redis chooses, and the model fixes no particular order. HKEYS order is not modelled either, because `keys` is a set.
- Adapter.RedisMap.ContainsValue asks whether `value.toString()` is among the stored strings. It does not build HVALS's list first, because that list holds exactly those strings.
- DecimalCodec.Parse accepts only the ASCII digits '0' to '9'. `Integer.parseInt` also accepts the decimal digits of other Unicode scripts.
- DecimalCodec.Parse checks the range once, after it has read all the digits. `Integer.parseInt` checks for overflow at each digit. Both reject the same strings.
- The hash name "redisMap" is not modelled. Every operation uses the same single hash, which is the `store` field.
- The doc comments' remarks on the cost of HLEN and HVALS are not modelled.
- The HTTP controller, the startup runner, the Spring configuration and the application entry point have no map logic and are not part of this model.
