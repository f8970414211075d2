/**
 * What the credential cards share: a card shows the attribute values it reads
 * for a fixed list of keys, in order.
 */
module Cards {
  import opened Js

  /** The values a card displays: `read(presentation, key)` for each key in turn. */
  function Card(read: (Value, string) -> Value, presentation: Value, keys: seq<string>): (shown: seq<Value>)
    ensures |shown| == |keys|
    ensures forall i :: 0 <= i < |keys| ==> shown[i] == read(presentation, keys[i])
  {
    seq(|keys|, i requires 0 <= i < |keys| => read(presentation, keys[i]))
  }

  /**
   * Two presentations give the same card exactly when they agree on every
   * key the card reads: the card depends on those keys and on nothing else.
   */
  lemma CardDeterminedByKeys(read: (Value, string) -> Value, p: Value, q: Value, keys: seq<string>)
    ensures Card(read, p, keys) == Card(read, q, keys) <==>
            forall i :: 0 <= i < |keys| ==> read(p, keys[i]) == read(q, keys[i])
  {
    if Card(read, p, keys) == Card(read, q, keys) {
      forall i | 0 <= i < |keys| ensures read(p, keys[i]) == read(q, keys[i]) {
        assert Card(read, p, keys)[i] == Card(read, q, keys)[i];
      }
    }
  }
}
