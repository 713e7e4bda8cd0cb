/**
 * The raw data handed to the hydrator: a PHP array from string keys to
 * values, and the isset() lookup the hydrator performs on it.
 */
module RawData {

  datatype Option<T> = None | Some(value: T)

  /** A PHP value as far as the hydrator can tell values apart: only null is
      special (isset() rejects it); false, 0 and "" are ordinary values. */
  datatype Value = Null | Bool(b: bool) | Int(i: int) | Str(s: string)

  /** One raw data record. */
  type Record = map<string, Value>

  /** PHP's isset($raw[$key]): the key is present AND its value is not null. */
  predicate Isset(raw: Record, key: string)
  {
    key in raw && !raw[key].Null?
  }

  /** The index of the first key that isset() accepts, or |keys| when none is. */
  function FirstSetIndex(keys: seq<string>, raw: Record): (i: nat)
    ensures i <= |keys|
    ensures forall j :: 0 <= j < i ==> !Isset(raw, keys[j])
    ensures i < |keys| ==> Isset(raw, keys[i])
  {
    if keys == [] then 0
    else if Isset(raw, keys[0]) then 0
    else 1 + FirstSetIndex(keys[1..], raw)
  }

  /** The value under the first key, in list order, that isset() accepts;
      None when no key is accepted. A found value is never null. */
  function Lookup(keys: seq<string>, raw: Record): (r: Option<Value>)
    ensures r.Some? <==> exists j :: 0 <= j < |keys| && Isset(raw, keys[j])
    ensures r.Some? ==> !r.value.Null?
  {
    var i := FirstSetIndex(keys, raw);
    if i < |keys| then Some(raw[keys[i]]) else None
  }

  /** First match wins: when key k is the first one set, its value is the
      result, whatever the keys after it hold. */
  lemma LookupFirstMatch(keys: seq<string>, raw: Record, k: nat)
    requires k < |keys| && Isset(raw, keys[k])
    requires forall j :: 0 <= j < k ==> !Isset(raw, keys[j])
    ensures Lookup(keys, raw) == Some(raw[keys[k]])
  {
  }

  /** Two records that isset() cannot tell apart on the given keys, and that
      agree on the values it accepts, give the same lookup. */
  lemma {:induction false} LookupAgrees(keys: seq<string>, raw1: Record, raw2: Record)
    requires forall j :: 0 <= j < |keys| ==>
               && Isset(raw1, keys[j]) == Isset(raw2, keys[j])
               && (Isset(raw1, keys[j]) ==> raw1[keys[j]] == raw2[keys[j]])
    ensures Lookup(keys, raw1) == Lookup(keys, raw2)
  {
    if keys != [] && !Isset(raw1, keys[0]) {
      LookupAgrees(keys[1..], raw1, raw2);
      assert FirstSetIndex(keys, raw1) == 1 + FirstSetIndex(keys[1..], raw1);
      assert FirstSetIndex(keys, raw2) == 1 + FirstSetIndex(keys[1..], raw2);
    }
  }

  /** A key mapped to null is the same as a missing key. */
  lemma NullKeyIsAbsent(keys: seq<string>, raw: Record, k: string)
    requires k in raw && raw[k].Null?
    ensures Lookup(keys, raw) == Lookup(keys, raw - {k})
  {
    LookupAgrees(keys, raw, raw - {k});
  }
}
