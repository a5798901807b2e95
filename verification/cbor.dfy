/** The value tree `server.js` hands to `cbor.encode`: unsigned integers, byte
    strings, text, booleans, arrays, maps in insertion order, and tagged items
    (a tag number enclosing one data item, section 3.4 of RFC 8949). A JavaScript
    `Map` keeps its keys unique and in first-insertion order; `MapSet` is its
    `set`. Byte-level serialisation is not part of this model. */
module Cbor {
  import opened Outcomes
  import opened Bytes

  datatype Value =
    | UInt(n: nat)
    | ByteString(bytes: seq<Byte>)
    | TextString(text: string)
    | Bool(b: bool)
    | Array(items: seq<Value>)
    | Map(entries: seq<Entry>)
    | Tagged(tag: nat, content: Value)

  datatype Entry = Entry(key: Value, value: Value)

  /** The keys of a map in order. */
  function Keys(entries: seq<Entry>): (ks: seq<Value>)
    ensures |ks| == |entries|
    ensures forall i :: 0 <= i < |entries| ==> ks[i] == entries[i].key
  {
    seq(|entries|, i requires 0 <= i < |entries| => entries[i].key)
  }

  lemma KeysCons(e: Entry, entries: seq<Entry>)
    ensures Keys([e] + entries) == [e.key] + Keys(entries)
  {
    var l := Keys([e] + entries);
    var r := [e.key] + Keys(entries);
    assert |l| == |r|;
    forall i | 0 <= i < |l| ensures l[i] == r[i] {
      if i > 0 {
        assert ([e] + entries)[i] == entries[i - 1];
      }
    }
  }

  /** No key occurs twice (a valid CBOR map, section 5.6 of RFC 8949). */
  predicate DistinctKeys(entries: seq<Entry>) {
    forall i, j :: 0 <= i < j < |entries| ==> entries[i].key != entries[j].key
  }

  /** `map.get(k)`: the value stored under `k`, if any. */
  function Lookup(entries: seq<Entry>, k: Value): (r: Option<Value>)
    ensures r.None? <==> k !in Keys(entries)
    decreases |entries|
  {
    if |entries| == 0 then None
    else if entries[0].key == k then Some(entries[0].value)
    else
      assert Keys(entries) == [entries[0].key] + Keys(entries[1..]);
      Lookup(entries[1..], k)
  }

  /** In a map with distinct keys, looking up the key of entry `i` finds the
      value of entry `i`. */
  lemma {:induction false} LookupAt(entries: seq<Entry>, i: nat)
    requires DistinctKeys(entries) && i < |entries|
    ensures Lookup(entries, entries[i].key) == Some(entries[i].value)
    decreases i
  {
    if i > 0 {
      assert entries[0].key != entries[i].key;
      assert entries[1..][i - 1] == entries[i];
      LookupAt(entries[1..], i - 1);
    }
  }

  /** `map.set(k, v)`: an existing key keeps its place; a new key is appended. */
  function MapSet(entries: seq<Entry>, k: Value, v: Value): (r: seq<Entry>)
    ensures k in Keys(entries) ==> Keys(r) == Keys(entries)
    ensures k !in Keys(entries) ==> Keys(r) == Keys(entries) + [k]
    decreases |entries|
  {
    if |entries| == 0 then [Entry(k, v)]
    else
      KeysCons(entries[0], entries[1..]);
      assert entries == [entries[0]] + entries[1..];
      if entries[0].key == k then
        var r := [Entry(k, v)] + entries[1..];
        KeysCons(Entry(k, v), entries[1..]);
        r
      else
        var rest := MapSet(entries[1..], k, v);
        KeysCons(entries[0], rest);
        [entries[0]] + rest
  }

  /** After `map.set(k, v)`, `k` holds `v` and every other key keeps its value. */
  lemma {:induction false} MapSetLookup(entries: seq<Entry>, k: Value, v: Value)
    ensures Lookup(MapSet(entries, k, v), k) == Some(v)
    ensures forall k' :: k' != k ==> Lookup(MapSet(entries, k, v), k') == Lookup(entries, k')
    decreases |entries|
  {
    var r := MapSet(entries, k, v);
    if |entries| > 0 {
      if entries[0].key == k {
        assert r[1..] == entries[1..];
      } else {
        MapSetLookup(entries[1..], k, v);
        assert r[1..] == MapSet(entries[1..], k, v);
      }
    }
  }

  /** Keys stay distinct under `MapSet`. */
  lemma MapSetDistinct(entries: seq<Entry>, k: Value, v: Value)
    requires DistinctKeys(entries)
    ensures DistinctKeys(MapSet(entries, k, v))
  {
    var r := MapSet(entries, k, v);
    var ks := Keys(r);
    forall i, j | 0 <= i < j < |r| ensures r[i].key != r[j].key {
      assert ks[i] == r[i].key && ks[j] == r[j].key;
      if k in Keys(entries) {
        assert Keys(entries)[i] == entries[i].key && Keys(entries)[j] == entries[j].key;
      } else {
        if j < |entries| {
          assert (Keys(entries) + [k])[i] == entries[i].key;
          assert (Keys(entries) + [k])[j] == entries[j].key;
        } else {
          assert ks[j] == k;
          assert Keys(entries)[i] == entries[i].key;
        }
      }
    }
  }

  /** Setting a key the map does not hold appends one entry at the end. */
  lemma {:induction false} MapSetAppend(entries: seq<Entry>, k: Value, v: Value)
    requires k !in Keys(entries)
    ensures MapSet(entries, k, v) == entries + [Entry(k, v)]
    decreases |entries|
  {
    if |entries| > 0 {
      assert entries == [entries[0]] + entries[1..];
      KeysCons(entries[0], entries[1..]);
      MapSetAppend(entries[1..], k, v);
    }
  }

  lemma KeysSnoc(entries: seq<Entry>, e: Entry)
    ensures Keys(entries + [e]) == Keys(entries) + [e.key]
  {
    var l := Keys(entries + [e]);
    var r := Keys(entries) + [e.key];
    assert |l| == |r|;
    forall i | 0 <= i < |l| ensures l[i] == r[i] {
      if i < |entries| {
        assert (entries + [e])[i] == entries[i];
      }
    }
  }

  /** Setting a fresh key on a map with keys `ks` appends it and extends the
      keys by it. */
  lemma MapSetFresh(entries: seq<Entry>, ks: seq<Value>, k: Value, v: Value)
    requires Keys(entries) == ks && k !in ks
    ensures MapSet(entries, k, v) == entries + [Entry(k, v)]
    ensures Keys(entries + [Entry(k, v)]) == ks + [k]
  {
    MapSetAppend(entries, k, v);
    KeysSnoc(entries, Entry(k, v));
  }
}
