/** The key-origin item `buildOriginTag304` builds (server.js lines 50-59): the
    path's steps flattened to `[index, hardened, index, hardened, ...]` under key
    1, the source fingerprint under key 2, the map enclosed in tag 304. */
module Origin {
  import opened Outcomes
  import opened Bytes
  import opened Cbor
  import opened DerivationPath

  const KeyOriginTag: nat := 304
  const ComponentsKey: nat := 1
  const SourceFingerprintKey: nat := 2

  /** What a key-origin item carries. */
  datatype KeyOrigin = KeyOrigin(steps: seq<Step>, sourceFingerprint: U32)

  /** The compact components array: step `i` occupies positions `2i` (its
      index) and `2i+1` (its hardened flag), in path order. */
  function Compact(steps: seq<Step>): (arr: seq<Value>)
    ensures |arr| == 2 * |steps|
    ensures forall i :: 0 <= i < |steps| ==>
      arr[2 * i] == UInt(steps[i].index) && arr[2 * i + 1] == Bool(steps[i].hardened)
    decreases |steps|
  {
    if |steps| == 0 then []
    else
      var rest := Compact(steps[1..]);
      var arr := [UInt(steps[0].index), Bool(steps[0].hardened)] + rest;
      CompactCons(steps, rest, arr);
      arr
  }

  /** One step of `Compact`: putting the first step's pair in front of the
      compact array of the other steps places every pair correctly. */
  lemma CompactCons(steps: seq<Step>, rest: seq<Value>, arr: seq<Value>)
    requires |steps| >= 1 && |rest| == 2 * (|steps| - 1)
    requires forall i :: 0 <= i < |steps| - 1 ==>
      rest[2 * i] == UInt(steps[1..][i].index) && rest[2 * i + 1] == Bool(steps[1..][i].hardened)
    requires arr == [UInt(steps[0].index), Bool(steps[0].hardened)] + rest
    ensures forall i :: 0 <= i < |steps| ==>
      arr[2 * i] == UInt(steps[i].index) && arr[2 * i + 1] == Bool(steps[i].hardened)
  {
    forall i | 0 <= i < |steps|
      ensures arr[2 * i] == UInt(steps[i].index) && arr[2 * i + 1] == Bool(steps[i].hardened)
    {
      if i > 0 {
        var j := i - 1;
        assert steps[1..][j] == steps[i];
        assert rest[2 * j] == UInt(steps[1..][j].index) && rest[2 * j + 1] == Bool(steps[1..][j].hardened);
        assert arr[2 * i] == rest[2 * j] && arr[2 * i + 1] == rest[2 * j + 1];
      }
    }
  }

  /** Reads a compact components array back into steps; `None` unless it is
      made of (unsigned integer, boolean) pairs. */
  function Uncompact(arr: seq<Value>): Option<seq<Step>>
    decreases |arr|
  {
    if |arr| == 0 then Some([])
    else if |arr| >= 2 && arr[0].UInt? && arr[1].Bool? then
      match Uncompact(arr[2..])
      case Some(rest) => Some([Step(arr[0].n, arr[1].b)] + rest)
      case None => None
    else None
  }

  /** The compact array loses nothing: it reads back as the steps. */
  lemma {:induction false} UncompactCompact(steps: seq<Step>)
    ensures Uncompact(Compact(steps)) == Some(steps)
    decreases |steps|
  {
    if |steps| > 0 {
      var arr := Compact(steps);
      assert arr[2..] == Compact(steps[1..]);
      UncompactCompact(steps[1..]);
      assert [steps[0]] + steps[1..] == steps;
    }
  }

  /** The tag-304 item for given steps and source fingerprint, built as
      `buildOriginTag304` does (server.js:56-58): a fresh `Map`, then
      `set(1, arr)`, then `set(2, fp)`. */
  function OriginValue(steps: seq<Step>, sourceFp: U32): Value {
    var inner := MapSet(MapSet([], UInt(ComponentsKey), Array(Compact(steps))), UInt(SourceFingerprintKey), UInt(sourceFp));
    Tagged(KeyOriginTag, Map(inner))
  }

  /** Reads a key-origin item: tag 304 around a map whose keys are exactly 1
      then 2, a compact array under 1 and a 32-bit fingerprint under 2. */
  function DecodeOrigin(v: Value): Option<KeyOrigin> {
    if && v.Tagged? && v.tag == KeyOriginTag && v.content.Map?
       && Keys(v.content.entries) == [UInt(ComponentsKey), UInt(SourceFingerprintKey)]
    then
      var es := v.content.entries;
      if es[0].value.Array? && es[1].value.UInt? && es[1].value.n < 0x1_0000_0000 then
        match Uncompact(es[0].value.items)
        case Some(steps) => Some(KeyOrigin(steps, es[1].value.n))
        case None => None
      else None
    else None
  }

  /** Layout of the built item: tag 304; map keys exactly [1, 2] in that
      order; the compact array under 1; the source fingerprint under 2. */
  lemma OriginValueLayout(steps: seq<Step>, sourceFp: U32)
    ensures var v := OriginValue(steps, sourceFp);
      && v.Tagged? && v.tag == 304 && v.content.Map?
      && Keys(v.content.entries) == [UInt(1), UInt(2)]
      && DistinctKeys(v.content.entries)
      && Lookup(v.content.entries, UInt(1)) == Some(Array(Compact(steps)))
      && Lookup(v.content.entries, UInt(2)) == Some(UInt(sourceFp))
  {
    var m1 := MapSet([], UInt(ComponentsKey), Array(Compact(steps)));
    MapSetLookup([], UInt(ComponentsKey), Array(Compact(steps)));
    MapSetLookup(m1, UInt(SourceFingerprintKey), UInt(sourceFp));
    MapSetDistinct([], UInt(ComponentsKey), Array(Compact(steps)));
    MapSetDistinct(m1, UInt(SourceFingerprintKey), UInt(sourceFp));
  }

  /** Round trip: the built item reads back as the steps and fingerprint. */
  lemma OriginRoundTrip(steps: seq<Step>, sourceFp: U32)
    ensures DecodeOrigin(OriginValue(steps, sourceFp)) == Some(KeyOrigin(steps, sourceFp))
  {
    OriginValueLayout(steps, sourceFp);
    UncompactCompact(steps);
    var es := OriginValue(steps, sourceFp).content.entries;
    LookupAt(es, 0);
    LookupAt(es, 1);
    assert Keys(es)[0] == es[0].key;
    assert Keys(es)[1] == es[1].key;
  }

  /** `buildOriginTag304`: parse the path (failing as `parsePath` does) and
      build the item from its steps and the given master fingerprint. */
  function BuildOriginTag304(pathStr: string, masterFp: U32): (r: Result<Value, string>)
    ensures r.Success? <==> ParsePath(pathStr).Success?
    ensures r.Failure? ==> r.error == InvalidPathMessage
    ensures r.Success? ==> DecodeOrigin(r.value) == Some(KeyOrigin(ParsePath(pathStr).value, masterFp))
  {
    match ParsePath(pathStr)
    case Failure(e) => Failure(e)
    case Success(steps) =>
      OriginRoundTrip(steps, masterFp);
      Success(OriginValue(steps, masterFp))
  }
}
