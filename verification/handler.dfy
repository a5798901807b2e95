/** The record-assembly part of the `/api/gen` handler (server.js lines 62-121):
    request defaults, parent-path resolution, fingerprint computation and
    overrides, and the top-level crypto-hdkey map with keys 3, 4, 6, 8, 9.
    The BIP32 derivation and the two hash functions are parameters. */
module HdKeyExport {
  import opened Outcomes
  import opened Bytes
  import opened Cbor
  import opened DerivationPath
  import opened HexOverride
  import opened Origin

  /** A BIP32 node as far as the export looks at it. */
  datatype Node = Node(publicKey: seq<Byte>, chainCode: seq<Byte>)

  /** The library calls the handler makes, left uninterpreted: SHA-256 and
      RIPEMD-160 from `crypto`, and `node.derivePath` from `bip32` (which
      throws, with its own message, on a path it refuses). */
  datatype Libs = Libs(
    sha256: seq<Byte> -> Digest32,
    ripemd160: seq<Byte> -> Digest20,
    derivePath: (Node, string) -> Result<Node, string>)

  /** `hash160`: RIPEMD-160 of SHA-256. */
  function Hash160(libs: Libs, buf: seq<Byte>): Digest20 {
    libs.ripemd160(libs.sha256(buf))
  }

  /** `fingerprintOf`: the first four bytes of the public key's hash160,
      read big-endian. */
  function FingerprintOf(libs: Libs, node: Node): (fp: U32)
    ensures U32ToBytesBE(fp) == Hash160(libs, node.publicKey)[..4]
  {
    ReadUInt32BE(Hash160(libs, node.publicKey))
  }

  const DefaultPath: string := "m/44'/60'/0'"
  const AutoParent: string := "auto"
  const AccountParentMode: string := "m44h60h"
  const AccountParentPath: string := "m/44'/60'"
  const MetaLabel: string := "AirGap - meta"
  const PublicKeyKey: nat := 3
  const ChainCodeKey: nat := 4
  const OriginKey: nat := 6
  const ParentFingerprintKey: nat := 8
  const NameKey: nat := 9

  /** The JSON body fields the record depends on; `None` is an absent field. */
  datatype Body = Body(
    path: Option<string>,
    forceMasterFpHex: Option<string>,
    forceParentFpHex: Option<string>,
    parentFrom: Option<string>)

  /** The same fields once the destructuring defaults are applied. */
  datatype Request = Request(
    path: string,
    forceMasterFpHex: string,
    forceParentFpHex: string,
    parentFrom: string)

  function OrDefault(field: Option<string>, default: string): string {
    match field
    case Some(v) => v
    case None => default
  }

  /** `const { path = ..., ... } = req.body || {}`: a missing body behaves as
      an empty one, and every absent field takes its default. */
  function WithDefaults(body: Option<Body>): (req: Request)
    ensures body.None? ==> req == Request(DefaultPath, "", "", AutoParent)
    ensures body.Some? && body.value.path.Some? ==> req.path == body.value.path.value
    ensures body.Some? && body.value.path.None? ==> req.path == DefaultPath
    ensures body.Some? && body.value.forceMasterFpHex.Some? ==> req.forceMasterFpHex == body.value.forceMasterFpHex.value
    ensures body.Some? && body.value.forceMasterFpHex.None? ==> req.forceMasterFpHex == ""
    ensures body.Some? && body.value.forceParentFpHex.Some? ==> req.forceParentFpHex == body.value.forceParentFpHex.value
    ensures body.Some? && body.value.forceParentFpHex.None? ==> req.forceParentFpHex == ""
    ensures body.Some? && body.value.parentFrom.Some? ==> req.parentFrom == body.value.parentFrom.value
    ensures body.Some? && body.value.parentFrom.None? ==> req.parentFrom == AutoParent
  {
    var b := if body.Some? then body.value else Body(None, None, None, None);
    Request(
      OrDefault(b.path, DefaultPath),
      OrDefault(b.forceMasterFpHex, ""),
      OrDefault(b.forceParentFpHex, ""),
      OrDefault(b.parentFrom, AutoParent))
  }

  /** Lines 86-87: the immediate parent of the raw path, unless the caller
      asked for the fixed account parent. */
  function ResolveParentPath(path: string, parentFrom: string): string {
    if parentFrom == AccountParentMode then AccountParentPath else ParentPathOf(path)
  }

  /** Line 88: `m` is the master itself; any other parent path is derived. */
  function ParentNode(libs: Libs, master: Node, parentPath: string): Result<Node, string> {
    if parentPath == "m" then Success(master) else libs.derivePath(master, parentPath)
  }

  /** Lines 95-96: a decoded override replaces the computed fingerprint. */
  function ApplyOverride(computed: U32, override: Option<U32>): (fp: U32)
    ensures override.Some? ==> fp == override.value
    ensures override.None? ==> fp == computed
  {
    match override
    case Some(v) => v
    case None => computed
  }

  /** Lines 100-105: the top-level map, filled key by key. Every key is new when
      it is set, so the record is exactly five entries in insertion order. */
  function TopRecord(node: Node, origin: Value, parentFp: U32): (r: Value)
    ensures r == Map([
      Entry(UInt(3), ByteString(node.publicKey)),
      Entry(UInt(4), ByteString(node.chainCode)),
      Entry(UInt(6), origin),
      Entry(UInt(8), UInt(parentFp)),
      Entry(UInt(9), TextString("AirGap - meta"))])
  {
    var e3 := Entry(UInt(PublicKeyKey), ByteString(node.publicKey));
    var e4 := Entry(UInt(ChainCodeKey), ByteString(node.chainCode));
    var e6 := Entry(UInt(OriginKey), origin);
    var e8 := Entry(UInt(ParentFingerprintKey), UInt(parentFp));
    var e9 := Entry(UInt(NameKey), TextString(MetaLabel));
    var m3 := MapSet([], e3.key, e3.value);
    MapSetFresh([], [], e3.key, e3.value);
    assert m3 == [e3];
    var m4 := MapSet(m3, e4.key, e4.value);
    MapSetFresh(m3, [UInt(3)], e4.key, e4.value);
    assert m4 == [e3, e4];
    var m6 := MapSet(m4, e6.key, e6.value);
    MapSetFresh(m4, [UInt(3), UInt(4)], e6.key, e6.value);
    assert m6 == [e3, e4, e6];
    var m8 := MapSet(m6, e8.key, e8.value);
    MapSetFresh(m6, [UInt(3), UInt(4), UInt(6)], e8.key, e8.value);
    assert m8 == [e3, e4, e6, e8];
    var m9 := MapSet(m8, e9.key, e9.value);
    MapSetFresh(m8, [UInt(3), UInt(4), UInt(6), UInt(8)], e9.key, e9.value);
    assert m9 == [e3, e4, e6, e8, e9];
    Map(m9)
  }

  /** The fields a crypto-hdkey record carries. */
  datatype HdKey = HdKey(
    publicKey: seq<Byte>,
    chainCode: seq<Byte>,
    origin: KeyOrigin,
    parentFingerprint: U32,
    name: string)

  /** Reads a record laid out as the handler lays it out: keys exactly
      3, 4, 6, 8, 9 in that order, with values of the expected kinds. */
  function DecodeRecord(v: Value): Option<HdKey> {
    if && v.Map?
       && Keys(v.entries) == [UInt(PublicKeyKey), UInt(ChainCodeKey), UInt(OriginKey), UInt(ParentFingerprintKey), UInt(NameKey)]
    then
      var es := v.entries;
      if && es[0].value.ByteString? && es[1].value.ByteString? && DecodeOrigin(es[2].value).Some?
         && es[3].value.UInt? && es[3].value.n < 0x1_0000_0000 && es[4].value.TextString?
      then
        Some(HdKey(es[0].value.bytes, es[1].value.bytes, DecodeOrigin(es[2].value).value,
                   es[3].value.n, es[4].value.text))
      else None
    else None
  }

  /** The response fields other than the UR text and the QR image. */
  datatype Response = Response(
    record: Value,
    path: string,
    parentPath: string,
    masterFpHex: string,
    parentFpHex: string)

  /** Lines 82-105 and 114-119 in the order the handler runs them: validate
      the path, derive the node, resolve and derive the parent, decode both
      overrides, build the origin and the record. The first step that
      throws decides the error. */
  function Generate(libs: Libs, master: Node, req: Request): (r: Result<Response, string>)
    ensures r.Success? <==>
      && ParsePath(req.path).Success?
      && libs.derivePath(master, req.path).Success?
      && ParentNode(libs, master, ResolveParentPath(req.path, req.parentFrom)).Success?
      && U32FromHexBE(req.forceMasterFpHex).Success?
      && U32FromHexBE(req.forceParentFpHex).Success?
  {
    var _ :- ParsePath(req.path);
    var node :- libs.derivePath(master, req.path);
    var parentPath := ResolveParentPath(req.path, req.parentFrom);
    var parent :- ParentNode(libs, master, parentPath);
    var mOverride :- U32FromHexBE(req.forceMasterFpHex);
    var pOverride :- U32FromHexBE(req.forceParentFpHex);
    var masterFp := ApplyOverride(FingerprintOf(libs, master), mOverride);
    var parentFp := ApplyOverride(FingerprintOf(libs, parent), pOverride);
    // cannot fail: the path has already parsed
    var origin := BuildOriginTag304(req.path, masterFp).Extract();
    Success(Response(TopRecord(node, origin, parentFp), req.path, parentPath,
                     FpHex(masterFp), FpHex(parentFp)))
  }

  /** Record layout: keys exactly 3, 4, 6, 8, 9 in that order, none twice. */
  lemma TopRecordLayout(node: Node, origin: Value, parentFp: U32)
    ensures Keys(TopRecord(node, origin, parentFp).entries) == [UInt(3), UInt(4), UInt(6), UInt(8), UInt(9)]
    ensures DistinctKeys(TopRecord(node, origin, parentFp).entries)
  {
    FiveKeys(ByteString(node.publicKey), ByteString(node.chainCode), origin, UInt(parentFp), TextString(MetaLabel));
  }

  lemma FiveKeys(a: Value, b: Value, c: Value, d: Value, e: Value)
    ensures var es := [Entry(UInt(3), a), Entry(UInt(4), b), Entry(UInt(6), c), Entry(UInt(8), d), Entry(UInt(9), e)];
      Keys(es) == [UInt(3), UInt(4), UInt(6), UInt(8), UInt(9)] && DistinctKeys(es)
  {
    var es := [Entry(UInt(3), a), Entry(UInt(4), b), Entry(UInt(6), c), Entry(UInt(8), d), Entry(UInt(9), e)];
    assert forall i | 0 <= i < 5 :: Keys(es)[i] == es[i].key;
  }

  /** What each key holds: 3 the public key, 4 the chain code, 6 the origin
      item, 8 the parent fingerprint, 9 the literal label. */
  lemma TopRecordValues(node: Node, origin: Value, parentFp: U32)
    ensures var es := TopRecord(node, origin, parentFp).entries;
      && Lookup(es, UInt(3)) == Some(ByteString(node.publicKey))
      && Lookup(es, UInt(4)) == Some(ByteString(node.chainCode))
      && Lookup(es, UInt(6)) == Some(origin)
      && Lookup(es, UInt(8)) == Some(UInt(parentFp))
      && Lookup(es, UInt(9)) == Some(TextString("AirGap - meta"))
  {
    TopRecordLayout(node, origin, parentFp);
    var es := TopRecord(node, origin, parentFp).entries;
    assert |es| == 5;
    assert Lookup(es, UInt(3)) == Some(ByteString(node.publicKey)) by {
      LookupAt(es, 0);
    }
    assert Lookup(es, UInt(4)) == Some(ByteString(node.chainCode)) by {
      LookupAt(es, 1);
    }
    assert Lookup(es, UInt(6)) == Some(origin) by {
      LookupAt(es, 2);
    }
    assert Lookup(es, UInt(8)) == Some(UInt(parentFp)) by {
      LookupAt(es, 3);
    }
    assert Lookup(es, UInt(9)) == Some(TextString(MetaLabel)) by {
      LookupAt(es, 4);
    }
  }

  /** Round trip: a record built around a readable origin item reads back as
      the node's key material, that origin, the parent fingerprint and the
      label. */
  lemma RecordRoundTrip(node: Node, origin: Value, ko: KeyOrigin, parentFp: U32)
    requires DecodeOrigin(origin) == Some(ko)
    ensures DecodeRecord(TopRecord(node, origin, parentFp))
      == Some(HdKey(node.publicKey, node.chainCode, ko, parentFp, MetaLabel))
  {
    DecodeFiveEntries(node.publicKey, node.chainCode, origin, ko, parentFp);
  }

  lemma DecodeFiveEntries(pk: seq<Byte>, cc: seq<Byte>, origin: Value, ko: KeyOrigin, parentFp: U32)
    requires DecodeOrigin(origin) == Some(ko)
    ensures DecodeRecord(Map([
      Entry(UInt(3), ByteString(pk)),
      Entry(UInt(4), ByteString(cc)),
      Entry(UInt(6), origin),
      Entry(UInt(8), UInt(parentFp)),
      Entry(UInt(9), TextString("AirGap - meta"))])) == Some(HdKey(pk, cc, ko, parentFp, MetaLabel))
  {
    var es := [
      Entry(UInt(3), ByteString(pk)),
      Entry(UInt(4), ByteString(cc)),
      Entry(UInt(6), origin),
      Entry(UInt(8), UInt(parentFp)),
      Entry(UInt(9), TextString(MetaLabel))];
    assert Keys(es) == [UInt(3), UInt(4), UInt(6), UInt(8), UInt(9)] by {
      assert forall i | 0 <= i < 5 :: Keys(es)[i] == es[i].key;
    }
  }

  /** Which error the handler reports: that of the first step that throws,
      in the order path check, node derivation, parent derivation, master
      override, parent override. */
  lemma GenerateErrors(libs: Libs, master: Node, req: Request)
    ensures var r := Generate(libs, master, req);
      var derived := libs.derivePath(master, req.path);
      var parent := ParentNode(libs, master, ResolveParentPath(req.path, req.parentFrom));
      var mo := U32FromHexBE(req.forceMasterFpHex);
      var po := U32FromHexBE(req.forceParentFpHex);
      && (ParsePath(req.path).Failure? ==> r == Failure(InvalidPathMessage))
      && (ParsePath(req.path).Success? && derived.Failure? ==> r == Failure(derived.error))
      && (ParsePath(req.path).Success? && derived.Success? && parent.Failure? ==> r == Failure(parent.error))
      && (ParsePath(req.path).Success? && derived.Success? && parent.Success? && mo.Failure? ==>
            r == Failure(OverrideMessage))
      && (ParsePath(req.path).Success? && derived.Success? && parent.Success? && mo.Success? && po.Failure? ==>
            r == Failure(OverrideMessage))
  {
  }

  /** Proof helper: names the pieces a successful call is assembled from. */
  lemma GenerateParts(libs: Libs, master: Node, req: Request)
    returns (node: Node, parent: Node, masterFp: U32, parentFp: U32)
    requires Generate(libs, master, req).Success?
    ensures ParsePath(req.path).Success?
    ensures libs.derivePath(master, req.path) == Success(node)
    ensures ParentNode(libs, master, ResolveParentPath(req.path, req.parentFrom)) == Success(parent)
    ensures U32FromHexBE(req.forceMasterFpHex).Success? && U32FromHexBE(req.forceParentFpHex).Success?
    ensures masterFp == ApplyOverride(FingerprintOf(libs, master), U32FromHexBE(req.forceMasterFpHex).value)
    ensures parentFp == ApplyOverride(FingerprintOf(libs, parent), U32FromHexBE(req.forceParentFpHex).value)
    ensures Generate(libs, master, req).value == Response(
      TopRecord(node, OriginValue(ParsePath(req.path).value, masterFp), parentFp),
      req.path, ResolveParentPath(req.path, req.parentFrom), FpHex(masterFp), FpHex(parentFp))
  {
    node := libs.derivePath(master, req.path).value;
    parent := ParentNode(libs, master, ResolveParentPath(req.path, req.parentFrom)).value;
    masterFp := ApplyOverride(FingerprintOf(libs, master), U32FromHexBE(req.forceMasterFpHex).value);
    parentFp := ApplyOverride(FingerprintOf(libs, parent), U32FromHexBE(req.forceParentFpHex).value);
  }

  /** What a successful call returns: the record of the derived node whose
      origin holds the parsed steps, with each fingerprint taken from its
      override when one is given and computed otherwise; and the two hex
      fields, which are the 8-digit renderings of those same fingerprints and
      read back as them. */
  lemma GenerateRecord(libs: Libs, master: Node, req: Request)
    returns (node: Node, parent: Node, masterFp: U32, parentFp: U32)
    requires Generate(libs, master, req).Success?
    ensures libs.derivePath(master, req.path) == Success(node)
    ensures ParentNode(libs, master, ResolveParentPath(req.path, req.parentFrom)) == Success(parent)
    ensures U32FromHexBE(req.forceMasterFpHex) in {Success(None), Success(Some(masterFp))}
    ensures U32FromHexBE(req.forceMasterFpHex) == Success(None) ==> masterFp == FingerprintOf(libs, master)
    ensures U32FromHexBE(req.forceParentFpHex) in {Success(None), Success(Some(parentFp))}
    ensures U32FromHexBE(req.forceParentFpHex) == Success(None) ==> parentFp == FingerprintOf(libs, parent)
    ensures var r := Generate(libs, master, req).value;
      && r.path == req.path
      && r.parentPath == ResolveParentPath(req.path, req.parentFrom)
      && DecodeRecord(r.record) == Some(HdKey(node.publicKey, node.chainCode,
           KeyOrigin(ParsePath(req.path).value, masterFp), parentFp, MetaLabel))
      && U32FromHexBE(r.masterFpHex) == Success(Some(masterFp))
      && U32FromHexBE(r.parentFpHex) == Success(Some(parentFp))
      && r.masterFpHex == FpHex(masterFp) && r.parentFpHex == FpHex(parentFp)
  {
    node, parent, masterFp, parentFp := GenerateParts(libs, master, req);
    var steps := ParsePath(req.path).value;
    OriginRoundTrip(steps, masterFp);
    RecordRoundTrip(node, OriginValue(steps, masterFp), KeyOrigin(steps, masterFp), parentFp);
    FpHexRoundTrip(masterFp);
    FpHexRoundTrip(parentFp);
  }

  /** Parent-path resolution against `parsePath`: in `m44h60h` mode the
      parent is `m/44'/60'`, two hardened steps, whatever the requested path;
      otherwise it parses to the requested steps minus the last one, and a
      path of at most one step has parent `m`. */
  lemma ResolveParentPathSteps(path: string, parentFrom: string, steps: seq<Step>)
    requires ParsePath(path) == Success(steps)
    ensures var parentPath := ResolveParentPath(path, parentFrom);
      && (parentFrom == "m44h60h" ==>
            parentPath == "m/44'/60'" && ParsePath(parentPath) == Success([Step(44, true), Step(60, true)]))
      && (parentFrom != "m44h60h" && |steps| >= 1 ==>
            ParsePath(parentPath) == Success(steps[..|steps| - 1]))
      && (parentFrom != "m44h60h" && |steps| <= 1 ==> parentPath == "m")
  {
    if parentFrom == AccountParentMode {
      ParsePathAccountParent();
    } else {
      ParentPathSteps(path, steps);
    }
  }

  /** `parentFrom == 'm44h60h'` with no parent override: the parent
      fingerprint is that of the node derived at `m/44'/60'`. */
  lemma AccountModeParentFingerprint(libs: Libs, master: Node, req: Request)
    requires req.parentFrom == "m44h60h"
    requires Generate(libs, master, req).Success?
    requires U32FromHexBE(req.forceParentFpHex) == Success(None)
    ensures DecodeRecord(Generate(libs, master, req).value.record).Some?
    ensures DecodeRecord(Generate(libs, master, req).value.record).value.parentFingerprint
      == FingerprintOf(libs, libs.derivePath(master, "m/44'/60'").value)
  {
    var node, parent, masterFp, parentFp := GenerateRecord(libs, master, req);
  }

  /** A path of at most one step in the default mode has the master as its
      parent, so without a parent override the parent fingerprint is the
      master's own. */
  lemma RootParentFingerprint(libs: Libs, master: Node, req: Request)
    requires req.parentFrom != "m44h60h"
    requires Generate(libs, master, req).Success?
    requires |ParsePath(req.path).value| <= 1
    requires U32FromHexBE(req.forceParentFpHex) == Success(None)
    ensures DecodeRecord(Generate(libs, master, req).value.record).Some?
    ensures DecodeRecord(Generate(libs, master, req).value.record).value.parentFingerprint
      == FingerprintOf(libs, master)
  {
    var node, parent, masterFp, parentFp := GenerateParts(libs, master, req);
    ParentPathSteps(req.path, ParsePath(req.path).value);
    assert ResolveParentPath(req.path, req.parentFrom) == "m";
    assert parent == master;
    var steps := ParsePath(req.path).value;
    OriginRoundTrip(steps, masterFp);
    RecordRoundTrip(node, OriginValue(steps, masterFp), KeyOrigin(steps, masterFp), parentFp);
  }

  /** A parent path of `m` is served without deriving anything: the result
      does not depend on what `derivePath` would do beyond the requested path. */
  lemma RootParentNeedsNoDerivation(libs: Libs, master: Node, req: Request,
                                    otherDerive: (Node, string) -> Result<Node, string>)
    requires ResolveParentPath(req.path, req.parentFrom) == "m"
    requires otherDerive(master, req.path) == libs.derivePath(master, req.path)
    ensures Generate(libs.(derivePath := otherDerive), master, req) == Generate(libs, master, req)
  {
    var other := libs.(derivePath := otherDerive);
    assert ParentNode(other, master, "m") == ParentNode(libs, master, "m");
    assert forall n :: FingerprintOf(other, n) == FingerprintOf(libs, n);
  }

  /** Changing only the parent override changes only the parent fingerprint:
      the key material, the whole origin, the label, the reported paths and
      the master hex stay. */
  lemma ParentOverrideIsLocal(libs: Libs, master: Node, req: Request, hex: string)
    requires Generate(libs, master, req).Success?
    requires Generate(libs, master, req.(forceParentFpHex := hex)).Success?
    ensures var r1 := Generate(libs, master, req).value;
      var r2 := Generate(libs, master, req.(forceParentFpHex := hex)).value;
      && DecodeRecord(r1.record).Some? && DecodeRecord(r2.record).Some?
      && var k1 := DecodeRecord(r1.record).value;
         var k2 := DecodeRecord(r2.record).value;
         && k1.publicKey == k2.publicKey && k1.chainCode == k2.chainCode
         && k1.origin == k2.origin && k1.name == k2.name
         && r1.path == r2.path && r1.parentPath == r2.parentPath
         && r1.masterFpHex == r2.masterFpHex
  {
    var n1, p1, m1, f1 := GenerateParts(libs, master, req);
    var n2, p2, m2, f2 := GenerateParts(libs, master, req.(forceParentFpHex := hex));
    var steps := ParsePath(req.path).value;
    OriginRoundTrip(steps, m1);
    RecordRoundTrip(n1, OriginValue(steps, m1), KeyOrigin(steps, m1), f1);
    RecordRoundTrip(n1, OriginValue(steps, m1), KeyOrigin(steps, m1), f2);
  }

  /** Changing only the master override changes only the origin's source
      fingerprint: entries 3, 4, 8 and 9, the origin's steps, the reported
      paths and the parent hex stay. */
  lemma MasterOverrideIsLocal(libs: Libs, master: Node, req: Request, hex: string)
    requires Generate(libs, master, req).Success?
    requires Generate(libs, master, req.(forceMasterFpHex := hex)).Success?
    ensures var r1 := Generate(libs, master, req).value;
      var r2 := Generate(libs, master, req.(forceMasterFpHex := hex)).value;
      && DecodeRecord(r1.record).Some? && DecodeRecord(r2.record).Some?
      && var k1 := DecodeRecord(r1.record).value;
         var k2 := DecodeRecord(r2.record).value;
         && k1.publicKey == k2.publicKey && k1.chainCode == k2.chainCode
         && k1.origin.steps == k2.origin.steps
         && k1.parentFingerprint == k2.parentFingerprint && k1.name == k2.name
         && r1.path == r2.path && r1.parentPath == r2.parentPath
         && r1.parentFpHex == r2.parentFpHex
  {
    var n1, p1, m1, f1 := GenerateParts(libs, master, req);
    var n2, p2, m2, f2 := GenerateParts(libs, master, req.(forceMasterFpHex := hex));
    var steps := ParsePath(req.path).value;
    OriginRoundTrip(steps, m1);
    OriginRoundTrip(steps, m2);
    RecordRoundTrip(n1, OriginValue(steps, m1), KeyOrigin(steps, m1), f1);
    RecordRoundTrip(n1, OriginValue(steps, m2), KeyOrigin(steps, m2), f1);
  }

  /** An empty body exports the account node `m/44'/60'/0'` with parent
      `m/44'/60'`, both fingerprints computed, when both derivations succeed. */
  lemma DefaultRequestExport(libs: Libs, master: Node)
    requires libs.derivePath(master, "m/44'/60'/0'").Success?
    requires libs.derivePath(master, "m/44'/60'").Success?
    ensures var r := Generate(libs, master, WithDefaults(None));
      var node := libs.derivePath(master, "m/44'/60'/0'").value;
      var parent := libs.derivePath(master, "m/44'/60'").value;
      && r.Success?
      && r.value.path == "m/44'/60'/0'"
      && r.value.parentPath == "m/44'/60'"
      && DecodeRecord(r.value.record) == Some(HdKey(node.publicKey, node.chainCode,
           KeyOrigin([Step(44, true), Step(60, true), Step(0, true)], FingerprintOf(libs, master)),
           FingerprintOf(libs, parent), "AirGap - meta"))
  {
    var req := WithDefaults(None);
    ParsePathDefault();
    DefaultParentPath(req.path);
    assert ResolveParentPath(req.path, req.parentFrom) == AccountParentPath;
    assert U32FromHexBE("") == Success(None);
    var node, parent, masterFp, parentFp := GenerateRecord(libs, master, req);
  }
}
