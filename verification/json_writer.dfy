/**
  `EnvironmentJSONWriter` of src/libopenrave-core/jsonparser/jsonwriter.cpp:
  option parsing from the attribute list, URI canonicalization, the per-body
  snapshot taken under a state saver, document assembly, and the fail-soft
  encrypted output.

  The scene is reached only through `Externals`: the root-relative file
  lookup and the two `ExtractInfo` calls. The encoders and the encryption
  primitive are parameters of the functions that use them.
 */
module JsonWriter {
  import opened Wrappers
  import opened StringUtils
  import opened Scene
  import Environment

  /** The writer's attribute list: key/value string pairs in caller order. */
  type Attributes = seq<(string, string)>

  /**
    The writer's configuration. `uriHint` stands for `_serializeOptions`
    holding `ISO_ReferenceUriHint` rather than 0.
   */
  datatype WriterOptions = WriterOptions(forceScheme: string, uriHint: bool)

  /** Some attribute has this key. */
  ghost predicate HasKey(atts: Attributes, key: string) {
    exists i :: 0 <= i < |atts| && atts[i].0 == key
  }

  /** `atts[i]` is the last attribute with this key. */
  ghost predicate IsLastWithKey(atts: Attributes, key: string, i: int) {
    0 <= i < |atts| && atts[i].0 == key && forall j :: i < j < |atts| ==> atts[j].0 != key
  }

  /** `atts[i]` is the first attribute with this key. */
  ghost predicate IsFirstWithKey(atts: Attributes, key: string, i: int) {
    0 <= i < |atts| && atts[i].0 == key && forall j :: 0 <= j < i ==> atts[j].0 != key
  }

  /** The position of the last attribute with this key, if any. */
  function LastWithKey(atts: Attributes, key: string): (r: Option<nat>)
    ensures r.None? ==> !HasKey(atts, key)
    ensures r.Some? ==> IsLastWithKey(atts, key, r.value)
    decreases |atts|
  {
    if |atts| == 0 then None
    else if atts[|atts| - 1].0 == key then Some(|atts| - 1)
    else
      var init := atts[..|atts| - 1];
      assert forall i :: 0 <= i < |init| ==> init[i] == atts[i];
      LastWithKey(init, key)
  }

  /** The position of the first attribute with this key, if any. */
  function FirstWithKey(atts: Attributes, key: string): (r: Option<nat>)
    ensures r.None? ==> !HasKey(atts, key)
    ensures r.Some? ==> IsFirstWithKey(atts, key, r.value)
    decreases |atts|
  {
    if |atts| == 0 then None
    else if atts[0].0 == key then Some(0)
    else
      assert forall i :: 0 < i < |atts| ==> atts[i] == atts[1..][i - 1];
      match FirstWithKey(atts[1..], key)
      case None => None
      case Some(i) => Some(i + 1)
  }

  /** The value of the attribute at an optional position, or the empty string. */
  function ValueAt(atts: Attributes, i: Option<nat>): string
    requires i.Some? ==> i.value < |atts|
  {
    if i.Some? then atts[i.value].1 else []
  }

  /**
    The constructor's loop over the attributes, as a left fold: each
    `openravescheme` overwrites the forced scheme, and a `uriHint` whose value
    is exactly "1" switches the hint on (nothing switches it off again).
   */
  function ParseOptions(atts: Attributes): (r: WriterOptions)
    ensures r.forceScheme == ValueAt(atts, LastWithKey(atts, "openravescheme"))
    ensures r.uriHint <==> exists i :: 0 <= i < |atts| && atts[i] == ("uriHint", "1")
    decreases |atts|
  {
    if |atts| == 0 then
      WriterOptions([], false)
    else
      var init := atts[..|atts| - 1];
      var prev := ParseOptions(init);
      var last := atts[|atts| - 1];
      assert forall i :: 0 <= i < |init| ==> init[i] == atts[i];
      assert atts == init + [last];
      if last.0 == "openravescheme" then
        prev.(forceScheme := last.1)
      else if last.0 == "uriHint" && last.1 == "1" then
        prev.(uriHint := true)
      else
        prev
  }

  /** The key-name search in `RaveWriteEncryptedStream`: the value of the first `gpgkey` attribute. */
  function EncryptKeyName(atts: Attributes): (r: string)
    ensures !HasKey(atts, "gpgkey") ==> r == []
    ensures HasKey(atts, "gpgkey") ==> exists i :: IsFirstWithKey(atts, "gpgkey", i) && r == atts[i].1
  {
    ValueAt(atts, FirstWithKey(atts, "gpgkey"))
  }

  /** The lookup of `RaveInvertFileLookup`: a path's root-relative form, if it lies under a data root. */
  type FileLookup = string -> Option<string>

  /** The forced-scheme rewrite applies. */
  predicate Rewrites(p: UriParts, forceScheme: string, lookup: FileLookup) {
    |forceScheme| > 0 && p.scheme == "file" && lookup(p.path).Some?
  }

  /** The `.dae` to `.json` migration of a path, matched case-insensitively. */
  function FixExtension(path: string): (r: string)
    ensures StringEndsWith(path, ".dae", true) ==> r == path[..|path| - 4] + ".json"
    ensures !StringEndsWith(path, ".dae", true) ==> r == path
    ensures !StringEndsWith(r, ".dae", true)
  {
    var rm := RemoveSuffix(path, ".dae", true);
    if rm.removed then
      var r := rm.rest + ".json";
      assert r[|r| - 4..] == "json";
      assert ToLower(r[|r| - 4]) != ToLower('.');
      r
    else
      path
  }

  /**
    The three parts `_CanonicalizeURI` reassembles: the parse of the input,
    with the forced scheme and root-relative path when the rewrite applies,
    and the extension fixed in every case.
   */
  function CanonicalParts(uri: string, forceScheme: string, lookup: FileLookup): (r: UriParts)
    ensures var p := ParseURI(uri, [], []);
      && r.fragment == p.fragment
      && (r.scheme != p.scheme ==> Rewrites(p, forceScheme, lookup))
      && (Rewrites(p, forceScheme, lookup) ==>
            r.scheme == forceScheme && r.path == FixExtension("/" + lookup(p.path).value))
      && (!Rewrites(p, forceScheme, lookup) ==> r.scheme == p.scheme && r.path == FixExtension(p.path))
  {
    var p := ParseURI(uri, [], []);
    var (scheme, path) :=
      if Rewrites(p, forceScheme, lookup) then (forceScheme, "/" + lookup(p.path).value) else (p.scheme, p.path);
    UriParts(scheme, FixExtension(path), p.fragment)
  }

  /** `scheme:path`, followed by `#fragment` only when the fragment is non-empty. */
  function ComposeURI(parts: UriParts): string {
    parts.scheme + ":" + parts.path + (if |parts.fragment| > 0 then "#" + parts.fragment else [])
  }

  /** `_CanonicalizeURI`. */
  function CanonicalizeURI(uri: string, forceScheme: string, lookup: FileLookup): (r: string)
    ensures uri == [] ==> r == []
    ensures uri != [] ==>
      var c := CanonicalParts(uri, forceScheme, lookup);
      && (|c.fragment| == 0 ==> r == c.scheme + ":" + c.path)
      && (|c.fragment| > 0 ==> r == c.scheme + ":" + c.path + "#" + c.fragment)
  {
    if uri == [] then uri else ComposeURI(CanonicalParts(uri, forceScheme, lookup))
  }

  /** Parsing with empty defaults never yields a scheme with `:` or a fragment with `#`. */
  lemma ParsedPartsClean(uri: string)
    ensures ':' !in ParseURI(uri, [], []).scheme
    ensures '#' !in ParseURI(uri, [], []).fragment
  {
  }

  /**
    The canonical URI parses back into its canonical parts, provided the
    forced scheme holds no separator and, when there is no fragment, no `#`
    hides in the scheme or path.
   */
  lemma CanonicalizeReparses(uri: string, forceScheme: string, lookup: FileLookup)
    requires uri != []
    requires ':' !in forceScheme
    requires var c := CanonicalParts(uri, forceScheme, lookup);
      |c.fragment| > 0 || ('#' !in c.scheme && '#' !in c.path)
    ensures ParseURI(CanonicalizeURI(uri, forceScheme, lookup), [], []) == CanonicalParts(uri, forceScheme, lookup)
  {
    var c := CanonicalParts(uri, forceScheme, lookup);
    ParsedPartsClean(uri);
    if |c.fragment| > 0 {
      ParseURIOfComposed(c.scheme, c.path, c.fragment, [], []);
    } else {
      ParseURIOfComposedNoFragment(c.scheme, c.path, [], []);
    }
  }

  /**
    Canonicalizing twice gives the same URI as canonicalizing once, when the
    forced scheme is separator-free and not "file", when a "file" input is
    either rewritten or left alone by an empty forced scheme, and when the
    output reparses as in `CanonicalizeReparses`.
   */
  lemma CanonicalizeIdempotent(uri: string, forceScheme: string, lookup: FileLookup)
    requires ':' !in forceScheme && '#' !in forceScheme && forceScheme != "file"
    requires var p := ParseURI(uri, [], []);
      forceScheme == [] || p.scheme != "file" || lookup(p.path).Some?
    requires var c := CanonicalParts(uri, forceScheme, lookup);
      |c.fragment| > 0 || ('#' !in c.scheme && '#' !in c.path)
    ensures CanonicalizeURI(CanonicalizeURI(uri, forceScheme, lookup), forceScheme, lookup)
         == CanonicalizeURI(uri, forceScheme, lookup)
  {
    if uri != [] {
      var c := CanonicalParts(uri, forceScheme, lookup);
      var once := CanonicalizeURI(uri, forceScheme, lookup);
      CanonicalizeReparses(uri, forceScheme, lookup);
      assert once != [];
      assert !Rewrites(c, forceScheme, lookup);
      assert CanonicalParts(once, forceScheme, lookup) == c;
    }
  }

  /**
    A trailing `#` leaves an empty fragment, which the canonical form drops:
    `x#y:z#` parses with scheme `x#y` and becomes `x#y:z`.
   */
  lemma TrailingHashDropped(x: string, y: string, z: string, lookup: FileLookup)
    requires '#' !in x && '#' !in y && '#' !in z
    requires ':' !in x && ':' !in y
    requires !StringEndsWith(z, ".dae", true)
    ensures CanonicalizeURI(x + "#" + y + ":" + z + "#", [], lookup) == x + "#" + y + ":" + z
  {
    var s := x + "#" + y;
    assert ':' !in s;
    assert x + "#" + y + ":" + z + "#" == s + ":" + z + "#" + [];
    ParseURIOfComposed(s, z, [], [], []);
  }

  /**
    Without a trailing `#`, the `#` of `x#y:z` is the fragment separator, so
    the whole of `y:z` becomes the fragment and the scheme is empty.
   */
  lemma HashBecomesSeparator(x: string, y: string, z: string, lookup: FileLookup)
    requires '#' !in x && '#' !in y && '#' !in z
    requires ':' !in x
    requires !StringEndsWith(x, ".dae", true)
    ensures CanonicalizeURI(x + "#" + y + ":" + z, [], lookup) == ":" + x + "#" + y + ":" + z
  {
    var once := x + "#" + y + ":" + z;
    var frag := y + ":" + z;
    assert once == x + "#" + frag;
    var (rest, f) := SplitFragment(once, []);
    LastSeparatorUnique(rest, f, x, frag, '#');
    assert SplitScheme(x, []) == ([], x);
    assert CanonicalParts(once, [], lookup) == UriParts([], x, frag);
    assert [] + ":" + x + "#" + frag == ":" + x + "#" + y + ":" + z;
  }

  /**
    Without the conditions of `CanonicalizeIdempotent` idempotence fails: for
    instance `a#b:c#` becomes `a#b:c`, which in turn becomes `:a#b:c`.
   */
  lemma TrailingHashBreaksIdempotence(x: string, y: string, z: string, lookup: FileLookup)
    requires '#' !in x && '#' !in y && '#' !in z
    requires ':' !in x && ':' !in y
    requires !StringEndsWith(x, ".dae", true) && !StringEndsWith(z, ".dae", true)
    ensures var once := CanonicalizeURI(x + "#" + y + ":" + z + "#", [], lookup);
      CanonicalizeURI(once, [], lookup) != once
  {
    TrailingHashDropped(x, y, z, lookup);
    HashBecomesSeparator(x, y, z, lookup);
  }

  /**
    With no forced scheme, a fragment-free `scheme:path` keeps its scheme and
    path and only has its extension fixed; for example `file:/a/b/model.dae`
    becomes `file:/a/b/model.json`.
   */
  lemma CanonicalizeWithoutForcedScheme(scheme: string, path: string, lookup: FileLookup)
    requires ':' !in scheme && '#' !in scheme && '#' !in path
    ensures CanonicalizeURI(scheme + ":" + path, [], lookup) == scheme + ":" + FixExtension(path)
  {
    ParseURIOfComposedNoFragment(scheme, path, [], []);
  }

  /** A body with every DOF set to zero and the root at the identity pose. */
  function ZeroPose(b: KinBody): (r: KinBody)
    ensures r.Dof() == b.Dof()
    ensures forall i :: 0 <= i < r.Dof() ==> r.state.dofValues[i] == 0.0
    ensures r.state.transform == Identity
    ensures r.(state := b.state) == b
  {
    b.(state := BodyState(seq(b.Dof(), _ => 0.0), Identity))
  }

  /** The scene-side collaborators: the root-relative lookup and `ExtractInfo` for bodies and robots. */
  datatype Externals = Externals(
    invertFileLookup: FileLookup,
    extractBody: KinBody -> KinBodyInfo,
    extractRobot: KinBody -> RobotExtras)

  /** Every connected body's URI canonicalized, nothing else changed. */
  function CanonicalizeConnected(cs: seq<ConnectedBodyInfo>, forceScheme: string, lookup: FileLookup): (r: seq<ConnectedBodyInfo>)
    ensures |r| == |cs|
    ensures forall i :: 0 <= i < |cs| ==>
      r[i].name == cs[i].name && r[i].uri == CanonicalizeURI(cs[i].uri, forceScheme, lookup)
  {
    seq(|cs|, i requires 0 <= i < |cs| => cs[i].(uri := CanonicalizeURI(cs[i].uri, forceScheme, lookup)))
  }

  /**
    The structural info a snapshot records: the body's info with its reference URI
    canonicalized and, for a robot, every connected body's URI as well.
   */
  function CanonicalInfo(b: KinBody, opts: WriterOptions, ext: Externals): (r: BodyInfo)
    ensures r.IsRobot() <==> b.isRobot
    ensures r.base == ext.extractBody(b).(referenceUri :=
      CanonicalizeURI(ext.extractBody(b).referenceUri, opts.forceScheme, ext.invertFileLookup))
    ensures r.IsRobot() ==>
      && r.robot.value.details == ext.extractRobot(b).details
      && r.robot.value.connectedBodies ==
           CanonicalizeConnected(ext.extractRobot(b).connectedBodies, opts.forceScheme, ext.invertFileLookup)
  {
    var info := ext.extractBody(b);
    var base := info.(referenceUri := CanonicalizeURI(info.referenceUri, opts.forceScheme, ext.invertFileLookup));
    if !b.isRobot then
      BodyInfo(base, None)
    else
      var extras := ext.extractRobot(b);
      BodyInfo(base, Some(extras.(connectedBodies :=
        CanonicalizeConnected(extras.connectedBodies, opts.forceScheme, ext.invertFileLookup))))
  }

  /** One `dofValues` entry. */
  datatype DofValue = DofValue(jointName: string, jointAxis: int, value: real)

  /** The `dofValues` entry of DOF `i`: its joint's name, its axis within that joint, its value. */
  function DofEntry(b: KinBody, i: nat): (r: DofValue)
    requires b.DofsCovered() && i < b.Dof()
    ensures r.value == b.state.dofValues[i]
    ensures exists k :: (0 <= k < |b.joints| && b.joints[k].OwnsDof(i)
      && r.jointName == b.joints[k].name && r.jointAxis == i - b.joints[k].dofIndex)
    ensures 0 <= r.jointAxis
  {
    assert b.HasOwner(i);
    var j := JointOfDof(b.joints, i).value;
    DofValue(j.name, i - j.dofIndex, b.state.dofValues[i])
  }

  /** The `dofValues` array: one entry per DOF, in DOF order. */
  function DofValues(b: KinBody): (r: seq<DofValue>)
    requires b.DofsCovered()
    ensures |r| == b.Dof()
    ensures forall i :: 0 <= i < |r| ==> r[i] == DofEntry(b, i)
  {
    seq(b.Dof(), i requires 0 <= i < b.Dof() => DofEntry(b, i))
  }

  /** Within its joint, a DOF's axis lies below the joint's DOF count. */
  lemma JointAxisInRange(b: KinBody, i: nat)
    requires b.DofsCovered() && i < b.Dof()
    ensures DofValues(b)[i].jointAxis < JointOfDof(b.joints, i).value.dof
  {
    assert b.HasOwner(i);
  }

  /** Two joints, of one and of two DOFs: three entries with axes 0, 0 and 1. */
  lemma DofValuesExample(env: EnvRef, t: Transform)
    ensures var b := KinBody(env, false, [Joint("j0", 0, 1), Joint("j1", 1, 2)], BodyState([0.5, 1.5, 2.5], t), []);
      && b.DofsCovered()
      && DofValues(b) == [DofValue("j0", 0, 0.5), DofValue("j1", 0, 1.5), DofValue("j1", 1, 2.5)]
  {
    var b := KinBody(env, false, [Joint("j0", 0, 1), Joint("j1", 1, 2)], BodyState([0.5, 1.5, 2.5], t), []);
    assert b.HasOwner(0) by { assert b.joints[0].OwnsDof(0); }
    assert b.HasOwner(1) by { assert b.joints[1].OwnsDof(1); }
    assert b.HasOwner(2) by { assert b.joints[1].OwnsDof(2); }
    assert b.DofsCovered();
  }

  /** One entry of the `bodies` array. */
  datatype BodyRecord = BodyRecord(
    info: BodyInfo,
    infoUriHint: bool,
    dofValues: Option<seq<DofValue>>,
    transform: Transform,
    grabbed: Option<seq<GrabbedInfo>>,
    grabbedUriHint: bool)

  /**
    The members the writer itself puts in a body object. The info serializer
    may add more, which can only raise the count `MemberCount()` reports.
   */
  function WriterMemberCount(r: BodyRecord): nat {
    (if r.dofValues.Some? then 1 else 0) + 1 + (if r.grabbed.Some? then 1 else 0)
  }

  /**
    The snapshot of one body. The saver captures the state, the body is put
    in its rest pose, its info is extracted, and the saver's scope ends.
    Only then are the DOF values and the transform read.
   */
  function SnapshotBody(b: KinBody, opts: WriterOptions, ext: Externals): (r: (BodyRecord, KinBody))
    requires b.DofsCovered()
    ensures r.1 == b
    ensures r.0.info == CanonicalInfo(ZeroPose(b), opts, ext)
    ensures r.0.infoUriHint <==> b.isRobot && opts.uriHint
    ensures r.0.dofValues.None? <==> b.Dof() == 0
    ensures r.0.dofValues.Some? ==> r.0.dofValues.value == DofValues(b)
    ensures r.0.transform == b.state.transform
    ensures r.0.grabbed.None? <==> |b.grabbed| == 0
    ensures r.0.grabbed.Some? ==> r.0.grabbed.value == b.grabbed
    ensures r.0.grabbedUriHint == opts.uriHint
  {
    var saved := b.state;
    var zeroed := ZeroPose(b);
    var info := CanonicalInfo(zeroed, opts, ext);
    var restored := zeroed.(state := saved);
    var dofs := DofValues(restored);
    var record := BodyRecord(
      info,
      restored.isRobot && opts.uriHint,
      if |dofs| > 0 then Some(dofs) else None,
      restored.state.transform,
      if |restored.grabbed| > 0 then Some(restored.grabbed) else None,
      opts.uriHint);
    (record, restored)
  }

  /**
    The loop over the bodies: snapshot each in order, keep its record when
    it has members. Also returns the bodies as the loop leaves them.
   */
  function SnapshotAll(bodies: seq<KinBody>, opts: WriterOptions, ext: Externals): (r: (seq<BodyRecord>, seq<KinBody>))
    requires forall i :: 0 <= i < |bodies| ==> bodies[i].DofsCovered()
    ensures |r.0| == |bodies|
    ensures forall i :: 0 <= i < |bodies| ==> r.0[i] == SnapshotBody(bodies[i], opts, ext).0
    ensures r.1 == bodies
    decreases |bodies|
  {
    if |bodies| == 0 then
      ([], [])
    else
      var head := SnapshotBody(bodies[0], opts, ext);
      var rest := SnapshotAll(bodies[1..], opts, ext);
      var kept := if WriterMemberCount(head.0) > 0 then [head.0] else [];
      assert kept == [head.0];
      assert forall i :: 0 < i < |bodies| ==> bodies[i] == bodies[1..][i - 1];
      assert [head.1] + rest.1 == bodies;
      var records := kept + rest.0;
      assert forall i :: 0 < i < |bodies| ==> records[i] == rest.0[i - 1];
      (records, [head.1] + rest.1)
  }

  /** The written document: `unit` and `bodies`, each optional. */
  datatype Document = Document(unit: Option<(string, real)>, bodies: Option<seq<BodyRecord>>)

  /** A document, and the bodies as the write leaves them. */
  datatype WriteResult = WriteResult(document: Document, bodies: seq<KinBody>)

  /** All the bodies belong to one environment, the source's `BOOST_ASSERT`. */
  ghost predicate SameEnvironment(bodies: seq<KinBody>) {
    forall i :: 0 <= i < |bodies| ==> bodies[i].env == bodies[0].env
  }

  /** `_Write` over a list of bodies. */
  function WriteBodies(bodies: seq<KinBody>, opts: WriterOptions, ext: Externals): (r: WriteResult)
    requires SameEnvironment(bodies)
    requires forall i :: 0 <= i < |bodies| ==> bodies[i].DofsCovered()
    ensures |bodies| == 0 ==> r.document == Document(None, None)
    ensures |bodies| > 0 ==>
      && r.document.unit == Some(bodies[0].env.unit)
      && r.document.bodies.Some?
      && |r.document.bodies.value| == |bodies|
      && forall i :: 0 <= i < |bodies| ==> r.document.bodies.value[i] == SnapshotBody(bodies[i], opts, ext).0
    ensures r.bodies == bodies
  {
    if |bodies| == 0 then
      WriteResult(Document(None, None), bodies)
    else
      var unit := bodies[0].env.unit;
      var (records, after) := SnapshotAll(bodies, opts, ext);
      WriteResult(Document(Some(unit), if |records| > 0 then Some(records) else None), after)
  }

  /**
    `Write` of a whole environment: the info the environment extracts,
    serialized with the writer's options handed to every body record.
   */
  function WriteEnvironment<J>(
    info: Environment.EnvironmentInfo,
    opts: WriterOptions,
    formatTime: int -> string,
    serializeBody: (BodyInfo, bool) -> J): (r: Environment.EnvDocument<J>)
    ensures r.(bodies := None) == Environment.SerializeJSON(info, formatTime, b => serializeBody(b, false)).(bodies := None)
    ensures r.bodies.Some? <==> |info.bodies| > 0
    ensures r.bodies.Some? ==>
      var live := Environment.LiveInfos(info.bodies);
      |r.bodies.value| == |live| && forall i :: 0 <= i < |live| ==> r.bodies.value[i] == serializeBody(live[i], opts.uriHint)
  {
    Environment.SerializeJSON(info, formatTime, b => serializeBody(b, opts.uriHint))
  }

  /** The two encodings an encrypted write can render. */
  datatype MimeType = JSON | MsgPack

  /** What an encrypted write leaves: the destination's bytes and the diagnostics logged. */
  datatype EncryptedOutput = EncryptedOutput(stream: seq<bv8>, diagnostics: seq<string>)

  const EncryptFailedMessage := "Failed to encrypt file, check GPG keys."

  /**
    `RaveWriteEncryptedStream`: render the document in the requested
    encoding, encrypt it for the first `gpgkey`, and append the ciphertext to
    the destination only if encryption succeeded.
   */
  function WriteEncryptedStream(
    os: seq<bv8>,
    atts: Attributes,
    mimeType: MimeType,
    render: MimeType -> seq<bv8>,
    gpgEncrypt: (seq<bv8>, string) -> Option<seq<bv8>>): (r: EncryptedOutput)
    ensures var cipher := gpgEncrypt(render(mimeType), EncryptKeyName(atts));
      && (cipher.Some? ==> r.stream == os + cipher.value && r.diagnostics == [])
      && (cipher.None? ==> r.stream == os && r.diagnostics == [EncryptFailedMessage])
  {
    var keyName := EncryptKeyName(atts);
    var plain := render(mimeType);
    match gpgEncrypt(plain, keyName)
    case Some(cipher) => EncryptedOutput(os + cipher, [])
    case None => EncryptedOutput(os, [EncryptFailedMessage])
  }

  /**
    The body-list overload of `RaveWriteEncryptedStream`, end to end: the
    writer is built from the same attributes, and the document it writes is
    what gets encoded and encrypted.
   */
  function WriteEncryptedBodies(
    bodies: seq<KinBody>,
    os: seq<bv8>,
    atts: Attributes,
    mimeType: MimeType,
    ext: Externals,
    encode: (MimeType, Document) -> seq<bv8>,
    gpgEncrypt: (seq<bv8>, string) -> Option<seq<bv8>>): (r: EncryptedOutput)
    requires SameEnvironment(bodies)
    requires forall i :: 0 <= i < |bodies| ==> bodies[i].DofsCovered()
    ensures var doc := WriteBodies(bodies, ParseOptions(atts), ext).document;
      var cipher := gpgEncrypt(encode(mimeType, doc), EncryptKeyName(atts));
      && (cipher.Some? ==> r.stream == os + cipher.value)
      && (cipher.None? ==> r.stream == os)
  {
    var doc := WriteBodies(bodies, ParseOptions(atts), ext).document;
    WriteEncryptedStream(os, atts, mimeType, m => encode(m, doc), gpgEncrypt)
  }
}
