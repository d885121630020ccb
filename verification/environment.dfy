/**
  `EnvironmentBase::EnvironmentBaseInfo`: the serializable description of an
  environment, with its reset, its equality, its JSON document, and the merge
  of a full or partial JSON document into an existing info.

  The body list holds shared pointers in the source. A pointer is modelled by
  an address next to the record it points to, so that equality can compare
  pointers as `std::vector<shared_ptr>::operator==` does. The loaders of body
  and robot records, the body serializer and the time conversions are
  parameters.
 */
module Environment {
  import opened Wrappers
  import opened Scene
  import opened OrderedMap

  /** The value type of the uint64 parameters. */
  type UInt64 = x: int | 0 <= x < 0x1_0000_0000_0000_0000

  datatype Vector = Vector(x: real, y: real, z: real)

  /** The gravity a fresh or reset environment has. */
  const DefaultGravity := Vector(0.0, 0.0, -9.797930195020351)

  /** A `KinBodyInfoPtr`: null, or the address of a record and the record itself. */
  datatype BodyPtr = Null | Ptr(addr: nat, info: BodyInfo)

  datatype EnvironmentInfo = EnvironmentInfo(
    bodies: seq<BodyPtr>,
    revision: int,
    description: string,
    keywords: seq<string>,
    gravity: Vector,
    uri: string,
    referenceUri: string,
    unit: (string, real),
    uint64Parameters: Entries<UInt64>,
    lastModified: int)

  // ---------------------------------------------------------------------------
  // Reset and equality
  // ---------------------------------------------------------------------------

  /** `Reset`: clears the document fields and the bodies; unit, parameters and modification time stay. */
  function Reset(e: EnvironmentInfo): (r: EnvironmentInfo)
    ensures r.bodies == [] && r.revision == 0 && r.gravity == DefaultGravity
    ensures r.description == [] && r.keywords == [] && r.uri == [] && r.referenceUri == []
    ensures r.unit == e.unit && r.uint64Parameters == e.uint64Parameters && r.lastModified == e.lastModified
  {
    e.(description := [], keywords := [], gravity := DefaultGravity, uri := [], referenceUri := [],
       bodies := [], revision := 0)
  }

  /** Two body pointers are equal when both are null or both point at the same address. */
  predicate SamePointer(p: BodyPtr, q: BodyPtr) {
    match p
    case Null => q.Null?
    case Ptr(a, _) => q.Ptr? && q.addr == a
  }

  predicate SameBodies(a: seq<BodyPtr>, b: seq<BodyPtr>) {
    |a| == |b| && forall i :: 0 <= i < |a| ==> SamePointer(a[i], b[i])
  }

  /** `operator==`: pointer-wise bodies and the document fields; unit, parameters and time are not compared. */
  predicate Equals(a: EnvironmentInfo, b: EnvironmentInfo) {
    && SameBodies(a.bodies, b.bodies)
    && a.revision == b.revision
    && a.description == b.description
    && a.keywords == b.keywords
    && a.gravity == b.gravity
    && a.uri == b.uri
    && a.referenceUri == b.referenceUri
  }

  /** `operator!=`. */
  predicate NotEquals(a: EnvironmentInfo, b: EnvironmentInfo)
  {
    !Equals(a, b)
  }

  lemma EqualsIsEquivalence(a: EnvironmentInfo, b: EnvironmentInfo, c: EnvironmentInfo)
    ensures Equals(a, a)
    ensures Equals(a, b) ==> Equals(b, a)
    ensures Equals(a, b) && Equals(b, c) ==> Equals(a, c)
    ensures NotEquals(a, b) <==> !Equals(a, b)
  {
  }

  /** Any two reset infos compare equal, whatever their units, parameters and times. */
  lemma ResetMakesEqual(a: EnvironmentInfo, b: EnvironmentInfo)
    ensures Equals(Reset(a), Reset(b))
  {
  }

  lemma ResetIdempotent(e: EnvironmentInfo)
    ensures Reset(Reset(e)) == Reset(e)
  {
  }

  /** Equality does not see the unit, the uint64 parameters or the modification time. */
  lemma EqualsIgnoresUnit(e: EnvironmentInfo, unit: (string, real), ps: Entries<UInt64>, t: int)
    ensures Equals(e, e.(unit := unit, uint64Parameters := ps, lastModified := t))
  {
  }

  /** Equality compares pointers, not records: replacing the record behind a pointer is invisible to it. */
  lemma EqualsComparesPointers(e: EnvironmentInfo, i: nat, info: BodyInfo)
    requires i < |e.bodies| && e.bodies[i].Ptr?
    ensures Equals(e, e.(bodies := e.bodies[i := Ptr(e.bodies[i].addr, info)]))
  {
  }

  // ---------------------------------------------------------------------------
  // Serialization
  // ---------------------------------------------------------------------------

  datatype ParamRecord = ParamRecord(id: string, value: UInt64)

  /**
    The JSON object `SerializeJSON` writes; an absent member is `None`. `J`
    is whatever a body record serializes to.
   */
  datatype EnvDocument<J> = EnvDocument(
    keywords: seq<string>,
    description: Option<string>,
    unit: (string, real),
    gravity: Vector,
    referenceUri: Option<string>,
    uri: Option<string>,
    uint64Parameters: Option<seq<ParamRecord>>,
    bodies: Option<seq<J>>,
    modifiedAt: string)

  /** A string member written only when it is non-empty. */
  function IfNonEmpty(s: string): (r: Option<string>)
    ensures r.Some? <==> |s| > 0
    ensures r.Some? ==> r.value == s
  {
    if |s| > 0 then Some(s) else None
  }

  /** A body list without nulls. */
  ghost predicate NoNulls(bodies: seq<BodyPtr>) {
    forall i :: 0 <= i < |bodies| ==> bodies[i].Ptr?
  }

  ghost predicate AllNull(bodies: seq<BodyPtr>) {
    forall i :: 0 <= i < |bodies| ==> bodies[i].Null?
  }

  /** The number of non-null pointers in the list. */
  function PtrCount(bodies: seq<BodyPtr>): (r: nat)
    ensures r <= |bodies|
  {
    if |bodies| == 0 then 0
    else PtrCount(bodies[..|bodies| - 1]) + (if bodies[|bodies| - 1].Ptr? then 1 else 0)
  }

  /**
    The records behind the non-null pointers, in list order: the record of
    the pointer at index `i` lands at the position counting the non-null
    pointers before it, and there are exactly as many records as pointers.
   */
  function LiveInfos(bodies: seq<BodyPtr>): (r: seq<BodyInfo>)
    ensures |r| == PtrCount(bodies)
    ensures forall i :: 0 <= i < |bodies| && bodies[i].Ptr? ==>
      PtrCount(bodies[..i]) < |r| && r[PtrCount(bodies[..i])] == bodies[i].info
  {
    if |bodies| == 0 then []
    else
      var n := |bodies| - 1;
      var init := LiveInfos(bodies[..n]);
      assert forall i :: 0 <= i < n ==> bodies[..n][..i] == bodies[..i] && bodies[..n][i] == bodies[i];
      if bodies[n].Ptr? then
        init + [bodies[n].info]
      else
        init
  }

  /** Without nulls, every pointer counts: the records are the list's records, index for index. */
  lemma {:induction false} NoNullsCount(bodies: seq<BodyPtr>)
    requires NoNulls(bodies)
    ensures forall i :: 0 <= i <= |bodies| ==> PtrCount(bodies[..i]) == i
  {
    if |bodies| > 0 {
      var n := |bodies| - 1;
      assert NoNulls(bodies[..n]);
      NoNullsCount(bodies[..n]);
      forall i | 0 <= i <= |bodies| ensures PtrCount(bodies[..i]) == i {
        if i <= n {
          assert bodies[..n][..i] == bodies[..i];
        } else {
          assert bodies[..i] == bodies;
          assert bodies[..i][..n] == bodies[..n];
        }
      }
    }
  }

  /** A list of nulls counts no pointer, so it has no records. */
  lemma {:induction false} AllNullCount(bodies: seq<BodyPtr>)
    requires AllNull(bodies)
    ensures PtrCount(bodies) == 0
  {
    if |bodies| > 0 {
      assert AllNull(bodies[..|bodies| - 1]);
      AllNullCount(bodies[..|bodies| - 1]);
    }
  }

  /** The uint64 parameters in map order, one record per entry. */
  function ParamRecords(m: Entries<UInt64>): (r: seq<ParamRecord>)
    ensures |r| == |m|
    ensures forall i :: 0 <= i < |m| ==> r[i].id == m[i].0 && r[i].value == m[i].1
    ensures Sorted(m) ==> forall i, j :: 0 <= i < j < |r| ==> Less(r[i].id, r[j].id)
  {
    seq(|m|, i requires 0 <= i < |m| => ParamRecord(m[i].0, m[i].1))
  }

  /**
    `SerializeJSON`. Keywords, unit, gravity and the modification time are
    always written. Description, URIs and parameters are written only when
    non-empty. Bodies are written when the list is non-empty, skipping nulls,
    so a list of nulls gives an empty array.
   */
  function SerializeJSON<J>(e: EnvironmentInfo, formatTime: int -> string, serializeBody: BodyInfo -> J): (r: EnvDocument<J>)
    ensures r.keywords == e.keywords && r.unit == e.unit && r.gravity == e.gravity
    ensures r.modifiedAt == formatTime(e.lastModified)
    ensures r.description == IfNonEmpty(e.description)
    ensures r.referenceUri == IfNonEmpty(e.referenceUri) && r.uri == IfNonEmpty(e.uri)
    ensures r.uint64Parameters.Some? <==> |e.uint64Parameters| > 0
    ensures r.uint64Parameters.Some? ==> r.uint64Parameters.value == ParamRecords(e.uint64Parameters)
    ensures r.bodies.Some? <==> |e.bodies| > 0
    ensures r.bodies.Some? ==>
      var live := LiveInfos(e.bodies);
      |r.bodies.value| == |live| && forall i :: 0 <= i < |live| ==> r.bodies.value[i] == serializeBody(live[i])
  {
    var live := LiveInfos(e.bodies);
    EnvDocument(
      e.keywords,
      IfNonEmpty(e.description),
      e.unit,
      e.gravity,
      IfNonEmpty(e.referenceUri),
      IfNonEmpty(e.uri),
      if |e.uint64Parameters| > 0 then Some(ParamRecords(e.uint64Parameters)) else None,
      if |e.bodies| > 0 then Some(seq(|live|, i requires 0 <= i < |live| => serializeBody(live[i]))) else None,
      formatTime(e.lastModified))
  }

  /** A non-empty list of null pointers still produces a `bodies` member, an empty array. */
  lemma NullBodiesGiveEmptyArray<J>(e: EnvironmentInfo, formatTime: int -> string, serializeBody: BodyInfo -> J)
    requires |e.bodies| > 0 && AllNull(e.bodies)
    ensures SerializeJSON(e, formatTime, serializeBody).bodies == Some([])
  {
    AllNullCount(e.bodies);
  }

  // ---------------------------------------------------------------------------
  // The JSON input of the merge
  // ---------------------------------------------------------------------------

  /** An element of `uint64Parameters`; `None` is a missing member. */
  datatype ParamInput = ParamInput(id: Option<string>, deleted: Option<bool>, value: Option<UInt64>)

  /**
    An element of `bodies`: the members the merge reads itself (`name` is
    `None` when missing or not a string) and the rest, read only by the loaders.
   */
  datatype BodyInput = BodyInput(
    id: Option<string>,
    deleted: Option<bool>,
    isRobot: Option<bool>,
    name: Option<string>,
    fields: Details)

  /** The JSON value handed to the merge: either not an object, or an object with optional members. */
  datatype EnvInput =
    | NotObject
    | EnvObject(
        modifiedAt: Option<string>,
        revision: Option<int>,
        unit: Option<(string, real)>,
        keywords: Option<seq<string>>,
        description: Option<string>,
        referenceUri: Option<string>,
        uri: Option<string>,
        gravity: Option<Vector>,
        uint64Parameters: Option<seq<ParamInput>>,
        bodies: Option<seq<BodyInput>>)

  /** `DeserializeJSON` of a `KinBodyInfo` and of a `RobotBaseInfo`, which loads its base part too. */
  datatype Loaders = Loaders(
    loadBody: (KinBodyInfo, BodyInput) -> KinBodyInfo,
    loadRobot: (KinBodyInfo, RobotExtras, BodyInput) -> (KinBodyInfo, RobotExtras))

  const NotObjectMessage := "Passed in JSON is not a valid EnvironmentInfo object"

  const MappingOutOfRangeMessage := "input to body info mapping points past the end of the body list"

  // ---------------------------------------------------------------------------
  // uint64 parameters
  // ---------------------------------------------------------------------------

  /**
    One element of `uint64Parameters`: ignored without a non-empty id, erases
    the key when deleted, and otherwise sets it to the given value; without a
    value the key keeps its value, or is created as 0.
   */
  function ApplyParam(m: Entries<UInt64>, p: ParamInput): (r: Entries<UInt64>)
    requires Sorted(m)
    ensures Sorted(r)
    ensures p.id.GetOr([]) == [] ==> r == m
    ensures p.id.GetOr([]) != [] && p.deleted.GetOr(false) ==> ToMap(r) == ToMap(m) - {p.id.value}
    ensures p.id.GetOr([]) != [] && !p.deleted.GetOr(false) ==>
      var before := ToMap(m);
      var current: UInt64 := if p.id.value in before then before[p.id.value] else 0;
      ToMap(r) == before[p.id.value := p.value.GetOr(current)]
  {
    var id := p.id.GetOr([]);
    if id == [] then m
    else if p.deleted.GetOr(false) then Erase(m, id)
    else
      var zeroed := if id in ToMap(m) then m else Assign(m, id, 0);
      Assign(zeroed, id, p.value.GetOr(ToMap(zeroed)[id]))
  }

  /** The loop over `uint64Parameters`, element by element. */
  function ApplyParams(m: Entries<UInt64>, ps: seq<ParamInput>): (r: Entries<UInt64>)
    requires Sorted(m)
    ensures Sorted(r)
    ensures (forall i :: 0 <= i < |ps| ==> ps[i].id.GetOr([]) == []) ==> r == m
    decreases |ps|
  {
    if |ps| == 0 then m
    else
      assert forall i :: 0 <= i < |ps[1..]| ==> ps[1..][i] == ps[i + 1];
      ApplyParams(ApplyParam(m, ps[0]), ps[1..])
  }

  /** The value a parameter list holds for key `k`, if any. */
  function Lookup(m: Entries<UInt64>, k: string): Option<UInt64> {
    if k in ToMap(m) then Some(ToMap(m)[k]) else None
  }

  /** The index of the last element whose id is `k`. */
  function LastNaming(ps: seq<ParamInput>, k: string): (r: Option<nat>)
    ensures r.Some? ==> r.value < |ps| && ps[r.value].id == Some(k)
    ensures r.Some? ==> forall j :: r.value < j < |ps| ==> ps[j].id != Some(k)
    ensures r.None? ==> forall j :: 0 <= j < |ps| ==> ps[j].id != Some(k)
  {
    if |ps| == 0 then None
    else if ps[|ps| - 1].id == Some(k) then Some(|ps| - 1)
    else LastNaming(ps[..|ps| - 1], k)
  }

  /** The loop applied to a list with one more element at the end. */
  lemma {:induction false} ApplyParamsSnoc(m: Entries<UInt64>, ps: seq<ParamInput>, p: ParamInput)
    requires Sorted(m)
    ensures ApplyParams(m, ps + [p]) == ApplyParam(ApplyParams(m, ps), p)
    decreases |ps|
  {
    if |ps| == 0 {
      assert [p][1..] == [];
    } else {
      assert (ps + [p])[0] == ps[0];
      assert (ps + [p])[1..] == ps[1..] + [p];
      ApplyParamsSnoc(ApplyParam(m, ps[0]), ps[1..], p);
    }
  }

  /** One element leaves every key it does not name as it was. */
  lemma ApplyParamOtherKey(m: Entries<UInt64>, p: ParamInput, k: string)
    requires Sorted(m) && !(p.id == Some(k) && k != [])
    ensures Lookup(ApplyParam(m, p), k) == Lookup(m, k)
  {
  }

  /** One element naming a non-empty key erases it, or sets it to its value or else the current one, 0 if absent. */
  lemma ApplyParamOwnKey(m: Entries<UInt64>, p: ParamInput, k: string)
    requires Sorted(m) && p.id == Some(k) && k != []
    ensures p.deleted.GetOr(false) ==> Lookup(ApplyParam(m, p), k) == None
    ensures !p.deleted.GetOr(false) ==> Lookup(ApplyParam(m, p), k) == Some(p.value.GetOr(Lookup(m, k).GetOr(0)))
  {
  }

  /**
    The effect of the loop on one key. The empty key, and a key no element
    names, keeps its value or its absence. Otherwise the last element naming
    the key decides: deleted leaves the key absent; not deleted sets it to the
    element's value or, without a value, to the value the key had just before
    that element, 0 if it had none.
   */
  lemma {:induction false} ApplyParamsEffect(m: Entries<UInt64>, ps: seq<ParamInput>, k: string)
    requires Sorted(m)
    ensures var r := ApplyParams(m, ps);
      var last := LastNaming(ps, k);
      && (k == [] || last.None? ==> Lookup(r, k) == Lookup(m, k))
      && (k != [] && last.Some? && ps[last.value].deleted.GetOr(false) ==> Lookup(r, k) == None)
      && (k != [] && last.Some? && !ps[last.value].deleted.GetOr(false) ==>
            Lookup(r, k) == Some(ps[last.value].value.GetOr(Lookup(ApplyParams(m, ps[..last.value]), k).GetOr(0))))
    decreases |ps|
  {
    if |ps| > 0 {
      var n := |ps| - 1;
      var pre := ps[..n];
      assert ps == pre + [ps[n]];
      ApplyParamsSnoc(m, pre, ps[n]);
      var mid := ApplyParams(m, pre);
      if ps[n].id == Some(k) && k != [] {
        ApplyParamOwnKey(mid, ps[n], k);
        assert LastNaming(ps, k) == Some(n);
      } else {
        ApplyParamOtherKey(mid, ps[n], k);
        ApplyParamsEffect(m, pre, k);
        var last := LastNaming(ps, k);
        if last.Some? && k != [] {
          assert last == LastNaming(pre, k);
          assert ps[last.value] == pre[last.value];
          assert ps[..last.value] == pre[..last.value];
        }
      }
    }
  }

  /** The elements a parameter list serializes to, read back as input. */
  function ParamInputs(m: Entries<UInt64>): (r: seq<ParamInput>)
    ensures |r| == |m|
    ensures forall i :: 0 <= i < |m| ==> r[i] == ParamInput(Some(m[i].0), None, Some(m[i].1))
  {
    seq(|m|, i requires 0 <= i < |m| => ParamInput(Some(m[i].0), None, Some(m[i].1)))
  }

  /** Every key of a parameter list is non-empty, so none is dropped on loading. */
  ghost predicate NamedKeys(m: Entries<UInt64>) {
    forall i :: 0 <= i < |m| ==> |m[i].0| > 0
  }

  lemma OverrideCommutes<V>(a: map<string, V>, b: map<string, V>, k: string, v: V)
    requires k !in b
    ensures a[k := v] + b == a + b[k := v]
  {
  }

  /** Loading one named, non-deleted parameter with a value sets exactly that key. */
  lemma ApplyNamedParam(acc: Entries<UInt64>, k: string, v: UInt64)
    requires Sorted(acc) && |k| > 0
    ensures ToMap(ApplyParam(acc, ParamInput(Some(k), None, Some(v)))) == ToMap(acc)[k := v]
  {
  }

  /** Loading a sorted list of named parameters onto `acc` overrides `acc` with exactly those entries. */
  lemma {:induction false} ApplyParamInputs(acc: Entries<UInt64>, m: Entries<UInt64>)
    requires Sorted(acc) && Sorted(m) && NamedKeys(m)
    ensures ToMap(ApplyParams(acc, ParamInputs(m))) == ToMap(acc) + ToMap(m)
    decreases |m|
  {
    if |m| > 0 {
      var ps := ParamInputs(m);
      var k, v := m[0].0, m[0].1;
      var tail := m[1..];
      assert ps[0] == ParamInput(Some(k), None, Some(v));
      assert ps[1..] == ParamInputs(tail);
      SortedTail(m);
      AboveNotIn(tail, k);
      assert NamedKeys(tail) by {
        assert forall i :: 0 <= i < |tail| ==> tail[i] == m[i + 1];
      }
      var next := ApplyParam(acc, ps[0]);
      ApplyNamedParam(acc, k, v);
      ApplyParamInputs(next, tail);
      OverrideCommutes(ToMap(acc), ToMap(tail), k, v);
      assert ApplyParams(acc, ps) == ApplyParams(next, ParamInputs(tail));
    }
  }

  // ---------------------------------------------------------------------------
  // Bodies
  // ---------------------------------------------------------------------------

  /** No two non-null pointers share an address. */
  ghost predicate DistinctAddrs(bodies: seq<BodyPtr>) {
    forall i, j :: 0 <= i < j < |bodies| && bodies[i].Ptr? && bodies[j].Ptr? ==> bodies[i].addr != bodies[j].addr
  }

  /** The shape the merge needs and keeps: no nulls and no shared pointers. */
  ghost predicate WellFormed(bodies: seq<BodyPtr>) {
    NoNulls(bodies) && DistinctAddrs(bodies)
  }

  /** Every pointer of the list has an address below `n`. */
  ghost predicate AddrsBelow(bodies: seq<BodyPtr>, n: nat) {
    forall i :: 0 <= i < |bodies| && bodies[i].Ptr? ==> bodies[i].addr < n
  }

  /** The addresses the list points at. */
  ghost function Addrs(bodies: seq<BodyPtr>): set<nat> {
    set i | 0 <= i < |bodies| && bodies[i].Ptr? :: bodies[i].addr
  }

  /** How a body input is matched against an existing record. */
  datatype Key = ById | ByName

  function KeyOf(info: BodyInfo, key: Key): string {
    match key
    case ById => info.base.id
    case ByName => info.base.name
  }

  /** The first record whose id, or name, equals `value`. */
  function FirstMatching(bodies: seq<BodyPtr>, key: Key, value: string): (r: Option<nat>)
    requires NoNulls(bodies)
    ensures r.Some? ==> r.value < |bodies| && KeyOf(bodies[r.value].info, key) == value
    ensures r.Some? ==> forall j :: 0 <= j < r.value ==> KeyOf(bodies[j].info, key) != value
    ensures r.None? ==> forall j :: 0 <= j < |bodies| ==> KeyOf(bodies[j].info, key) != value
  {
    if |bodies| == 0 then None
    else if KeyOf(bodies[0].info, key) == value then Some(0)
    else
      assert forall j :: 0 < j < |bodies| ==> bodies[j] == bodies[1..][j - 1];
      match FirstMatching(bodies[1..], key, value)
      case None => None
      case Some(i) => Some(i + 1)
  }

  function InputId(b: BodyInput): string {
    b.id.GetOr([])
  }

  predicate Deleted(b: BodyInput) {
    b.deleted.GetOr(false)
  }

  /**
    The existing record input `k` refers to: by a non-negative mapping entry
    if there is one, otherwise by a non-empty id, otherwise by a string name.
    A mapping entry equal to the list length denotes the end of the list, no
    match; a larger one is an error.
   */
  function FindExisting(bodies: seq<BodyPtr>, mapping: seq<int>, k: nat, input: BodyInput): (r: Result<Option<nat>, string>)
    requires NoNulls(bodies)
    ensures r.Success? && r.value.Some? ==> r.value.value < |bodies|
    ensures k < |mapping| && mapping[k] >= 0 ==>
      && (mapping[k] < |bodies| ==> r == Success(Some(mapping[k] as nat)))
      && (mapping[k] == |bodies| ==> r == Success(None))
      && (mapping[k] > |bodies| ==> r == Failure(MappingOutOfRangeMessage))
    ensures !(k < |mapping| && mapping[k] >= 0) ==> r.Success?
    ensures !(k < |mapping| && mapping[k] >= 0) && InputId(input) != [] ==>
      r.value == FirstMatching(bodies, ById, InputId(input))
    ensures !(k < |mapping| && mapping[k] >= 0) && InputId(input) == [] && input.name.Some? ==>
      r.value == FirstMatching(bodies, ByName, input.name.value)
    ensures !(k < |mapping| && mapping[k] >= 0) && InputId(input) == [] && input.name.None? ==>
      r.value == None
  {
    if k < |mapping| && mapping[k] >= 0 then
      if mapping[k] < |bodies| then Success(Some(mapping[k] as nat))
      else if mapping[k] == |bodies| then Success(None)
      else Failure(MappingOutOfRangeMessage)
    else if InputId(input) != [] then Success(FirstMatching(bodies, ById, InputId(input)))
    else if input.name.Some? then Success(FirstMatching(bodies, ByName, input.name.value))
    else Success(None)
  }

  /**
    The record converted to the requested kind: a body turned robot keeps its
    base part and gets default robot extras, a robot turned body keeps its
    base part only.
   */
  function Retyped(info: BodyInfo, isRobot: bool): (r: BodyInfo)
    ensures r.IsRobot() == isRobot && r.base == info.base
    ensures info.IsRobot() == isRobot ==> r == info
    ensures isRobot && !info.IsRobot() ==> r.robot == Some(DefaultRobotExtras)
  {
    if isRobot == info.IsRobot() then info
    else if isRobot then BodyInfo(info.base, Some(DefaultRobotExtras))
    else BodyInfo(info.base, None)
  }

  /** Loads the input into the record with the loader of the record's kind. */
  function Load(info: BodyInfo, input: BodyInput, loaders: Loaders): (r: BodyInfo)
    ensures r.IsRobot() == info.IsRobot()
    ensures !info.IsRobot() ==> r.base == loaders.loadBody(info.base, input)
    ensures info.IsRobot() ==> (r.base, r.robot.value) == loaders.loadRobot(info.base, info.robot.value, input)
  {
    match info.robot
    case None => BodyInfo(loaders.loadBody(info.base, input), None)
    case Some(extras) =>
      var (base, ex) := loaders.loadRobot(info.base, extras, input);
      BodyInfo(base, Some(ex))
  }

  function WithId(info: BodyInfo, id: string): (r: BodyInfo)
    ensures r.base.id == id && r.IsRobot() == info.IsRobot()
    ensures r.(base := r.base.(id := info.base.id)) == info
  {
    info.(base := info.base.(id := id))
  }

  /** The record a new input creates: a default record of the requested kind, loaded, given the input id. */
  function Created(input: BodyInput, isRobot: bool, loaders: Loaders): (r: BodyInfo)
    ensures r.IsRobot() == isRobot && r.base.id == InputId(input)
    ensures !isRobot ==> r.base == loaders.loadBody(DefaultKinBodyInfo, input).(id := InputId(input))
    ensures isRobot ==>
      var (base, extras) := loaders.loadRobot(DefaultKinBodyInfo, DefaultRobotExtras, input);
      r.base == base.(id := InputId(input)) && r.robot == Some(extras)
  {
    WithId(Load(Retyped(BodyInfo(DefaultKinBodyInfo, None), isRobot), input, loaders), InputId(input))
  }

  /** The record an update leaves: converted to the requested kind, loaded, given the input id. */
  function Updated(info: BodyInfo, input: BodyInput, isRobot: bool, loaders: Loaders): (r: BodyInfo)
    ensures r.IsRobot() == isRobot && r.base.id == InputId(input)
    ensures !isRobot ==> r.base == loaders.loadBody(info.base, input).(id := InputId(input))
    ensures isRobot ==>
      var extras := if info.IsRobot() then info.robot.value else DefaultRobotExtras;
      var (base, loaded) := loaders.loadRobot(info.base, extras, input);
      r.base == base.(id := InputId(input)) && r.robot == Some(loaded)
  {
    WithId(Load(Retyped(info, isRobot), input, loaders), InputId(input))
  }

  /** The kind the input asks for: its `isRobot` member, defaulting to the matched record's kind, else body. */
  function RequestedKind(bodies: seq<BodyPtr>, found: Option<nat>, input: BodyInput): (r: bool)
    requires NoNulls(bodies)
    requires found.Some? ==> found.value < |bodies|
    ensures input.isRobot.Some? ==> r == input.isRobot.value
    ensures input.isRobot.None? && found.Some? ==> r == bodies[found.value].info.IsRobot()
    ensures input.isRobot.None? && found.None? ==> !r
  {
    input.isRobot.GetOr(found.Some? && bodies[found.value].info.IsRobot())
  }

  /** Appending a pointer at an address above every other keeps the list well formed. */
  lemma AppendPtr(bodies: seq<BodyPtr>, addr: nat, info: BodyInfo)
    requires WellFormed(bodies) && AddrsBelow(bodies, addr)
    ensures var r := bodies + [Ptr(addr, info)];
      && WellFormed(r) && AddrsBelow(r, addr + 1)
      && Addrs(r) == Addrs(bodies) + {addr}
  {
    var r := bodies + [Ptr(addr, info)];
    assert forall j :: 0 <= j < |bodies| ==> r[j] == bodies[j];
    forall a | a in Addrs(r) ensures a in Addrs(bodies) + {addr} {
      var j :| 0 <= j < |r| && r[j].Ptr? && r[j].addr == a;
      if j < |bodies| {
        assert bodies[j] == r[j];
      }
    }
    assert r[|bodies|].addr in Addrs(r);
  }

  /** Erasing one pointer keeps the list well formed and uses no new address. */
  lemma RemovePtr(bodies: seq<BodyPtr>, i: nat, next: nat)
    requires WellFormed(bodies) && AddrsBelow(bodies, next) && i < |bodies|
    ensures var r := bodies[..i] + bodies[i + 1..];
      && WellFormed(r) && AddrsBelow(r, next)
      && Addrs(r) <= Addrs(bodies)
  {
    var r := bodies[..i] + bodies[i + 1..];
    assert forall j :: 0 <= j < |r| ==> r[j] == bodies[if j < i then j else j + 1];
    forall a | a in Addrs(r) ensures a in Addrs(bodies) {
      var j :| 0 <= j < |r| && r[j].Ptr? && r[j].addr == a;
      var j' := if j < i then j else j + 1;
      assert bodies[j'] == r[j];
    }
  }

  /** Replacing one pointer by one at the same address, or at `next`, keeps the list well formed. */
  lemma ReplacePtr(bodies: seq<BodyPtr>, i: nat, next: nat, addr: nat, info: BodyInfo)
    requires WellFormed(bodies) && AddrsBelow(bodies, next) && i < |bodies|
    requires addr == bodies[i].addr || addr == next
    ensures var r := bodies[i := Ptr(addr, info)];
      && WellFormed(r) && AddrsBelow(r, next + 1)
      && forall a :: a in Addrs(r) ==> a in Addrs(bodies) || a == next
  {
    var r := bodies[i := Ptr(addr, info)];
    forall a | a in Addrs(r) ensures a in Addrs(bodies) || a == next {
      var j :| 0 <= j < |r| && r[j].Ptr? && r[j].addr == a;
      if j != i {
        assert bodies[j] == r[j];
      }
    }
  }

  /**
    One element of `bodies`, after its record has been looked up: create,
    delete or update, replacing the record by a new one of the other kind
    when the kind changes. A new record is allocated at address `next`.
   */
  function MergeBody(bodies: seq<BodyPtr>, found: Option<nat>, input: BodyInput, next: nat, loaders: Loaders)
    : (r: seq<BodyPtr>)
    requires WellFormed(bodies) && AddrsBelow(bodies, next)
    requires found.Some? ==> found.value < |bodies|
    ensures WellFormed(r) && AddrsBelow(r, next + 1)
    ensures forall a :: a in Addrs(r) ==> a in Addrs(bodies) || a == next
    ensures |bodies| - 1 <= |r| <= |bodies| + 1
    ensures found.None? && Deleted(input) ==> r == bodies
    ensures found.None? && !Deleted(input) ==>
      var n := Created(input, RequestedKind(bodies, found, input), loaders);
      && (n.base.name == [] ==> r == bodies)
      && (n.base.name != [] ==> |r| == |bodies| + 1 && r[..|bodies|] == bodies && r[|bodies|] == Ptr(next, n))
    ensures found.None? ==> forall j :: |bodies| <= j < |r| ==> r[j].info.base.name != []
    ensures found.Some? && Deleted(input) ==> r == bodies[..found.value] + bodies[found.value + 1..]
    ensures found.Some? && !Deleted(input) ==>
      var i := found.value;
      var isRobot := RequestedKind(bodies, found, input);
      && |r| == |bodies|
      && (forall j :: 0 <= j < |bodies| && j != i ==> r[j] == bodies[j])
      && r[i].info == Updated(bodies[i].info, input, isRobot, loaders)
      && (isRobot == bodies[i].info.IsRobot() ==> r[i].addr == bodies[i].addr)
      && (isRobot != bodies[i].info.IsRobot() ==> r[i].addr == next)
  {
    var isRobot := RequestedKind(bodies, found, input);
    match found
    case None =>
      var n := Created(input, isRobot, loaders);
      if Deleted(input) || n.base.name == [] then bodies
      else
        AppendPtr(bodies, next, n);
        bodies + [Ptr(next, n)]
    case Some(i) =>
      if Deleted(input) then
        RemovePtr(bodies, i, next);
        bodies[..i] + bodies[i + 1..]
      else
        var prev := bodies[i];
        var addr := if isRobot == prev.info.IsRobot() then prev.addr else next;
        var info := Updated(prev.info, input, isRobot, loaders);
        ReplacePtr(bodies, i, next, addr, info);
        bodies[i := Ptr(addr, info)]
  }

  /** No element from `k` on carries `__deleted__`. */
  ghost predicate NoDeletions(inputs: seq<BodyInput>, k: nat) {
    forall j :: k <= j < |inputs| ==> !Deleted(inputs[j])
  }

  /**
    The loop over `bodies` from element `k` on. Each element is looked up in
    the list as the earlier elements left it.
   */
  function MergeBodies(
    bodies: seq<BodyPtr>, inputs: seq<BodyInput>, mapping: seq<int>, k: nat, start: nat, loaders: Loaders)
    : (r: Result<seq<BodyPtr>, string>)
    requires WellFormed(bodies) && k <= |inputs| && AddrsBelow(bodies, start + k)
    ensures r.Success? ==> WellFormed(r.value) && AddrsBelow(r.value, start + |inputs|)
    ensures r.Success? ==> forall a :: a in Addrs(r.value) ==> a in Addrs(bodies) || start + k <= a
    ensures r.Success? ==> |r.value| <= |bodies| + (|inputs| - k)
    ensures r.Success? && NoDeletions(inputs, k) ==> |bodies| <= |r.value|
    ensures |mapping| <= k ==> r.Success?
    decreases |inputs| - k
  {
    if k == |inputs| then Success(bodies)
    else
      match FindExisting(bodies, mapping, k, inputs[k])
      case Failure(msg) => Failure(msg)
      case Success(found) =>
        MergeBodies(MergeBody(bodies, found, inputs[k], start + k, loaders), inputs, mapping, k + 1, start, loaders)
  }

  // ---------------------------------------------------------------------------
  // The merge
  // ---------------------------------------------------------------------------

  /** How many addresses a merge may hand out: one per element of `bodies`. */
  function Allocations(input: EnvInput): nat {
    if input.EnvObject? && input.bodies.Some? then |input.bodies.value| else 0
  }

  /**
    `DeserializeJSONWithMapping`: fails on a value that is not an object;
    otherwise each member present replaces the field, the parameters are
    updated entry by entry and the bodies are merged into the existing list.

    `next` is the allocator's state: an address above every record alive
    anywhere, including those that copies of earlier infos still hold. The
    merge allocates from `next` on, at most `Allocations(input)` addresses,
    so a caller that advances `next` by that much between merges never sees
    an address reused while a record behind it may still be held.
   */
  function DeserializeJSONWithMapping(
    e: EnvironmentInfo, input: EnvInput, mapping: seq<int>, next: nat, parseTime: string -> int, loaders: Loaders)
    : (r: Result<EnvironmentInfo, string>)
    requires Sorted(e.uint64Parameters) && WellFormed(e.bodies) && AddrsBelow(e.bodies, next)
    ensures input.NotObject? ==> r == Failure(NotObjectMessage)
    ensures input.EnvObject? && |mapping| == 0 ==> r.Success?
    ensures input.EnvObject? && input.bodies.None? ==> r.Success?
    ensures r.Success? ==> Sorted(r.value.uint64Parameters) && WellFormed(r.value.bodies)
    ensures r.Success? ==>
      && r.value.revision == input.revision.GetOr(e.revision)
      && r.value.unit == input.unit.GetOr(e.unit)
      && r.value.keywords == input.keywords.GetOr(e.keywords)
      && r.value.description == input.description.GetOr(e.description)
      && r.value.referenceUri == input.referenceUri.GetOr(e.referenceUri)
      && r.value.uri == input.uri.GetOr(e.uri)
      && r.value.gravity == input.gravity.GetOr(e.gravity)
    ensures r.Success? && input.modifiedAt.None? ==> r.value.lastModified == e.lastModified
    ensures r.Success? && input.modifiedAt.Some? ==> r.value.lastModified == parseTime(input.modifiedAt.value)
    ensures r.Success? && input.uint64Parameters.None? ==> r.value.uint64Parameters == e.uint64Parameters
    ensures r.Success? && input.uint64Parameters.Some? ==>
      r.value.uint64Parameters == ApplyParams(e.uint64Parameters, input.uint64Parameters.value)
    ensures r.Success? && input.bodies.None? ==> r.value.bodies == e.bodies
    ensures input.EnvObject? && input.bodies.Some? ==>
      var merged := MergeBodies(e.bodies, input.bodies.value, mapping, 0, next, loaders);
      && (merged.Success? ==> r.Success? && r.value.bodies == merged.value)
      && (merged.Failure? ==> r == Failure(merged.error))
    ensures r.Success? ==> AddrsBelow(r.value.bodies, next + Allocations(input))
    ensures r.Success? ==> forall a :: a in Addrs(r.value.bodies) ==> a in Addrs(e.bodies) || next <= a
  {
    match input
    case NotObject => Failure(NotObjectMessage)
    case EnvObject(_, _, _, _, _, _, _, _, _, _) =>
      var params :=
        if input.uint64Parameters.Some? then ApplyParams(e.uint64Parameters, input.uint64Parameters.value)
        else e.uint64Parameters;
      var fields := e.(
        lastModified := if input.modifiedAt.Some? then parseTime(input.modifiedAt.value) else e.lastModified,
        revision := input.revision.GetOr(e.revision),
        unit := input.unit.GetOr(e.unit),
        keywords := input.keywords.GetOr(e.keywords),
        description := input.description.GetOr(e.description),
        referenceUri := input.referenceUri.GetOr(e.referenceUri),
        uri := input.uri.GetOr(e.uri),
        gravity := input.gravity.GetOr(e.gravity),
        uint64Parameters := params);
      if input.bodies.None? then Success(fields)
      else
        match MergeBodies(e.bodies, input.bodies.value, mapping, 0, next, loaders)
        case Failure(msg) => Failure(msg)
        case Success(bodies) => Success(fields.(bodies := bodies))
  }

  /** `DeserializeJSON`: the merge without an index mapping. */
  function DeserializeJSON(e: EnvironmentInfo, input: EnvInput, next: nat, parseTime: string -> int, loaders: Loaders)
    : (r: Result<EnvironmentInfo, string>)
    requires Sorted(e.uint64Parameters) && WellFormed(e.bodies) && AddrsBelow(e.bodies, next)
    ensures r.Success? <==> input.EnvObject?
    ensures r.Success? ==> Sorted(r.value.uint64Parameters) && WellFormed(r.value.bodies)
    ensures r.Success? ==> AddrsBelow(r.value.bodies, next + Allocations(input))
    ensures r.Success? ==> forall a :: a in Addrs(r.value.bodies) ==> a in Addrs(e.bodies) || next <= a
  {
    DeserializeJSONWithMapping(e, input, [], next, parseTime, loaders)
  }

  /** An object without members changes nothing: a diff that names no field. */
  lemma EmptyDiffChangesNothing(e: EnvironmentInfo, mapping: seq<int>, next: nat, parseTime: string -> int, loaders: Loaders)
    requires Sorted(e.uint64Parameters) && WellFormed(e.bodies) && AddrsBelow(e.bodies, next)
    ensures DeserializeJSONWithMapping(e, EnvObject(None, None, None, None, None, None, None, None, None, None),
                                       mapping, next, parseTime, loaders) == Success(e)
  {
  }

  /**
    A single deleting element with the id of an existing record removes that
    record, the first with the id, and nothing else.
   */
  lemma DeleteById(e: EnvironmentInfo, i: nat, input: BodyInput, next: nat, parseTime: string -> int, loaders: Loaders)
    requires Sorted(e.uint64Parameters) && WellFormed(e.bodies) && AddrsBelow(e.bodies, next)
    requires i < |e.bodies| && input.id == Some(e.bodies[i].info.base.id) && e.bodies[i].info.base.id != []
    requires forall j :: 0 <= j < i ==> e.bodies[j].info.base.id != e.bodies[i].info.base.id
    requires input.deleted == Some(true)
    ensures var diff := EnvObject(None, None, None, None, None, None, None, None, None, Some([input]));
      DeserializeJSON(e, diff, next, parseTime, loaders) == Success(e.(bodies := e.bodies[..i] + e.bodies[i + 1..]))
  {
    var found := FindExisting(e.bodies, [], 0, input);
    assert found == Success(Some(i));
    var once := MergeBody(e.bodies, Some(i), input, next, loaders);
    assert MergeBodies(e.bodies, [input], [], 0, next, loaders) == MergeBodies(once, [input], [], 1, next, loaders);
  }

  /** The body loop over a deletion of the only record followed by a creation. */
  lemma {:induction false} DeleteThenCreateMerge(bodies: seq<BodyPtr>, del: BodyInput, add: BodyInput, start: nat, loaders: Loaders)
    requires |bodies| == 1 && bodies[0].Ptr? && AddrsBelow(bodies, start)
    requires del.id == Some(bodies[0].info.base.id) && bodies[0].info.base.id != [] && del.deleted == Some(true)
    requires !Deleted(add) && Created(add, add.isRobot.GetOr(false), loaders).base.name != []
    ensures MergeBodies(bodies, [del, add], [], 0, start, loaders)
         == Success([Ptr(start + 1, Created(add, add.isRobot.GetOr(false), loaders))])
  {
    var inputs := [del, add];
    assert FindExisting(bodies, [], 0, inputs[0]) == Success(Some(0));
    var once := MergeBody(bodies, Some(0), del, start, loaders);
    assert once == [];
    assert FindExisting(once, [], 1, inputs[1]) == Success(None);
    var twice := MergeBody(once, None, add, start + 1, loaders);
    assert MergeBodies(bodies, inputs, [], 0, start, loaders) == MergeBodies(once, inputs, [], 1, start, loaders);
    assert MergeBodies(once, inputs, [], 1, start, loaders) == MergeBodies(twice, inputs, [], 2, start, loaders);
  }

  /**
    Deleting the only body and creating another in the same diff allocates
    the new record at an address the deleted one never had, so the merged
    info does not compare equal to the original: the original still holds
    the deleted record's pointer.
   */
  /** The diff deleting the only body and then creating one leaves just the new record, at `next + 1`. */
  lemma {:induction false} DeleteThenCreateDiff(
    e: EnvironmentInfo, del: BodyInput, add: BodyInput, next: nat, parseTime: string -> int, loaders: Loaders)
    requires Sorted(e.uint64Parameters) && |e.bodies| == 1 && e.bodies[0].Ptr? && AddrsBelow(e.bodies, next)
    requires del.id == Some(e.bodies[0].info.base.id) && e.bodies[0].info.base.id != [] && del.deleted == Some(true)
    requires !Deleted(add) && Created(add, add.isRobot.GetOr(false), loaders).base.name != []
    ensures DeserializeJSON(e, EnvObject(None, None, None, None, None, None, None, None, None, Some([del, add])),
                            next, parseTime, loaders)
         == Success(e.(bodies := [Ptr(next + 1, Created(add, add.isRobot.GetOr(false), loaders))]))
  {
    DeleteThenCreateMerge(e.bodies, del, add, next, loaders);
  }

  lemma {:induction false} DeleteThenCreateIsNotEqual(
    e: EnvironmentInfo, del: BodyInput, add: BodyInput, next: nat, parseTime: string -> int, loaders: Loaders)
    requires Sorted(e.uint64Parameters) && |e.bodies| == 1 && e.bodies[0].Ptr? && AddrsBelow(e.bodies, next)
    requires del.id == Some(e.bodies[0].info.base.id) && e.bodies[0].info.base.id != [] && del.deleted == Some(true)
    requires !Deleted(add) && Created(add, add.isRobot.GetOr(false), loaders).base.name != []
    ensures var diff := EnvObject(None, None, None, None, None, None, None, None, None, Some([del, add]));
      var r := DeserializeJSON(e, diff, next, parseTime, loaders);
      && r.Success? && |r.value.bodies| == 1
      && r.value.bodies[0].info == Created(add, add.isRobot.GetOr(false), loaders)
      && r.value.bodies[0].addr != e.bodies[0].addr
      && !Equals(e, r.value)
  {
    DeleteThenCreateDiff(e, del, add, next, parseTime, loaders);
    var e2 := e.(bodies := [Ptr(next + 1, Created(add, add.isRobot.GetOr(false), loaders))]);
    assert !SamePointer(e.bodies[0], e2.bodies[0]);
  }

  /** A diff whose only member deletes the only body empties the body list. */
  lemma {:induction false} DeleteOnlyDiff(e: EnvironmentInfo, del: BodyInput, next: nat, parseTime: string -> int, loaders: Loaders)
    requires Sorted(e.uint64Parameters) && |e.bodies| == 1 && e.bodies[0].Ptr? && AddrsBelow(e.bodies, next)
    requires del.id == Some(e.bodies[0].info.base.id) && e.bodies[0].info.base.id != [] && del.deleted == Some(true)
    ensures DeserializeJSON(e, EnvObject(None, None, None, None, None, None, None, None, None, Some([del])),
                            next, parseTime, loaders) == Success(e.(bodies := []))
  {
    var bodies := e.bodies;
    assert FindExisting(bodies, [], 0, [del][0]) == Success(Some(0));
    var once := MergeBody(bodies, Some(0), del, next, loaders);
    assert once == [];
    assert MergeBodies(bodies, [del], [], 0, next, loaders) == MergeBodies(once, [del], [], 1, next, loaders);
  }

  /** A diff whose only member creates a named body in an empty list allocates it at `next`. */
  lemma {:induction false} CreateOnlyDiff(e: EnvironmentInfo, add: BodyInput, next: nat, parseTime: string -> int, loaders: Loaders)
    requires Sorted(e.uint64Parameters) && e.bodies == []
    requires !Deleted(add) && Created(add, add.isRobot.GetOr(false), loaders).base.name != []
    ensures DeserializeJSON(e, EnvObject(None, None, None, None, None, None, None, None, None, Some([add])),
                            next, parseTime, loaders)
         == Success(e.(bodies := [Ptr(next, Created(add, add.isRobot.GetOr(false), loaders))]))
  {
    assert FindExisting([], [], 0, [add][0]) == Success(None);
    var once := MergeBody([], None, add, next, loaders);
    assert MergeBodies([], [add], [], 0, next, loaders) == MergeBodies(once, [add], [], 1, next, loaders);
  }

  /** Every address a list points at lies below a bound the list is below. */
  lemma AddrsBelowBound(bodies: seq<BodyPtr>, n: nat, a: nat)
    requires AddrsBelow(bodies, n) && a in Addrs(bodies)
    ensures a < n
  {
    var j :| 0 <= j < |bodies| && bodies[j].Ptr? && bodies[j].addr == a;
  }

  /**
    Two successive merges with the allocator advanced in between: an address
    the second result points at that the first did not is no address of the
    info from before both merges, so a record the original still holds is
    never confused with one the second merge created.
   */
  lemma MergesNeverReuseAddresses(
    e0: EnvironmentInfo, first: EnvInput, second: EnvInput, next: nat, parseTime: string -> int, loaders: Loaders)
    requires Sorted(e0.uint64Parameters) && WellFormed(e0.bodies) && AddrsBelow(e0.bodies, next)
    ensures var r1 := DeserializeJSON(e0, first, next, parseTime, loaders);
      r1.Success? ==>
        var r2 := DeserializeJSON(r1.value, second, next + Allocations(first), parseTime, loaders);
        r2.Success? ==>
          forall a :: a in Addrs(r2.value.bodies) && a !in Addrs(r1.value.bodies) ==> a !in Addrs(e0.bodies)
  {
    var r1 := DeserializeJSON(e0, first, next, parseTime, loaders);
    if r1.Success? {
      var r2 := DeserializeJSON(r1.value, second, next + Allocations(first), parseTime, loaders);
      if r2.Success? {
        forall a | a in Addrs(r2.value.bodies) && a !in Addrs(r1.value.bodies)
          ensures a !in Addrs(e0.bodies)
        {
          if a in Addrs(e0.bodies) {
            AddrsBelowBound(e0.bodies, next, a);
          }
        }
      }
    }
  }

  /** Loading the elements a sorted, named parameter list serializes to into an empty map gives the list back. */
  lemma ReloadedParams(ps: Entries<UInt64>)
    requires Sorted(ps) && NamedKeys(ps)
    ensures ApplyParams([], ParamInputs(ps)) == ps
  {
    ApplyParamInputs([], ps);
    assert ToMap<UInt64>([]) + ToMap(ps) == ToMap(ps);
    SortedExtensional(ApplyParams([], ParamInputs(ps)), ps);
  }

  // ---------------------------------------------------------------------------
  // Round trip
  // ---------------------------------------------------------------------------

  /** The document written without bodies, read back as the input of a merge. */
  function DocumentAsInput<J>(d: EnvDocument<J>): (r: EnvInput)
    requires d.bodies.None?
    ensures r.EnvObject? && r.bodies.None? && r.revision.None?
  {
    EnvObject(
      Some(d.modifiedAt),
      None,
      Some(d.unit),
      Some(d.keywords),
      d.description,
      d.referenceUri,
      d.uri,
      Some(d.gravity),
      if d.uint64Parameters.Some? then
        Some(seq(|d.uint64Parameters.value|, i requires 0 <= i < |d.uint64Parameters.value| =>
          ParamInput(Some(d.uint64Parameters.value[i].id), None, Some(d.uint64Parameters.value[i].value))))
      else None,
      None)
  }

  /**
    Writing a body-less info and loading the document into a reset info with
    no parameters gives the info back, except for the revision, which the
    document does not carry, and the time, which goes through its text form.
    Parameters need non-empty keys: the loader drops entries without an id.
   */
  lemma SerializeThenDeserialize<J>(
    e: EnvironmentInfo, t: EnvironmentInfo,
    next: nat, formatTime: int -> string, parseTime: string -> int, serializeBody: BodyInfo -> J, loaders: Loaders)
    requires e.bodies == [] && Sorted(e.uint64Parameters) && NamedKeys(e.uint64Parameters)
    requires t.uint64Parameters == [] && WellFormed(t.bodies)
    ensures var d := SerializeJSON(e, formatTime, serializeBody);
      DeserializeJSON(Reset(t), DocumentAsInput(d), next, parseTime, loaders)
        == Success(e.(revision := 0, lastModified := parseTime(formatTime(e.lastModified))))
  {
    var d := SerializeJSON(e, formatTime, serializeBody);
    var input := DocumentAsInput(d);
    var r := DeserializeJSON(Reset(t), input, next, parseTime, loaders);
    var ps := e.uint64Parameters;
    if |ps| > 0 {
      assert input.uint64Parameters.value == ParamInputs(ps);
      ReloadedParams(ps);
    }
    assert r.value.uint64Parameters == ps;
  }
}
