# OpenRAVE JSON writer and environment info, modelled in Dafny

This project models three pieces of OpenRAVE's scene-to-document path.

- **String and URI helpers** (`stringutils.h`):
  - prefix and suffix tests, case-sensitive or case-insensitive;
  - prefix and suffix removal, in place and copying;
  - `ParseURI`, which cuts at the last `#` and then at the first `:`.
- **The JSON writer** (`jsonwriter.cpp`):
  - option parsing from the attribute list;
  - `_CanonicalizeURI`, with the forced-scheme rewrite and the `.dae` to `.json` migration;
  - per-body snapshots taken under a state saver;
  - the `unit`/`bodies` document;
  - the environment overload of `Write`;
  - the fail-soft encrypted output.
- **The environment info** (`environment.cpp`):
  - `Reset`, `operator==` and `operator!=`;
  - the omission rules of `SerializeJSON`;
  - the merge of a full or partial document in `DeserializeJSONWithMapping`. It covers the lookup of existing records, creation, deletion, update and the swap between body and robot records, plus the uint64 parameter updates.

Everything is a pure function over immutable datatypes.

- **Collaborators as parameters.** What the scene supplies is passed in as function-typed parameters:
  - the root-relative file lookup (`RaveInvertFileLookup`);
  - `ExtractInfo`;
  - the loaders and serializers of body records;
  - the encoders;
  - the GPG encryption call;
  - the time conversions.
- **Maps.** A `std::map<std::string, uint64_t>` is a sorted association list (module `OrderedMap`).
- **Pointers.** A body pointer carries an address, so equality compares pointers as the source does. The heap is a parameter of the merge, `next`: an address above every record alive anywhere, including records that copies of earlier infos still hold. A merge allocates from `next` on, at most one address per body element, and a caller advances `next` by that count between merges. So a new record never takes the address of a record that any earlier copy may still hold.

Modules:

- `Wrappers`: `Option` and `Result`.
- `StringUtils`: the helpers of `stringutils.h`.
- `OrderedMap`: the ordered map.
- `Scene`: the info records and body state both sides share.
- `JsonWriter`: the writer.
- `Environment`: the environment info.

## Model

| member | source | states |
|---|---|---|
| StringUtils.RangeEqualMeansMatch | src/libopenrave-core/stringutils.h:43-47 | The element-by-element comparison of two equal-length ranges succeeds exactly when they match at every position, exactly or after lower-casing. |
| StringUtils.StringStartsWith | src/libopenrave-core/stringutils.h:38-49 | False when the input is shorter than the prefix. Otherwise true exactly when the first \|prefix\| characters equal the prefix, exactly or after lower-casing. |
| StringUtils.StringEndsWith | src/libopenrave-core/stringutils.h:52-63 | False when the input is shorter than the suffix. Otherwise true exactly when the last \|suffix\| characters equal the suffix, exactly or after lower-casing. |
| StringUtils.RemovePrefix | src/libopenrave-core/stringutils.h:66-72 | Removes exactly when the prefix test holds. With no match the string is unchanged. With a match the string loses its first \|prefix\| characters, and when case-sensitive the input is the prefix followed by the result. |
| StringUtils.RemoveSuffix | src/libopenrave-core/stringutils.h:75-81 | Removes exactly when the suffix test holds. With no match the string is unchanged. With a match the result is the input's first \|input\|-\|suffix\| characters, and when case-sensitive the input is the result followed by the suffix. |
| StringUtils.RemovePrefixCopy | src/libopenrave-core/stringutils.h:84-89 | The empty string when the prefix does not match, otherwise the text after it. |
| StringUtils.RemoveSuffixCopy | src/libopenrave-core/stringutils.h:92-97 | The empty string when the suffix does not match, otherwise the text before it. |
| StringUtils.CopyAgreesWithInPlace | src/libopenrave-core/stringutils.h:66-97 | The copying overloads return what the in-place ones leave when they remove something, and the empty string otherwise. |
| StringUtils.FindFirst | src/libopenrave-core/stringutils.h:109-110 | No position when the character is absent. Otherwise a position holding it, with no occurrence before it. |
| StringUtils.FindLast | src/libopenrave-core/stringutils.h:103-104 | No position when the character is absent. Otherwise a position holding it, with no occurrence after it. |
| StringUtils.SplitFragment | src/libopenrave-core/stringutils.h:102-107 | Without `#` the input is kept whole and the old fragment stays. Otherwise the input is the remainder, `#` and a fragment that holds no `#`. |
| StringUtils.SplitScheme | src/libopenrave-core/stringutils.h:109-114 | Without `:` the remainder is the path and the old scheme stays. Otherwise the remainder is a scheme holding no `:`, then `:`, then the path. |
| StringUtils.LastSeparatorUnique | src/libopenrave-core/stringutils.h:103-106 | Cutting at a separator that does not occur after it gives a unique split. |
| StringUtils.FirstSeparatorUnique | src/libopenrave-core/stringutils.h:109-113 | Cutting at a separator that does not occur before it gives a unique split. |
| StringUtils.ParseURI | src/libopenrave-core/stringutils.h:100-115 | With neither separator the path is the input and scheme and fragment are untouched. The fragment never holds `#`; a changed scheme never holds `:`. In each case the input is reassembled from the parts. |
| StringUtils.ParseURIRoundTrip | src/libopenrave-core/stringutils.h:102-114 | When a `:` precedes a `#`, scheme + ":" + path + "#" + fragment is the input. |
| StringUtils.ParseURIOfComposed | src/libopenrave-core/stringutils.h:100-115 | Parsing `s:p#f`, with no `:` in `s` and no `#` in `f`, gives back `s`, `p` and `f`. |
| StringUtils.ParseURIOfComposedNoFragment | src/libopenrave-core/stringutils.h:100-115 | Parsing `s:p`, with no `#` in either part and no `:` in `s`, gives back `s` and `p` and leaves the old fragment. |
| JsonWriter.ParseOptions | src/libopenrave-core/jsonparser/jsonwriter.cpp:32-44 | The forced scheme is the value of the last `openravescheme` attribute, or empty if there is none. The hint is on exactly when some `uriHint` attribute has the value "1". |
| JsonWriter.LastWithKey | src/libopenrave-core/jsonparser/jsonwriter.cpp:34-37 | The position of the last attribute with the key, or none exactly when no attribute has it. |
| JsonWriter.FirstWithKey | src/libopenrave-core/jsonparser/jsonwriter.cpp:331-336 | The position of the first attribute with the key, or none exactly when no attribute has it. |
| JsonWriter.EncryptKeyName | src/libopenrave-core/jsonparser/jsonwriter.cpp:331-337 | The value of the first `gpgkey` attribute, or empty if there is none. |
| JsonWriter.FixExtension | src/libopenrave-core/jsonparser/jsonwriter.cpp:177-181 | A path ending in `.dae` (any case) has that ending replaced by `.json`. Other paths are unchanged. The result never ends in `.dae`. |
| JsonWriter.CanonicalParts | src/libopenrave-core/jsonparser/jsonwriter.cpp:163-181 | The fragment is the parsed one. The scheme changes only when a forced scheme is set, the parsed scheme is `file` and the lookup succeeds; then the scheme is the forced one and the path is "/" + the looked-up name. The path always gets the extension fix. |
| JsonWriter.CanonicalizeURI | src/libopenrave-core/jsonparser/jsonwriter.cpp:158-188 | The empty URI maps to itself. Otherwise the result is scheme + ":" + path, followed by "#" + fragment exactly when the fragment is non-empty. |
| JsonWriter.CanonicalizeReparses | src/libopenrave-core/jsonparser/jsonwriter.cpp:158-188 | The canonical URI parses back into its canonical parts, when the forced scheme has no `:` and a fragment-less result hides no `#`. |
| JsonWriter.CanonicalizeIdempotent | src/libopenrave-core/jsonparser/jsonwriter.cpp:158-188 | Under those conditions, plus a forced scheme other than `file` that a `file` input either takes or has empty, canonicalizing twice equals canonicalizing once. |
| JsonWriter.TrailingHashDropped | src/libopenrave-core/jsonparser/jsonwriter.cpp:183-187 | `x#y:z#` canonicalizes to `x#y:z`: the empty fragment after the trailing `#` is dropped. |
| JsonWriter.HashBecomesSeparator | src/libopenrave-core/jsonparser/jsonwriter.cpp:158-188 | `x#y:z` canonicalizes to `:x#y:z`: the remaining `#` becomes the fragment separator. |
| JsonWriter.TrailingHashBreaksIdempotence | src/libopenrave-core/jsonparser/jsonwriter.cpp:158-188 | For such inputs the second canonicalization differs from the first. |
| JsonWriter.CanonicalizeWithoutForcedScheme | src/libopenrave-core/jsonparser/jsonwriter.cpp:158-188 | With no forced scheme, a fragment-free `scheme:path` keeps its scheme and path, and only the extension is fixed. |
| Scene.JointOfDof | src/libopenrave-core/jsonparser/jsonwriter.cpp:119-121 | The joint found owns the DOF. No joint is found only when no joint owns it. |
| JsonWriter.ZeroPose | src/libopenrave-core/jsonparser/jsonwriter.cpp:89-92 | Every DOF is 0, the root is at the identity, and nothing but the state differs from the body. |
| JsonWriter.CanonicalizeConnected | src/libopenrave-core/jsonparser/jsonwriter.cpp:104-106 | Each connected body keeps its name and has its URI canonicalized. |
| JsonWriter.CanonicalInfo | src/libopenrave-core/jsonparser/jsonwriter.cpp:94-108 | The record is a robot record exactly for robots. The extracted info has its reference URI canonicalized, and a robot's connected-body URIs are canonicalized too. |
| JsonWriter.DofEntry | src/libopenrave-core/jsonparser/jsonwriter.cpp:117-124 | The entry of DOF `i` has its value, the name of a joint owning it, and a non-negative axis equal to `i` minus that joint's first DOF index. |
| JsonWriter.DofValues | src/libopenrave-core/jsonparser/jsonwriter.cpp:111-128 | One entry per DOF, in DOF order. |
| JsonWriter.JointAxisInRange | src/libopenrave-core/jsonparser/jsonwriter.cpp:119-121 | Each axis is below the DOF count of its joint. |
| JsonWriter.DofValuesExample | src/libopenrave-core/jsonparser/jsonwriter.cpp:111-128 | A one-DOF joint followed by a two-DOF joint gives three entries with axes 0, 0, 1 and the owning joints' names. |
| JsonWriter.SnapshotBody | src/libopenrave-core/jsonparser/jsonwriter.cpp:83-144 | The info is extracted from the zeroed pose. DOF values and transform are the pre-write state. `dofValues` is absent exactly for zero DOFs and `grabbed` exactly for no grabs. Only robots pass the URI hint to their info. The body is restored unchanged. |
| JsonWriter.SnapshotAll | src/libopenrave-core/jsonparser/jsonwriter.cpp:76-150 | Exactly one record per body, in input order; no record is filtered out. Every body is left as it was. |
| JsonWriter.WriteBodies | src/libopenrave-core/jsonparser/jsonwriter.cpp:69-156 | No bodies give an empty document. Otherwise `unit` is the environment's and `bodies` holds one snapshot per body in order. The bodies are returned unchanged. |
| JsonWriter.WriteEnvironment | src/libopenrave-core/jsonparser/jsonwriter.cpp:49-55 | The environment info serialized, each live body record serialized with the writer's hint option. |
| JsonWriter.WriteEncryptedStream | src/libopenrave-core/jsonparser/jsonwriter.cpp:329-357 | When encryption with the first `gpgkey` succeeds, the stream gains exactly the ciphertext. Otherwise the stream is unchanged and the failure message is logged. |
| JsonWriter.WriteEncryptedBodies | src/libopenrave-core/jsonparser/jsonwriter.cpp:359-387 | End to end for a body list: the document written from the same attributes is encoded and encrypted, and the stream changes only on success. |
| OrderedMap.Assign | src/libopenrave/environment.cpp:173 | `map[key] = value` keeps the keys sorted and updates the key/value view at that key only. |
| OrderedMap.Erase | src/libopenrave/environment.cpp:170 | `erase(key)` keeps the keys sorted and removes only that key from the view. |
| OrderedMap.SortedExtensional | src/libopenrave/environment.cpp:78-84 | Two sorted lists with the same key/value view are equal, so the serialized parameter order depends on the map contents alone. |
| Environment.Reset | src/libopenrave/environment.cpp:46-55 | Bodies, description, keywords, URIs emptied; revision 0; default gravity. Unit, parameters and modification time are kept. |
| Environment.EqualsIsEquivalence | src/libopenrave/environment.cpp:29-44 | `operator==` is reflexive, symmetric and transitive, and `operator!=` is its negation. |
| Environment.ResetMakesEqual | src/libopenrave/environment.cpp:29-55 | Any two reset infos compare equal. |
| Environment.ResetIdempotent | src/libopenrave/environment.cpp:46-55 | Resetting twice is resetting once. |
| Environment.EqualsIgnoresUnit | src/libopenrave/environment.cpp:29-39 | Changing the unit, the parameters or the modification time keeps an info equal. |
| Environment.EqualsComparesPointers | src/libopenrave/environment.cpp:29-39 | Replacing the record behind a body pointer keeps an info equal: bodies compare by pointer. |
| Environment.IfNonEmpty | src/libopenrave/environment.cpp:63-73 | A string member is present exactly when non-empty, and then holds the string. |
| Environment.LiveInfos | src/libopenrave/environment.cpp:92-99 | One record per non-null pointer and no other: the record of the pointer at index `i` sits at the position equal to the number of non-null pointers before `i`, so every live record appears, in list order, and nulls are skipped. |
| Environment.ParamRecords | src/libopenrave/environment.cpp:78-84 | One record per parameter, in map order, so ids appear strictly increasing. |
| Environment.SerializeJSON | src/libopenrave/environment.cpp:57-107 | Keywords, unit, gravity and time always written. Description and URIs only when non-empty, parameters only when there are some. `bodies` exactly when the list is non-empty, holding the live records in order. |
| Environment.NullBodiesGiveEmptyArray | src/libopenrave/environment.cpp:88-101 | A non-empty list of nulls is written as an empty `bodies` array, not omitted. |
| Environment.ApplyParam | src/libopenrave/environment.cpp:160-173 | Ignored without a non-empty id. `__deleted__` removes the key. Otherwise the key is set to the value, or, without one, keeps its value or becomes 0. Other keys are unchanged and the map stays sorted. |
| Environment.ApplyParamOtherKey | src/libopenrave/environment.cpp:160-173 | An element leaves the value, or absence, of every key it does not name, and of the empty key, unchanged. |
| Environment.ApplyParamOwnKey | src/libopenrave/environment.cpp:168-173 | An element naming a non-empty key with `__deleted__` leaves the key absent. Otherwise the key holds the element's value or, without one, its old value, 0 if it had none. |
| Environment.ApplyParams | src/libopenrave/environment.cpp:158-175 | The map stays sorted, and elements without ids change nothing. |
| Environment.ApplyParamsSnoc | src/libopenrave/environment.cpp:159-174 | The loop over a list with one more element is the loop followed by that element. |
| Environment.ApplyParamsEffect | src/libopenrave/environment.cpp:158-175 | Per key: the empty key, and a key no element names, keeps its value or absence. Otherwise the last element naming the key decides: `__deleted__` leaves it absent; otherwise it holds that element's value or, without a value, what the key held just before that element, 0 if nothing. |
| Environment.ApplyNamedParam | src/libopenrave/environment.cpp:173 | A named, non-deleted element with a value sets exactly that key. |
| Environment.ApplyParamInputs | src/libopenrave/environment.cpp:158-175 | Loading a sorted list of named parameters overrides the map with exactly those entries. |
| Environment.FirstMatching | src/libopenrave/environment.cpp:195-200 | The first record whose id (or name) equals the key, or none when no record has it. |
| Environment.FindExisting | src/libopenrave/environment.cpp:186-213 | A non-negative mapping entry decides: below the length it is the match, at the length no match, past it an error. Otherwise a non-empty id matches the first equal id. Otherwise a string name matches the first equal name. Otherwise no match. |
| Environment.Retyped | src/libopenrave/environment.cpp:247-256 | A record changed to the other kind keeps its base part. A body turned robot gets the default robot extras; a robot turned body loses its extras. A record of the right kind is untouched. |
| Environment.Load | src/libopenrave/environment.cpp:257 | Loading keeps the record's kind. A body record goes through the body loader; a robot record goes through the robot loader, from its base part and its extras. |
| Environment.Created | src/libopenrave/environment.cpp:226-238 | A created record has the requested kind. A body is the body loader applied to a default record; a robot is the robot loader applied to a default record with default extras. Either way the id is then set to the input's id. |
| Environment.Updated | src/libopenrave/environment.cpp:247-258 | An updated record has the requested kind. The loader of that kind starts from the old record's base part, and from its extras when it was already a robot, else from default extras. The id is then set to the input's id. |
| Environment.RequestedKind | src/libopenrave/environment.cpp:215-223 | The input's `isRobot` when present. Otherwise the kind of the matched record, or body when nothing matched. |
| Environment.MergeBody | src/libopenrave/environment.cpp:215-295 | Unmatched: delete is a no-op, and a record is appended only if it has a name. Matched: delete removes exactly that record; an update changes only that record, which gets the input id and keeps its pointer when its kind stays. A created or retyped record gets the given new address, and no other new address appears. No nulls or shared pointers appear. |
| Environment.MergeBodies | src/libopenrave/environment.cpp:177-297 | The loop keeps the list free of nulls and shared pointers and adds at most one record per element. Without deletions it never shrinks; without a mapping it never fails. Every address in the result is an original one or a new one handed out by this loop. |
| Environment.DeserializeJSONWithMapping | src/libopenrave/environment.cpp:115-298 | A non-object is rejected. Each scalar member present replaces its field, and `modifiedAt` sets the time through the parser; absent members keep their fields. Present parameters are the parameter loop applied to the old ones. Present bodies are the body loop's result, and a failure of that loop is the merge's failure; without `bodies` the merge of an object always succeeds, whatever the mapping. Parameters stay sorted and the body list well formed. Every body address is an original one or one handed out from `next` on, and all lie below `next` plus the number of body elements. |
| Environment.DeserializeJSON | src/libopenrave/environment.cpp:109-113 | Without a mapping the merge fails exactly on a non-object. Every body address of the result is an original one or one handed out from `next` on, below `next` plus the number of body elements. |
| Environment.EmptyDiffChangesNothing | src/libopenrave/environment.cpp:121-175 | An object with no members leaves the info as it was. |
| Environment.DeleteThenCreateIsNotEqual | src/libopenrave/environment.cpp:29-31 | Deleting the only body and creating another in one diff gives the new record an address the deleted one never had, so the merged info is not equal to the original. |
| Environment.DeleteThenCreateDiff | src/libopenrave/environment.cpp:224-246 | A diff deleting the only body by id and then creating a named one leaves exactly the new record, at the second address handed out, with every other field as it was. |
| Environment.DeleteOnlyDiff | src/libopenrave/environment.cpp:240-246 | A diff whose only member deletes the only body by id leaves an empty body list and every other field as it was. |
| Environment.CreateOnlyDiff | src/libopenrave/environment.cpp:224-238 | A diff whose only member creates a named body in an empty list appends that record at the allocator's address. |
| Environment.MergesNeverReuseAddresses | src/libopenrave/environment.cpp:29-31 | Over two merges, with the allocator advanced by the first merge's element count in between, an address the second result points at that the first did not is no address of the info from before both merges. A record an old copy still holds therefore never compares as the same pointer as one the second merge created. |
| Environment.DeleteById | src/libopenrave/environment.cpp:242-246 | A deleting element carrying the id of an existing record removes the first record with that id and nothing else. |
| Environment.ReloadedParams | src/libopenrave/environment.cpp:75-85 | The parameter elements written for a sorted list of named entries, loaded into an empty map, give exactly that list back. |
| Environment.SerializeThenDeserialize | src/libopenrave/environment.cpp:57-175 | Writing a body-less info and loading the document into a reset, parameter-free info gives the info back. The revision becomes 0 because it is not written; the time passes through its text form. |

## Left out

- `DecomposeURI` (stringutils.cpp) is a single regular-expression match in a foreign library and is not part of this model.
- msgpack encoding, the GPG library and the file, stream and memory entry points (`RaveWriteJSON*`, `RaveWriteMsgPack*`, `RaveWriteEncryptedFile`/`Memory`). They are byte plumbing. The encoders and `GpgEncrypt` are function parameters returning bytes or failure.
- The environment overload of `RaveWriteEncryptedStream` (jsonwriter.cpp:329-357) is covered by `JsonWriter.WriteEncryptedStream`, which takes the rendering as a parameter. Only the body-list overload is composed end to end.
- The scene itself: `ExtractInfo`, `SerializeJSON`/`DeserializeJSON` of body, robot and grabbed records, `RaveInvertFileLookup` and the state saver's internals. They are parameters; the saver is a captured state that is put back.
- `modifiedAt` text: `strftime`/`strptime`/`localtime` depend on locale and clock. They are the `formatTime`/`parseTime` parameters.
- Logging, apart from the encryption failure message.
- `std::tolower` locale behaviour: case folding is ASCII lower-casing.
- `dReal` values and transforms are carried as `real` and never computed with.
- The `BOOST_ASSERT` that all bodies share an environment is a precondition of `JsonWriter.WriteBodies`.
- Aliasing: a record is modified in place behind a pointer, which another info holding the same pointer would observe. Infos here are values, so only the pointer identity (the address) is shared.
- Environment.DeserializeJSONWithMapping: a mapping entry past the end of the list is undefined behaviour in the source. It is modelled as a failure that drops the partial update.
- Environment.DeserializeJSONWithMapping: requires a list without nulls or shared pointers. The source dereferences every record it searches, and the loaders cannot produce nulls.
- Environment.DeserializeJSONWithMapping: a member of the wrong type (for instance a string `revision`) makes `LoadJsonValueByKey` throw after the earlier fields were already assigned, leaving the update half applied. Members are typed in the input datatype, so this path is not represented.
- JsonWriter.SnapshotBody: `ExtractInfo` and the body serializer are total functions here. The source path where they throw inside the state saver's scope is not modelled; there the saver's destructor still restores the body and the exception propagates.
- Environment.DeserializeJSONWithMapping: a `bodies` or `uint64Parameters` member that is not an array, and a parameter element that is not an object, are not represented. The input datatype has no such values.
- Environment.ApplyParam: assumes `LoadJsonValueByKey` assigns only when the member is present. Its source is not part of this model.
- Environment.ApplyParams: its own contract states only sortedness and that nameless elements change nothing. The per-key effect of the loop is stated by `Environment.ApplyParamsEffect`.
- Environment.MergeBodies: states well-formedness and length bounds for the whole loop. The per-element behaviour is stated by `Environment.MergeBody`.
- JsonWriter.CanonicalizeIdempotent: idempotence is proved only under the stated conditions. In general it does not hold (see `JsonWriter.TrailingHashBreaksIdempotence`): `a#b:c#` becomes `a#b:c`, which becomes `:a#b:c`.

## Notes on the source

- **Idempotence.** Canonicalizing a URI twice is not in general the same as canonicalizing it once: an empty fragment after a trailing `#` is dropped, and an earlier `#` then acts as the separator. A second case: with a forced scheme, a `file` URI whose `.dae` path the lookup does not know but whose `.json` path it does is first only renamed (`file:/x.dae` to `file:/x.json`) and then rewritten to the forced scheme on the second pass. The model follows the code.
- **Mapping entry at the length.** A mapping entry equal to the list length points at `end()`, which the merge reads as "no match" and may answer by creating a record.
- **No body is filtered.** Every body object the writer builds has a `transform`, so the `MemberCount() > 0` filter never drops one.
- **Sticky URI hint.** Once a `uriHint` attribute of "1" is seen, a later `uriHint` with another value does not switch it off.
- **Fields outside equality.** `Reset` keeps the unit, the parameters and the modification time, and `operator==` ignores them.
- **Id overwrite.** An element matched by name gets its id overwritten with the input's empty id.
- **Lost parameters.** A parameter with an empty id is written out but ignored when read back.
