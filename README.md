# Protobuf dependency verifier (karapace)

This project models karapace's protobuf dependency verifier, from
`karapace/protobuf/dependency.py`. While a schema is parsed, the verifier
collects three lists:

- the type names the schema declares;
- the type references its fields use, each stored as `parent;type`;
- the files it imports.

`verify` then walks the used references in order. Each one is accepted if
any of these holds:

- its name is a hard-coded well-known type;
- its name maps to a known package that is imported;
- its name is declared directly, under its scope, under the outermost part
  of its scope, or with a leading `.`.

The first reference that none of these accepts becomes a failure result:
`type "<name>" is not defined`. `process_one_of` feeds the fields of a
`oneof` into the verifier under the parent `package.parent`.

Files:

- `PyStr.dfy` (module `PyStr`) models the Python `str` builtins karapace's
  verifier relies on, with their exact semantics:
  - `find` and `rfind`, which return -1 when nothing is found;
  - slicing, with negative and out-of-range bounds;
  - `strip()`, with the whitespace set of `str.isspace`.
- `Dependency.dfy` (module `Dependency`) holds:
  - the class `ProtobufDependencyVerifier`, whose three list fields its
    methods append to;
  - `ProcessOneOf`;
  - the specification functions (`UsedEntries`, `SplitUsed`, `Resolved`,
    `FirstUnresolved`, `Verdict`) and the lemmas about them.

The well-known-type tables (`DependenciesHardcoded.index`,
`KnownDependency.index_simple`, `KnownDependency.index`) are passed to
`Verify` as one `KnownTables` value. Their contents are not part of this
model. `KnownPackage` models the `or` between the two map lookups: it uses
the first map's value when that value is a non-empty string, and otherwise
the second map's entry, if any.

## Model

| member | source | states |
|---|---|---|
| Dependency.ProtobufDependencyVerifier.constructor | karapace/protobuf/dependency.py:15-18 | all three lists start empty |
| Dependency.ProtobufDependencyVerifier.AddDeclaredType | karapace/protobuf/dependency.py:20-21 | appends exactly the given name to the declared types; the used types and import paths are unchanged |
| Dependency.ProtobufDependencyVerifier.AddUsedType | karapace/protobuf/dependency.py:23-33 | appends exactly `UsedEntries(parent, elementType)` to the used types; keeps every entry holding a `;`; the declared types and imports are unchanged |
| Dependency.ProtobufDependencyVerifier.AddImport | karapace/protobuf/dependency.py:35-36 | appends exactly the given path to the import paths; the other two lists are unchanged |
| Dependency.KnownPackage | karapace/protobuf/dependency.py:68 | the `or` between the two lookups: a non-empty value in `index_simple` is the package; otherwise (absent or empty) the package is `index`'s entry, and none exactly when `index` has no entry; any package found comes from one of the two maps |
| Dependency.DeclaredIffCandidate | karapace/protobuf/dependency.py:38-50 | `IsTypeDeclared` (a static function, so it depends on its arguments alone) holds exactly when one of the candidate names is in the declared index: the name, `"." + name`, the scoped name when given, the father-child name when given |
| Dependency.ProtobufDependencyVerifier.Verify | karapace/protobuf/dependency.py:52-77 | succeeds iff every used entry resolves, so an empty list succeeds; otherwise reports `type "<T>" is not defined` for the first unresolved entry in list order, where T is the name after its last `;`; changes none of the three lists (it has no `modifies` clause) |
| Dependency.ProcessOneOf | karapace/protobuf/dependency.py:80-83 | appends, field by field in order, the entries `add_used_type` makes for each field under the parent `package.parent`; keeps every entry holding a `;`; the declared types and imports are unchanged |
| Dependency.FailureNamesTextAfterLastDelimiter | karapace/protobuf/dependency.py:55-75 | when every entry holds a `;` (as `add_used_type` and `process_one_of` keep), a failing verdict's message is `type "t" is not defined` for the first unresolved entry `scope;t`, with t exactly the text after its last `;` |
| Dependency.FirstUnresolved | karapace/protobuf/dependency.py:54-75 | none exactly when every entry resolves; otherwise the index of an unresolved entry with every earlier entry resolved |
| Dependency.PlainFieldEntry | karapace/protobuf/dependency.py:32-33 | a field type that does not start with `map<` yields the single entry `parent;type` |
| Dependency.MapFieldEntries | karapace/protobuf/dependency.py:24-31 | `map<K,V>...` with no `,` or `>` in K and no `>` in V yields `parent;K`, then `parent;strip(V)`; K is not stripped |
| Dependency.UnterminatedMapEntries | karapace/protobuf/dependency.py:25-28 | a `map<` type with neither `,` nor `>` follows Python's -1 from `find` and its negative slicing: the key is the type from index 4 without its last character, and the value is the type without its last character, stripped |
| Dependency.SplitJoin | karapace/protobuf/dependency.py:55-63 | for `parent;t` with no `;` in t, the split returns t, the scoped name `parent.t`, and `t` under the part of `parent` before its first `.` (none when `parent` has no `.`) |
| Dependency.SplitUndelimited | karapace/protobuf/dependency.py:55-58 | an entry with no `;` is checked whole, with no scoped or father-child name |
| Dependency.EntryResolved | karapace/protobuf/dependency.py:58-73 | `parent;t` resolves iff any of these holds: t is hard-coded; t's known package is imported; one of t, `.t`, `parent.t` or `t` under the first component of `parent` is declared |
| Dependency.FirstUnresolvedAppend | karapace/protobuf/dependency.py:54-75 | the first unresolved entry of `a + b` is the first of `a`, or, when `a` has none, the first of `b` offset by the length of `a` |
| Dependency.VerdictAppend | karapace/protobuf/dependency.py:52-77 | verifying `a + b` gives `a`'s failure if `a` fails, and otherwise `b`'s verdict |
| Dependency.VerdictMonotone | karapace/protobuf/dependency.py:53-73 | declaring more types or importing more paths never turns a passing verification into a failing one |
| Dependency.VerdictAfterOneOf | karapace/protobuf/dependency.py:80-83 | after `process_one_of`, the verdict is the old verdict if that failed, and otherwise the verdict on the oneof's entries alone |
| PyStr.Find | karapace/protobuf/dependency.py:24 | `str.find`: the lowest index where the substring occurs, or -1 exactly when it occurs nowhere |
| PyStr.FindPrefix | karapace/protobuf/dependency.py:24 | `find(p) == 0` holds exactly when the string starts with p, which is how the model states the `map<` test |
| PyStr.FindChar | karapace/protobuf/dependency.py:25-26 | `str.find` of one character: -1 exactly when the character is absent, otherwise an index holding it with none before it |
| PyStr.FindCharIsFind | karapace/protobuf/dependency.py:25-26 | the one-character search agrees with the general `str.find` on a one-character string |
| PyStr.RFindChar | karapace/protobuf/dependency.py:55 | `str.rfind` of one character: -1 exactly when the character is absent, otherwise an index holding it with none after it |
| PyStr.Slice | karapace/protobuf/dependency.py:27-28 | Python slicing: agrees with the plain slice for in-range bounds, is empty when the bounds cross, and is never longer than the string |
| PyStr.Strip | karapace/protobuf/dependency.py:29 | `str.strip()`: never longer than the string, with no whitespace at either end |
| PyStr.StripSpec | karapace/protobuf/dependency.py:29 | the result of `strip()` is a contiguous part of the string with only whitespace around it, and is empty iff the string is all whitespace |
| PyStr.StripUnpadded | karapace/protobuf/dependency.py:29 | a string with no whitespace at either end is unchanged by `strip()` |

## Left out

- The backup/restore format engine (`karapace.backup.backends.v3`: its
  reader, writer, checksum and verifier) is not part of this model: its
  implementation is outside `karapace/protobuf/dependency.py`. The
  integration test `tests/integration/backup/test_v3_backup.py` runs the
  `karapace_schema_backup` command against a live cluster and also reads
  backup metadata directly with `read_metadata`.
- The REST consumer tests, the backup API unit tests and the test
  configuration dataclasses are left out. They are network, cluster and
  configuration plumbing.
- `karapace.dependency.DependencyVerifierResult` is not part of this model.
  It is modelled as a boolean and an optional message, with no message on
  success.
- `karapace.protobuf.known_dependency` is not part of this model. Its three
  tables are a parameter of `Verify`.
- `karapace.protobuf.one_of_element` is not part of this model. A `oneof`
  and its fields are reduced to the parts the verifier reads: each field's
  `element_type`, plus the names.
- Python strings may hold lone surrogate code points, which Dafny's `char`
  cannot represent. Such strings are not modelled.
