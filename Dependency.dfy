/** The protobuf dependency verifier: it collects the type names a schema
    declares, the type references its fields use and the files it imports,
    and then checks that every used reference resolves. */
module Dependency {
  import opened PyStr

  datatype Option<T> = None | Some(value: T)

  /** The verdict: `result` says whether every used type resolved; a
      failure carries the message naming the first type that did not. */
  datatype DependencyVerifierResult = DependencyVerifierResult(result: bool, message: Option<string>)

  /** The lookup tables of well-known types: names accepted without any
      import (`hardcoded`), and two maps from a type name to the package
      (file) that must be imported for it. */
  datatype KnownTables = KnownTables(
    hardcoded: set<string>,
    indexSimple: map<string, string>,
    index: map<string, string>)

  /** A field of a `oneof`, reduced to the parts the verifier reads. */
  datatype FieldElement = FieldElement(name: string, elementType: string)

  /** A `oneof` group and its fields, in declaration order. */
  datatype OneOfElement = OneOfElement(name: string, fields: seq<FieldElement>)

  /** The names `verify` derives from one used-type entry: the type name
      after the last `;`, the same name qualified by the scope before it,
      and the name qualified by the outermost component of that scope. */
  datatype UsedName = UsedName(name: string, withScope: Option<string>, fatherChild: Option<string>)

  /** The key type of `map<K, V>`: from index 4 up to the first `,`, not
      stripped. Python slicing decides what a type without `,` yields. */
  function MapKey(elementType: string): string
  {
    Slice(elementType, 4, FindChar(elementType, ','))
  }

  /** The value type of `map<K, V>`: after the first `,` up to the first
      `>`, stripped. Python slicing decides what a type without `,` or `>`
      yields. */
  function MapValue(elementType: string): string
  {
    Strip(Slice(elementType, FindChar(elementType, ',') + 1, FindChar(elementType, '>')))
  }

  /** The entries `add_used_type` appends for one field type: a `map<K, V>`
      type yields one entry for its key and one for its value type, any
      other type yields one entry. `add_used_type`'s test `find("map<") == 0`
      is `StartsWith` (lemma `FindPrefix`). */
  function UsedEntries(parent: string, elementType: string): seq<string>
  {
    if StartsWith(elementType, "map<") then
      [parent + ";" + MapKey(elementType), parent + ";" + MapValue(elementType)]
    else
      [parent + ";" + elementType]
  }

  /** The entries `process_one_of` appends for the fields of a `oneof`,
      field by field. */
  function OneOfEntries(parent: string, fields: seq<FieldElement>): seq<string>
  {
    if fields == [] then []
    else OneOfEntries(parent, fields[..|fields| - 1]) + UsedEntries(parent, fields[|fields| - 1].elementType)
  }

  /** How `verify` splits one used-type entry at its last `;`. */
  function SplitUsed(entry: string): UsedName
  {
    var delimiter := RFindChar(entry, ';');
    if delimiter != -1 then
      var scope := entry[..delimiter];
      var name := entry[delimiter + 1..];
      var fatherDelimiter := FindChar(scope, '.');
      UsedName(name, Some(scope + "." + name),
               if fatherDelimiter != -1 then Some(entry[..fatherDelimiter] + "." + name) else None)
    else
      UsedName(entry, None, None)
  }

  /** The package a well-known type needs: the first map's entry when it is
      a non-empty string, otherwise whatever the second map holds. */
  function KnownPackage(tables: KnownTables, name: string): (r: Option<string>)
    ensures name in tables.indexSimple && tables.indexSimple[name] != "" ==> r == Some(tables.indexSimple[name])
    ensures (name !in tables.indexSimple || tables.indexSimple[name] == "") && name in tables.index
            ==> r == Some(tables.index[name])
    ensures r.Some? ==> (name in tables.indexSimple && tables.indexSimple[name] == r.value)
                        || (name in tables.index && tables.index[name] == r.value)
    ensures r.None? <==> name !in tables.index && (name !in tables.indexSimple || tables.indexSimple[name] == "")
  {
    if name in tables.indexSimple && tables.indexSimple[name] != "" then Some(tables.indexSimple[name])
    else if name in tables.index then Some(tables.index[name])
    else None
  }

  /** `is_type_declared` holds exactly when one of the candidate names of
      the used type is in the declared index. */
  lemma DeclaredIffCandidate(usedType: string, declaredIndex: set<string>,
                             fatherChildType: Option<string>, usedTypeWithScope: Option<string>)
    ensures ProtobufDependencyVerifier.IsTypeDeclared(usedType, declaredIndex, fatherChildType, usedTypeWithScope)
            <==> exists t :: t in Candidates(usedType, fatherChildType, usedTypeWithScope) && t in declaredIndex
  {
  }

  /** The set of declared names `verify` looks names up in. */
  function DeclaredIndex(declared: seq<string>): set<string>
  {
    set t | t in declared
  }

  /** The names under which a used type counts as declared. */
  function Candidates(usedType: string, fatherChildType: Option<string>, usedTypeWithScope: Option<string>): set<string>
  {
    {usedType, "." + usedType}
    + (if usedTypeWithScope.Some? then {usedTypeWithScope.value} else {})
    + (if fatherChildType.Some? then {fatherChildType.value} else {})
  }

  /** One used-type entry resolves: its name is hard-coded, or maps to a
      known package that is imported, or is declared under one of its
      candidate names. */
  predicate Resolved(entry: string, declaredIndex: set<string>, importPath: seq<string>, tables: KnownTables)
  {
    var u := SplitUsed(entry);
    u.name in tables.hardcoded
    || (KnownPackage(tables, u.name).Some? && KnownPackage(tables, u.name).value in importPath)
    || ProtobufDependencyVerifier.IsTypeDeclared(u.name, declaredIndex, u.fatherChild, u.withScope)
  }

  /** The index of the first `false` in `flags`, if any. */
  function FirstFalse(flags: seq<bool>): (r: Option<nat>)
    ensures r.None? <==> forall i :: 0 <= i < |flags| ==> flags[i]
    ensures r.Some? ==> r.value < |flags| && !flags[r.value]
    ensures r.Some? ==> forall i :: 0 <= i < r.value ==> flags[i]
  {
    if flags == [] then None
    else if !flags[0] then Some(0)
    else
      match FirstFalse(flags[1..])
      case None => None
      case Some(k) => Some(k + 1)
  }

  /** Whether each used entry resolves, in list order. */
  function Resolutions(used: seq<string>, declaredIndex: set<string>, importPath: seq<string>, tables: KnownTables): (r: seq<bool>)
    ensures |r| == |used|
    ensures forall i :: 0 <= i < |used| ==> r[i] == Resolved(used[i], declaredIndex, importPath, tables)
  {
    seq(|used|, i requires 0 <= i < |used| => Resolved(used[i], declaredIndex, importPath, tables))
  }

  /** The index of the first used entry that does not resolve, if any. */
  function FirstUnresolved(used: seq<string>, declaredIndex: set<string>, importPath: seq<string>, tables: KnownTables): (r: Option<nat>)
    ensures r.None? <==> forall i :: 0 <= i < |used| ==> Resolved(used[i], declaredIndex, importPath, tables)
    ensures r.Some? ==> r.value < |used| && !Resolved(used[r.value], declaredIndex, importPath, tables)
    ensures r.Some? ==> forall i :: 0 <= i < r.value ==> Resolved(used[i], declaredIndex, importPath, tables)
  {
    FirstFalse(Resolutions(used, declaredIndex, importPath, tables))
  }

  /** The failure message for an undefined type. */
  function NotDefined(usedType: string): string
  {
    "type \"" + usedType + "\" is not defined"
  }

  /** What `verify` returns for the given lists and tables. */
  function Verdict(used: seq<string>, declared: seq<string>, importPath: seq<string>, tables: KnownTables): DependencyVerifierResult
  {
    match FirstUnresolved(used, DeclaredIndex(declared), importPath, tables)
    case None => DependencyVerifierResult(true, None)
    case Some(i) => DependencyVerifierResult(false, Some(NotDefined(SplitUsed(used[i]).name)))
  }

  /** Every entry holds the `;` that `add_used_type` puts between the parent
      and the type name. */
  predicate Delimited(used: seq<string>)
  {
    forall i :: 0 <= i < |used| ==> ';' in used[i]
  }

  class ProtobufDependencyVerifier {
    var declaredTypes: seq<string>
    var usedTypes: seq<string>
    var importPath: seq<string>

    constructor ()
      ensures declaredTypes == [] && usedTypes == [] && importPath == []
    {
      declaredTypes := [];
      usedTypes := [];
      importPath := [];
    }

    method AddDeclaredType(fullName: string)
      modifies this
      ensures declaredTypes == old(declaredTypes) + [fullName]
      ensures usedTypes == old(usedTypes) && importPath == old(importPath)
    {
      declaredTypes := declaredTypes + [fullName];
    }

    method AddUsedType(parent: string, elementType: string)
      modifies this
      ensures usedTypes == old(usedTypes) + UsedEntries(parent, elementType)
      ensures Delimited(old(usedTypes)) ==> Delimited(usedTypes)
      ensures declaredTypes == old(declaredTypes) && importPath == old(importPath)
    {
      if StartsWith(elementType, "map<") {
        usedTypes := usedTypes + [parent + ";" + MapKey(elementType)];
        usedTypes := usedTypes + [parent + ";" + MapValue(elementType)];
      } else {
        usedTypes := usedTypes + [parent + ";" + elementType];
      }
      EntriesDelimited(parent, elementType);
    }

    method AddImport(importName: string)
      modifies this
      ensures importPath == old(importPath) + [importName]
      ensures declaredTypes == old(declaredTypes) && usedTypes == old(usedTypes)
    {
      importPath := importPath + [importName];
    }

    /** Whether a used type is declared under one of its candidate names;
        static, as it depends on its arguments alone. */
    static function IsTypeDeclared(usedType: string, declaredIndex: set<string>,
                                   fatherChildType: Option<string>, usedTypeWithScope: Option<string>): bool
    {
      usedType in declaredIndex
      || (usedTypeWithScope.Some? && usedTypeWithScope.value in declaredIndex)
      || (fatherChildType.Some? && fatherChildType.value in declaredIndex)
      || "." + usedType in declaredIndex
    }

    /** Checks every used entry in order and reports the first one that
        does not resolve. */
    method Verify(tables: KnownTables) returns (r: DependencyVerifierResult)
      ensures r == Verdict(usedTypes, declaredTypes, importPath, tables)
      ensures r.result <==>
                forall i :: 0 <= i < |usedTypes| ==> Resolved(usedTypes[i], DeclaredIndex(declaredTypes), importPath, tables)
      ensures !r.result ==>
                exists i :: 0 <= i < |usedTypes| && !Resolved(usedTypes[i], DeclaredIndex(declaredTypes), importPath, tables)
                            && (forall j :: 0 <= j < i ==> Resolved(usedTypes[j], DeclaredIndex(declaredTypes), importPath, tables))
                            && r.message == Some(NotDefined(SplitUsed(usedTypes[i]).name))
    {
      var declaredIndex := DeclaredIndex(declaredTypes);
      for i := 0 to |usedTypes|
        invariant forall j :: 0 <= j < i ==> Resolved(usedTypes[j], declaredIndex, importPath, tables)
      {
        var split := SplitUsed(usedTypes[i]);
        var usedType := split.name;
        var fatherChildType := split.fatherChild;
        var usedTypeWithScope := split.withScope;

        if usedType in tables.hardcoded {
          continue;
        }
        var knownPkg := KnownPackage(tables, usedType);
        if knownPkg.Some? && knownPkg.value in importPath {
          continue;
        }
        if IsTypeDeclared(usedType, declaredIndex, fatherChildType, usedTypeWithScope) {
          continue;
        }
        FirstUnresolvedAt(usedTypes, declaredIndex, importPath, tables, i);
        return DependencyVerifierResult(false, Some(NotDefined(usedType)));
      }
      return DependencyVerifierResult(true, None);
    }
  }

  /** An unresolved entry with every earlier one resolved is the first
      unresolved entry. */
  lemma FirstUnresolvedAt(used: seq<string>, declaredIndex: set<string>, importPath: seq<string>,
                          tables: KnownTables, i: nat)
    requires i < |used| && !Resolved(used[i], declaredIndex, importPath, tables)
    requires forall j :: 0 <= j < i ==> Resolved(used[j], declaredIndex, importPath, tables)
    ensures FirstUnresolved(used, declaredIndex, importPath, tables) == Some(i)
  {
  }

  /** Both entries `add_used_type` makes carry a `;`. */
  lemma EntriesDelimited(parent: string, elementType: string)
    ensures forall e :: e in UsedEntries(parent, elementType) ==> ';' in e
  {
  }

  lemma OneOfEntriesStep(parent: string, fields: seq<FieldElement>, i: nat)
    requires i < |fields|
    ensures OneOfEntries(parent, fields[..i + 1]) == OneOfEntries(parent, fields[..i]) + UsedEntries(parent, fields[i].elementType)
  {
    assert fields[..i + 1][..i] == fields[..i];
  }

  /** Feeds every field of a `oneof` to the verifier under the parent
      name `package.parent`. */
  method ProcessOneOf(verifier: ProtobufDependencyVerifier, packageName: string, parentName: string, oneOf: OneOfElement)
    modifies verifier
    ensures verifier.usedTypes == old(verifier.usedTypes) + OneOfEntries(packageName + "." + parentName, oneOf.fields)
    ensures verifier.declaredTypes == old(verifier.declaredTypes)
    ensures verifier.importPath == old(verifier.importPath)
    ensures Delimited(old(verifier.usedTypes)) ==> Delimited(verifier.usedTypes)
  {
    var parent := packageName + "." + parentName;
    var fields := oneOf.fields;
    ghost var used0 := verifier.usedTypes;
    for i := 0 to |fields|
      invariant verifier.usedTypes == used0 + OneOfEntries(parent, fields[..i])
      invariant verifier.declaredTypes == old(verifier.declaredTypes)
      invariant verifier.importPath == old(verifier.importPath)
      invariant Delimited(used0) ==> Delimited(verifier.usedTypes)
    {
      verifier.AddUsedType(parent, fields[i].elementType);
      OneOfEntriesStep(parent, fields, i);
    }
    assert fields[..|fields|] == fields;
  }

  /** `i` is the index of the first `.` in `p`. */
  predicate FirstDot(p: string, i: int)
  {
    0 <= i < |p| && p[i] == '.' && '.' !in p[..i]
  }

  /** A field type that does not start with `map<` gives the single entry
      `parent;type`. */
  lemma PlainFieldEntry(parent: string, elementType: string)
    requires !StartsWith(elementType, "map<")
    ensures UsedEntries(parent, elementType) == [parent + ";" + elementType]
  {
  }

  /** Where `find` lands in `map<K,V>...` when K has no `,` or `>` and V
      has no `>`, and what lies between the delimiters. */
  lemma MapTypeLayout(key: string, value: string, rest: string)
    requires ',' !in key && '>' !in key && '>' !in value
    ensures var t := "map<" + key + "," + value + ">" + rest;
            StartsWith(t, "map<")
            && FindChar(t, ',') == 4 + |key| && FindChar(t, '>') == 5 + |key| + |value|
            && t[4..4 + |key|] == key && t[5 + |key|..5 + |key| + |value|] == value
  {
    var t := "map<" + key + "," + value + ">" + rest;
    assert t[..4] == "map<";
    assert t == ("map<" + key) + [','] + (value + ">" + rest);
    FindCharAfter("map<" + key, ',', value + ">" + rest);
    assert t == ("map<" + key + "," + value) + ['>'] + rest;
    FindCharAfter("map<" + key + "," + value, '>', rest);
    assert t[4..4 + |key|] == key;
    assert t[5 + |key|..5 + |key| + |value|] == value;
  }

  /** A field type `map<K,V>...` whose key has no `,` or `>` and whose value
      has no `>` gives `parent;K` and then `parent;V` with V stripped;
      the key keeps any whitespace it has. */
  lemma MapFieldEntries(parent: string, key: string, value: string, rest: string)
    requires ',' !in key && '>' !in key && '>' !in value
    ensures UsedEntries(parent, "map<" + key + "," + value + ">" + rest)
              == [parent + ";" + key, parent + ";" + Strip(value)]
  {
    var t := "map<" + key + "," + value + ">" + rest;
    MapTypeLayout(key, value, rest);
    var c, e := FindChar(t, ','), FindChar(t, '>');
    assert Slice(t, 4, c) == key;
    assert Slice(t, c + 1, e) == value;
  }

  /** A `map<` type with neither `,` nor `>`: both `find` calls give -1, so
      the key is the slice from index 4 to the last character (exclusive)
      and the value is the whole type less its last character, stripped. */
  lemma UnterminatedMapEntries(parent: string, elementType: string)
    requires StartsWith(elementType, "map<")
    requires ',' !in elementType && '>' !in elementType
    ensures UsedEntries(parent, elementType)
              == [parent + ";" + (if |elementType| > 4 then elementType[4..|elementType| - 1] else ""),
                  parent + ";" + Strip(elementType[..|elementType| - 1])]
  {
    var n := |elementType|;
    assert Slice(elementType, 4, -1) == if n > 4 then elementType[4..n - 1] else "";
    assert Slice(elementType, 0, -1) == elementType[..n - 1];
  }

  /** In `parent;t`, where `t` has no `;`, the last `;` is the one after
      `parent`. */
  lemma JoinLayout(parent: string, t: string)
    requires ';' !in t
    ensures var e := parent + ";" + t;
            RFindChar(e, ';') == |parent| && e[..|parent|] == parent && e[|parent| + 1..] == t
  {
    var e := parent + ";" + t;
    assert e[|parent|] == ';';
    assert forall k :: |parent| < k < |e| ==> e[k] == t[k - |parent| - 1];
    assert e[..|parent|] == parent;
    assert e[|parent| + 1..] == t;
  }

  /** Splitting an entry `parent;t`, where `t` has no `;`, gives back `t`,
      the scoped name `parent.t`, and, when `parent` has a `.`, the name
      `t` under the part of `parent` before its first `.`. */
  lemma SplitJoin(parent: string, t: string)
    requires ';' !in t
    ensures SplitUsed(parent + ";" + t).name == t
    ensures SplitUsed(parent + ";" + t).withScope == Some(parent + "." + t)
    ensures '.' !in parent ==> SplitUsed(parent + ";" + t).fatherChild == None
    ensures forall i :: FirstDot(parent, i) ==> SplitUsed(parent + ";" + t).fatherChild == Some(parent[..i] + "." + t)
  {
    var e := parent + ";" + t;
    JoinLayout(parent, t);
    forall i | FirstDot(parent, i) ensures SplitUsed(e).fatherChild == Some(parent[..i] + "." + t) {
      assert forall k :: 0 <= k < i ==> parent[..i][k] == parent[k];
      assert e[..i] == parent[..i];
    }
  }

  /** An entry without `;` is checked as a whole, with no scoped names. */
  lemma SplitUndelimited(entry: string)
    requires ';' !in entry
    ensures SplitUsed(entry) == UsedName(entry, None, None)
  {
  }

  /** An entry `parent;t` resolves exactly when `t` is hard-coded, or its
      known package is imported, or one of `t`, `.t`, `parent.t` or `t`
      under the first component of `parent` is declared. */
  lemma EntryResolved(parent: string, t: string, declaredIndex: set<string>, importPath: seq<string>, tables: KnownTables)
    requires ';' !in t
    ensures Resolved(parent + ";" + t, declaredIndex, importPath, tables) <==>
              t in tables.hardcoded
              || (KnownPackage(tables, t).Some? && KnownPackage(tables, t).value in importPath)
              || t in declaredIndex || "." + t in declaredIndex || parent + "." + t in declaredIndex
              || (exists i :: FirstDot(parent, i) && parent[..i] + "." + t in declaredIndex)
  {
    SplitJoin(parent, t);
    if '.' in parent {
      var d := FindChar(parent, '.');
      assert forall k :: 0 <= k < d ==> parent[..d][k] == parent[k];
      assert FirstDot(parent, d);
      forall i | FirstDot(parent, i) ensures i == d {
        assert forall k :: 0 <= k < d ==> parent[..d][k] == parent[k];
        assert forall k :: 0 <= k < i ==> parent[..i][k] == parent[k];
      }
    }
  }

  /** The first `false` of `a + b` is the first of `a`, or, when `a` has
      none, the first of `b` shifted past `a`. */
  lemma {:induction false} FirstFalseAppend(a: seq<bool>, b: seq<bool>)
    ensures FirstFalse(a + b) ==
              match FirstFalse(a)
              case Some(k) => Some(k)
              case None =>
                match FirstFalse(b)
                case Some(k) => Some(|a| + k)
                case None => None
  {
    if a == [] {
      assert a + b == b;
    } else {
      assert (a + b)[0] == a[0];
      assert (a + b)[1..] == a[1..] + b;
      FirstFalseAppend(a[1..], b);
    }
  }

  /** The first unresolved entry of `a + b` is the first of `a`, or, when
      `a` has none, the first of `b` shifted past `a`. */
  lemma FirstUnresolvedAppend(a: seq<string>, b: seq<string>, declaredIndex: set<string>,
                              importPath: seq<string>, tables: KnownTables)
    ensures FirstUnresolved(a + b, declaredIndex, importPath, tables) ==
              match FirstUnresolved(a, declaredIndex, importPath, tables)
              case Some(k) => Some(k)
              case None =>
                match FirstUnresolved(b, declaredIndex, importPath, tables)
                case Some(k) => Some(|a| + k)
                case None => None
  {
    var ra := Resolutions(a, declaredIndex, importPath, tables);
    var rb := Resolutions(b, declaredIndex, importPath, tables);
    var rab := Resolutions(a + b, declaredIndex, importPath, tables);
    forall i | 0 <= i < |a + b| ensures rab[i] == (ra + rb)[i] {
      if i < |a| {
        assert (a + b)[i] == a[i];
      } else {
        assert (a + b)[i] == b[i - |a|];
      }
    }
    assert rab == ra + rb;
    FirstFalseAppend(ra, rb);
  }

  /** Checking `a + b` gives the verdict for `a` when `a` fails, and
      otherwise the verdict for `b`. */
  lemma VerdictAppend(a: seq<string>, b: seq<string>, declared: seq<string>, importPath: seq<string>, tables: KnownTables)
    ensures Verdict(a + b, declared, importPath, tables) ==
              if Verdict(a, declared, importPath, tables).result then Verdict(b, declared, importPath, tables)
              else Verdict(a, declared, importPath, tables)
  {
    var d := DeclaredIndex(declared);
    FirstUnresolvedAppend(a, b, d, importPath, tables);
    var fa := FirstUnresolved(a, d, importPath, tables);
    var fb := FirstUnresolved(b, d, importPath, tables);
    if fa.Some? {
      assert (a + b)[fa.value] == a[fa.value];
    } else if fb.Some? {
      assert (a + b)[|a| + fb.value] == b[fb.value];
    }
  }

  /** Declaring more types or importing more packages never turns a
      passing verification into a failing one. */
  lemma VerdictMonotone(used: seq<string>, declared: seq<string>, declared': seq<string>,
                        importPath: seq<string>, importPath': seq<string>, tables: KnownTables)
    requires forall t :: t in declared ==> t in declared'
    requires forall t :: t in importPath ==> t in importPath'
    requires Verdict(used, declared, importPath, tables).result
    ensures Verdict(used, declared', importPath', tables).result
  {
    var d, d' := DeclaredIndex(declared), DeclaredIndex(declared');
    forall i | 0 <= i < |used| ensures Resolved(used[i], d', importPath', tables) {
      assert Resolved(used[i], d, importPath, tables);
      var u := SplitUsed(used[i]);
      DeclaredIffCandidate(u.name, d, u.fatherChild, u.withScope);
      DeclaredIffCandidate(u.name, d', u.fatherChild, u.withScope);
    }
  }

  /** Checking after `process_one_of` is checking the old entries and then
      the new ones: the oneof cannot repair an earlier failure, and passes
      exactly when its own fields all resolve. */
  lemma VerdictAfterOneOf(used: seq<string>, parent: string, fields: seq<FieldElement>,
                          declared: seq<string>, importPath: seq<string>, tables: KnownTables)
    ensures Verdict(used + OneOfEntries(parent, fields), declared, importPath, tables) ==
              if Verdict(used, declared, importPath, tables).result
              then Verdict(OneOfEntries(parent, fields), declared, importPath, tables)
              else Verdict(used, declared, importPath, tables)
  {
    VerdictAppend(used, OneOfEntries(parent, fields), declared, importPath, tables);
  }

  /** An entry holding a `;` is `scope;t` where `t`, the name `verify`
      checks, is the text after its last `;`. */
  lemma SplitDelimited(e: string) returns (scope: string, t: string)
    requires ';' in e
    ensures e == scope + ";" + t && ';' !in t && SplitUsed(e).name == t
  {
    var d := RFindChar(e, ';');
    scope, t := e[..d], e[d + 1..];
    assert e == scope + ";" + t;
    assert forall k :: 0 <= k < |t| ==> t[k] == e[d + 1 + k];
  }

  /** For a list whose entries all hold a `;` (which `add_used_type` and
      `process_one_of` keep), a failing verdict names the first unresolved
      entry `scope;t` by exactly its text `t` after the last `;`. */
  lemma FailureNamesTextAfterLastDelimiter(used: seq<string>, declared: seq<string>,
                                           importPath: seq<string>, tables: KnownTables)
      returns (i: nat, scope: string, t: string)
    requires Delimited(used)
    requires !Verdict(used, declared, importPath, tables).result
    ensures i < |used| && used[i] == scope + ";" + t && ';' !in t
    ensures !Resolved(used[i], DeclaredIndex(declared), importPath, tables)
    ensures forall j :: 0 <= j < i ==> Resolved(used[j], DeclaredIndex(declared), importPath, tables)
    ensures Verdict(used, declared, importPath, tables).message == Some(NotDefined(t))
  {
    i := FirstUnresolved(used, DeclaredIndex(declared), importPath, tables).value;
    scope, t := SplitDelimited(used[i]);
  }
}
