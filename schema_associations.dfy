/** The schema-association collector `getSchemaAssociations`
    (src/index.ts:118-153): it walks the installed extensions, reads each
    one's `contributes.yamlValidation` list, and turns every well-shaped entry
    into one `{fileMatch, uri}` record. */
module SchemaAssociations {
  import opened Wrappers
  import opened Json
  import opened FileMatch

  /** An installed extension as the host lists it: where it lives on disk and
      its parsed manifest, which may be absent or of any shape. */
  datatype Extension = Extension(extensionPath: string, packageJSON: Json)

  /** One record of the `json/schemaAssociations` payload
      (`ISchemaAssociation`, src/index.ts:16-19). */
  datatype Association = Association(fileMatch: seq<string>, uri: string)

  /** The stand-in for `joinPath(Uri.file(extensionPath), url).toString()`:
      path joining and URI conversion are not part of this model, so the
      collector takes them as a parameter. */
  type JoinUri = (string, string) -> string

  /** The `yamlValidation` entries of a manifest, read by pattern: present
      exactly when the manifest is an object whose `contributes` is an object
      whose `yamlValidation` is an array. The contract says this is the same as
      the source's chain of truthiness tests followed by `Array.isArray`. */
  function ValidationEntries(packageJSON: Json): (r: Option<seq<Json>>)
    ensures r.Some? <==>
      Truthy(packageJSON) && Truthy(Get(packageJSON, "contributes"))
      && Truthy(Get(Get(packageJSON, "contributes"), "yamlValidation"))
      && Get(Get(packageJSON, "contributes"), "yamlValidation").Arr?
    ensures r.Some? ==> r.value == Get(Get(packageJSON, "contributes"), "yamlValidation").elems
  {
    match packageJSON
    case Obj(manifest) =>
      if "contributes" in manifest && manifest["contributes"].Obj?
         && "yamlValidation" in manifest["contributes"].fields
         && manifest["contributes"].fields["yamlValidation"].Arr?
      then Some(manifest["contributes"].fields["yamlValidation"].elems)
      else None
    case _ => None
  }

  /** `fileMatch` after the single-string wrap of src/index.ts:128-130. */
  function Wrap(fileMatch: Json): Json {
    if fileMatch.Str? then Arr([fileMatch]) else fileMatch
  }

  predicate AllStrings(values: seq<Json>) {
    forall i :: 0 <= i < |values| ==> values[i].Str?
  }

  /** The entry passes the shape test of src/index.ts:131. */
  predicate Accepted(entry: Json)
    requires HasProperties(entry)
  {
    Wrap(Get(entry, "fileMatch")).Arr? && Get(entry, "url").Str?
  }

  /** The source does not throw on this entry: it can be destructured, and if
      it passes the shape test every `fileMatch` element is a string, on which
      `fm[0]`, `replace` and `match` are defined. */
  predicate EntryWellFormed(entry: Json) {
    HasProperties(entry) && (Accepted(entry) ==> AllStrings(Wrap(Get(entry, "fileMatch")).elems))
  }

  predicate EntriesWellFormed(entries: seq<Json>) {
    forall i :: 0 <= i < |entries| ==> EntryWellFormed(entries[i])
  }

  predicate ExtensionWellFormed(extension: Extension) {
    match ValidationEntries(extension.packageJSON)
    case None => true
    case Some(entries) => EntriesWellFormed(entries)
  }

  /** No extension makes the collector throw. */
  predicate WellFormed(extensions: seq<Extension>) {
    forall i :: 0 <= i < |extensions| ==> ExtensionWellFormed(extensions[i])
  }

  /** `uri[0] === '.' && uri[1] === '/'` (src/index.ts:133). */
  predicate IsDotSlashRelative(url: string) {
    |url| >= 2 && url[0] == '.' && url[1] == '/'
  }

  /** The schema URI of an entry (src/index.ts:132-135): a `url` that starts
      with `./` is resolved against the extension's directory, any other is
      used verbatim. */
  function ResolveUri(extensionPath: string, url: string, joinUri: JoinUri): (uri: string)
    ensures "./" <= url ==> uri == joinUri(extensionPath, url)
    ensures !("./" <= url) ==> uri == url
  {
    assert "./" <= url ==> url[..2] == "./" && url[0] == '.' && url[1] == '/';
    assert IsDotSlashRelative(url) ==> url[..2] == "./";
    if IsDotSlashRelative(url) then joinUri(extensionPath, url) else url
  }

  /** `fileMatch.map(...)` (src/index.ts:136-145): one normalised pattern per
      element, in the same order. */
  function NormalizeAll(patterns: seq<Json>): (r: seq<string>)
    requires AllStrings(patterns)
    ensures |r| == |patterns|
    ensures forall i :: 0 <= i < |patterns| ==> r[i] == Normalize(patterns[i].s)
  {
    if patterns == [] then [] else [Normalize(patterns[0].s)] + NormalizeAll(patterns[1..])
  }

  /** The association one `yamlValidation` entry contributes, read by
      pattern: a string or array `fileMatch` with a string `url` gives one
      record, anything else gives nothing. */
  function EntryAssociation(extensionPath: string, entry: Json, joinUri: JoinUri): Option<Association>
    requires EntryWellFormed(entry)
  {
    match (Get(entry, "fileMatch"), Get(entry, "url"))
    case (Str(pattern), Str(url)) =>
      Some(Association([Normalize(pattern)], ResolveUri(extensionPath, url, joinUri)))
    case (Arr(patterns), Str(url)) =>
      Some(Association(NormalizeAll(patterns), ResolveUri(extensionPath, url, joinUri)))
    case _ => None
  }

  /** An entry yields a record exactly when its `fileMatch` is a string or an
      array and its `url` a string, which is the source's shape test after the
      wrap. The record's `uri` is the resolved `url`; its patterns are the
      wrapped `fileMatch`, normalised one by one in order. */
  lemma EntryAssociationShape(extensionPath: string, entry: Json, joinUri: JoinUri)
    requires EntryWellFormed(entry)
    ensures var r := EntryAssociation(extensionPath, entry, joinUri);
      && (r.Some? <==> (Get(entry, "fileMatch").Str? || Get(entry, "fileMatch").Arr?) && Get(entry, "url").Str?)
      && (r.Some? <==> Accepted(entry))
      && (r.Some? ==> r.value.uri == ResolveUri(extensionPath, Get(entry, "url").s, joinUri))
      && (r.Some? && Get(entry, "fileMatch").Str? ==>
          r.value.fileMatch == [Normalize(Get(entry, "fileMatch").s)])
      && (r.Some? ==>
          var patterns := Wrap(Get(entry, "fileMatch")).elems;
          |r.value.fileMatch| == |patterns| &&
          forall i :: 0 <= i < |patterns| ==> r.value.fileMatch[i] == Normalize(patterns[i].s))
  {
  }

  /** What one entry adds to the output: its record, if it has one. */
  function Records(association: Option<Association>): seq<Association> {
    match association
    case Some(a) => [a]
    case None => []
  }

  /** The associations of a list of entries: one per accepted entry, in entry
      order. */
  function EntriesAssociations(extensionPath: string, entries: seq<Json>, joinUri: JoinUri): (r: seq<Association>)
    requires EntriesWellFormed(entries)
    ensures |r| <= |entries|
  {
    if entries == [] then []
    else
      var last := entries[|entries| - 1];
      EntriesAssociations(extensionPath, entries[..|entries| - 1], joinUri)
      + Records(EntryAssociation(extensionPath, last, joinUri))
  }

  /** Extending a run of entries by the next one adds that entry's record,
      if it has one. */
  lemma EntriesAssociationsStep(extensionPath: string, entries: seq<Json>, j: nat, joinUri: JoinUri)
    requires EntriesWellFormed(entries)
    requires j < |entries|
    ensures EntriesWellFormed(entries[..j + 1])
    ensures EntriesAssociations(extensionPath, entries[..j + 1], joinUri)
      == EntriesAssociations(extensionPath, entries[..j], joinUri)
         + Records(EntryAssociation(extensionPath, entries[j], joinUri))
  {
    assert entries[..j + 1][..j] == entries[..j];
  }

  /** The associations of one extension. */
  function ExtensionAssociations(extension: Extension, joinUri: JoinUri): seq<Association>
    requires ExtensionWellFormed(extension)
  {
    match ValidationEntries(extension.packageJSON)
    case None => []
    case Some(entries) => EntriesAssociations(extension.extensionPath, entries, joinUri)
  }

  /** The associations of all extensions: the per-extension lists, concatenated
      in extension order. */
  function Associations(extensions: seq<Extension>, joinUri: JoinUri): seq<Association>
    requires WellFormed(extensions)
  {
    if extensions == [] then []
    else
      Associations(extensions[..|extensions| - 1], joinUri)
      + ExtensionAssociations(extensions[|extensions| - 1], joinUri)
  }

  /** The body of the `yamlValidation.forEach` callback up to the push
      (src/index.ts:127-145): destructure, wrap a bare string, test the shape,
      resolve the URL and normalise the patterns. */
  method EntryRecord(extensionPath: string, entry: Json, joinUri: JoinUri) returns (association: Option<Association>)
    requires EntryWellFormed(entry)
    ensures association == EntryAssociation(extensionPath, entry, joinUri)
  {
    EntryAssociationShape(extensionPath, entry, joinUri);
    var fileMatch := Get(entry, "fileMatch");
    var url := Get(entry, "url");
    if fileMatch.Str? {
      fileMatch := Arr([fileMatch]);
    }
    if fileMatch.Arr? && url.Str? {
      var uri := url.s;
      if |uri| >= 2 && uri[0] == '.' && uri[1] == '/' {
        uri := joinUri(extensionPath, uri);
      }
      var patterns := NormalizeAll(fileMatch.elems);
      if Get(entry, "fileMatch").Str? {
        assert patterns == [Normalize(Get(entry, "fileMatch").s)];
      }
      association := Some(Association(patterns, uri));
    } else {
      association := None;
    }
  }

  /** `yamlValidation.forEach(...)` (src/index.ts:125-148): every entry, in
      order, pushes its record, if it has one, onto the accumulator. */
  method CollectEntries(extensionPath: string, entries: seq<Json>, joinUri: JoinUri, accumulated: seq<Association>)
    returns (associations: seq<Association>)
    requires EntriesWellFormed(entries)
    ensures associations == accumulated + EntriesAssociations(extensionPath, entries, joinUri)
  {
    associations := accumulated;
    var j := 0;
    while j < |entries|
      invariant 0 <= j <= |entries|
      invariant associations == accumulated + EntriesAssociations(extensionPath, entries[..j], joinUri)
    {
      ghost var done := EntriesAssociations(extensionPath, entries[..j], joinUri);
      EntriesAssociationsStep(extensionPath, entries, j, joinUri);
      var association := EntryRecord(extensionPath, entries[j], joinUri);
      if association.Some? {
        associations := associations + [association.value];
      }
      assert associations == accumulated + (done + Records(association));
      j := j + 1;
    }
    assert entries[..j] == entries;
  }

  /** The callback of `extensions.all.forEach` (src/index.ts:120-151): the
      shape tests on the manifest, then the entries' records pushed onto the
      accumulator. */
  method CollectExtension(extension: Extension, joinUri: JoinUri, accumulated: seq<Association>)
    returns (associations: seq<Association>)
    requires ExtensionWellFormed(extension)
    ensures associations == accumulated + ExtensionAssociations(extension, joinUri)
  {
    associations := accumulated;
    var packageJSON := extension.packageJSON;
    if Truthy(packageJSON) && Truthy(Get(packageJSON, "contributes"))
       && Truthy(Get(Get(packageJSON, "contributes"), "yamlValidation"))
    {
      var yamlValidation := Get(Get(packageJSON, "contributes"), "yamlValidation");
      if yamlValidation.Arr? {
        assert ValidationEntries(packageJSON) == Some(yamlValidation.elems);
        associations := CollectEntries(extension.extensionPath, yamlValidation.elems, joinUri, associations);
      }
    }
  }

  /** `getSchemaAssociations` (src/index.ts:118-153), with the host's
      `extensions.all` as the input: the accumulator starts empty and every
      extension, in order, pushes its records onto it. */
  method Collect(extensions: seq<Extension>, joinUri: JoinUri) returns (associations: seq<Association>)
    requires WellFormed(extensions)
    ensures associations == Associations(extensions, joinUri)
  {
    associations := [];
    var i := 0;
    while i < |extensions|
      invariant 0 <= i <= |extensions|
      invariant associations == Associations(extensions[..i], joinUri)
    {
      assert extensions[..i + 1][..i] == extensions[..i];
      associations := CollectExtension(extensions[i], joinUri, associations);
      i := i + 1;
    }
    assert extensions[..i] == extensions;
  }

  /** The associations of consecutive runs of entries are concatenated: entry
      order is kept within an extension. */
  lemma {:induction false} EntriesAssociationsAppend(extensionPath: string, a: seq<Json>, b: seq<Json>, joinUri: JoinUri)
    requires EntriesWellFormed(a) && EntriesWellFormed(b)
    ensures EntriesWellFormed(a + b)
    ensures EntriesAssociations(extensionPath, a + b, joinUri)
      == EntriesAssociations(extensionPath, a, joinUri) + EntriesAssociations(extensionPath, b, joinUri)
    decreases |b|
  {
    assert EntriesWellFormed(a + b) by {
      forall i | 0 <= i < |a + b| ensures EntryWellFormed((a + b)[i]) {
        if i < |a| { assert (a + b)[i] == a[i]; } else { assert (a + b)[i] == b[i - |a|]; }
      }
    }
    if b == [] {
      assert a + b == a;
    } else {
      var front := b[..|b| - 1];
      assert (a + b)[..|a + b| - 1] == a + front;
      assert (a + b)[|a + b| - 1] == b[|b| - 1];
      EntriesAssociationsAppend(extensionPath, a, front, joinUri);
    }
  }

  /** When every entry passes the shape test, each contributes its record, at
      its own position. */
  lemma {:induction false} EntriesAllAccepted(extensionPath: string, entries: seq<Json>, joinUri: JoinUri)
    requires forall i :: 0 <= i < |entries| ==> EntryWellFormed(entries[i]) && Accepted(entries[i])
    ensures |EntriesAssociations(extensionPath, entries, joinUri)| == |entries|
    ensures forall i :: 0 <= i < |entries| ==>
      Some(EntriesAssociations(extensionPath, entries, joinUri)[i]) == EntryAssociation(extensionPath, entries[i], joinUri)
  {
    if entries != [] {
      var n := |entries|;
      var front := entries[..n - 1];
      assert forall i :: 0 <= i < |front| ==> front[i] == entries[i];
      EntriesAllAccepted(extensionPath, front, joinUri);
      var r := EntriesAssociations(extensionPath, entries, joinUri);
      var rest := EntriesAssociations(extensionPath, front, joinUri);
      var last := EntryAssociation(extensionPath, entries[n - 1], joinUri);
      EntryAssociationShape(extensionPath, entries[n - 1], joinUri);
      assert r == rest + [last.value];
      forall i | 0 <= i < n
        ensures Some(r[i]) == EntryAssociation(extensionPath, entries[i], joinUri)
      {
        if i < n - 1 {
          assert r[i] == rest[i];
          assert Some(rest[i]) == EntryAssociation(extensionPath, front[i], joinUri);
        }
      }
    }
  }

  /** When no entry passes the shape test, the extension contributes nothing:
      rejected entries are dropped without trace. */
  lemma {:induction false} EntriesNoneAccepted(extensionPath: string, entries: seq<Json>, joinUri: JoinUri)
    requires forall i :: 0 <= i < |entries| ==> EntryWellFormed(entries[i]) && !Accepted(entries[i])
    ensures EntriesAssociations(extensionPath, entries, joinUri) == []
  {
    if entries != [] {
      EntriesNoneAccepted(extensionPath, entries[..|entries| - 1], joinUri);
    }
  }

  /** The result for a list of extensions is the concatenation of the results
      for its parts: extension order is kept. */
  lemma {:induction false} AssociationsAppend(a: seq<Extension>, b: seq<Extension>, joinUri: JoinUri)
    requires WellFormed(a) && WellFormed(b)
    ensures WellFormed(a + b)
    ensures Associations(a + b, joinUri) == Associations(a, joinUri) + Associations(b, joinUri)
    decreases |b|
  {
    assert WellFormed(a + b) by {
      forall i | 0 <= i < |a + b| ensures ExtensionWellFormed((a + b)[i]) {
        if i < |a| { assert (a + b)[i] == a[i]; } else { assert (a + b)[i] == b[i - |a|]; }
      }
    }
    if b == [] {
      assert a + b == a;
    } else {
      var front := b[..|b| - 1];
      assert (a + b)[..|a + b| - 1] == a + front;
      assert (a + b)[|a + b| - 1] == b[|b| - 1];
      AssociationsAppend(a, front, joinUri);
    }
  }

  /** Two extensions contribute in list order. */
  lemma AssociationsOfTwo(first: Extension, second: Extension, joinUri: JoinUri)
    requires ExtensionWellFormed(first) && ExtensionWellFormed(second)
    ensures WellFormed([first, second])
    ensures Associations([first, second], joinUri)
      == ExtensionAssociations(first, joinUri) + ExtensionAssociations(second, joinUri)
  {
    assert [first] + [second] == [first, second];
    AssociationsAppend([first], [second], joinUri);
    assert [first][..0] == [] && [second][..0] == [];
    assert Associations([first], joinUri) == ExtensionAssociations(first, joinUri);
    assert Associations([second], joinUri) == ExtensionAssociations(second, joinUri);
  }

  /** Extensions without a `yamlValidation` array contribute nothing, however
      many there are. */
  lemma {:induction false} NoValidationNoAssociations(extensions: seq<Extension>, joinUri: JoinUri)
    requires forall i :: 0 <= i < |extensions| ==> ValidationEntries(extensions[i].packageJSON).None?
    ensures WellFormed(extensions)
    ensures Associations(extensions, joinUri) == []
  {
    if extensions != [] {
      var front := extensions[..|extensions| - 1];
      assert forall i :: 0 <= i < |front| ==> front[i] == extensions[i];
      NoValidationNoAssociations(front, joinUri);
    }
  }

  /** An empty `fileMatch` array is kept: the record it yields has no
      patterns. */
  lemma EmptyFileMatchKept(extensionPath: string, url: string, joinUri: JoinUri)
    ensures EntryWellFormed(Obj(map["fileMatch" := Arr([]), "url" := Str(url)]))
    ensures EntryAssociation(extensionPath, Obj(map["fileMatch" := Arr([]), "url" := Str(url)]), joinUri)
      == Some(Association([], ResolveUri(extensionPath, url, joinUri)))
  {
  }

  /** A `./` schema URL is joined to the extension's path; an absolute URL and
      a relative one without `./` are both kept verbatim. */
  lemma ResolveUriExamples(joinUri: JoinUri)
    ensures ResolveUri("/ext/path", "./schemas/foo.json", joinUri) == joinUri("/ext/path", "./schemas/foo.json")
    ensures ResolveUri("/ext/path", "https://example.com/s.json", joinUri) == "https://example.com/s.json"
    ensures ResolveUri("/ext/path", "schemas/foo.json", joinUri) == "schemas/foo.json"
    ensures ResolveUri("/ext/path", "../foo.json", joinUri) == "../foo.json"
  {
  }
}
