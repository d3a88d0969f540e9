# coc-yaml schema-association collector, in Dafny

This project models `getSchemaAssociations` of the coc-yaml editor extension
(`src/index.ts`). The function scans the manifests (`packageJSON`) of all
installed extensions for `contributes.yamlValidation` entries. It turns each
well-shaped entry into one `{fileMatch, uri}` record, and the records make up
the payload of the `json/schemaAssociations` notification sent to the YAML
language server.

The model has four modules:

- `Wrappers` (`wrappers.dfy`): the `Option` datatype.
- `Json` (`json.dfy`): the JavaScript values a parsed manifest can hold
  (`undefined`, `null`, booleans, numbers, strings, arrays, objects). It also
  gives JavaScript truthiness (`Truthy`) and property reads (`Get`).
- `FileMatch` (`file_match.dfy`): the per-pattern normaliser. `Normalize`
  follows the `fileMatch.map` callback. `ReplaceFirst` is `String.prototype.replace`
  with a regular expression that has no `g` flag. `StartsWithScheme` and
  `HasRootedPrefix` scan for the regular expression `^(\w+:\/\/|\/|!)`.
  `MatchesScheme` and `MatchesRootedPrefix` state that regular expression
  directly, and lemmas prove that the scan agrees with it.
- `SchemaAssociations` (`schema_associations.dfy`): the collector.
  `ValidationEntries`, `EntryAssociation`, `EntriesAssociations`,
  `ExtensionAssociations` and `Associations` define the result by pattern
  matching on the manifest. The methods follow the source instead: truthiness
  tests, a single-string wrap, and an accumulator that two nested loops push
  onto. `Collect` is the outer loop over the extensions, `CollectExtension`
  the outer `forEach` callback, `CollectEntries` the inner loop over the
  entries, and `EntryRecord` the inner callback up to the `push`. Each
  method's postcondition ties its result to the specification functions, so
  `Collect` returns exactly `Associations`.

`extensions.all` is the input sequence of `Extension(extensionPath, packageJSON)`
records. `joinPath(Uri.file(extensionPath), url).toString()` is passed in as
the function parameter `joinUri`: path joining and URI printing are not part
of this model.

The source throws on two inputs. One is an entry that is `null` or
`undefined`, because it is destructured. The other is a `fileMatch` element
that is not a string in an entry that passes the shape test, because `fm[0]`,
`replace` and `match` are then called on a non-string. The predicate
`WellFormed` excludes both, and it is the precondition of `Collect` and of the
specification functions. Every other malformed shape is modelled and silently
contributes nothing, as in the source.

Two edge cases of the code are worth stating:

- A record's `fileMatch` can be empty: an entry with `fileMatch: []` and a
  string `url` still yields a record (lemma `EmptyFileMatchKept`).
- A `uri` is not necessarily absolute: only a `url` starting with `./` is
  joined to the extension path. Every other string, including
  `schemas/foo.json` and `../foo.json`, is used verbatim (lemma
  `ResolveUriExamples`).

## Model

| member | source | states |
|---|---|---|
| `Json.Truthy` | src/index.ts:122 | JavaScript truthiness, defined by cases: `undefined`, `null`, `false`, `0` and `""` are falsy, every array and object is truthy; `SchemaAssociations.ValidationEntries` states how the guard uses it |
| `Json.HasProperties` | src/index.ts:127 | a value whose properties can be read and which can be destructured: anything but `null` and `undefined`, on which the source throws; the precondition of `Json.Get` |
| `Json.Get` | src/index.ts:122-123 | JavaScript property read, defined by cases: an object gives its own field when present and `undefined` otherwise, and any other value that is not `null` or `undefined` gives `undefined`; `SchemaAssociations.ValidationEntries` and `SchemaAssociations.EntryAssociationShape` state how the collector uses it |
| `FileMatch.WordPrefixLength` | src/index.ts:141 | the result is the length of the longest prefix of word characters (`[A-Za-z0-9_]`): every character before it is one, and the next is not |
| `FileMatch.StartsWithSchemeCorrect` | src/index.ts:141 | the left-to-right scan for a scheme holds exactly when `^\w+:\/\/` matches, for any split the regular expression could backtrack to |
| `FileMatch.HasRootedPrefixCorrect` | src/index.ts:141 | the prefix test holds exactly when `^(\w+:\/\/|\/|!)` matches |
| `FileMatch.IndexOf` | src/index.ts:138-140 | the result, if any, is an occurrence of the pattern at or after the start index with none before it; no result means no occurrence at or after the start |
| `FileMatch.ReplaceFirst` | src/index.ts:138-140 | the leftmost occurrence is replaced and the text around it kept; a string without the pattern is returned unchanged |
| `FileMatch.ReplaceFirstAt` | src/index.ts:138-140 | replacing at the leftmost occurrence keeps what is before it, puts the replacement there, keeps what follows the occurrence, and changes the length by the difference |
| `FileMatch.ReplaceFirstKeepsLater` | src/index.ts:138-140 | only the first occurrence is replaced: any later, non-overlapping occurrence is still in the result, shifted by the length difference |
| `FileMatch.NormalizeWithoutTokens` | src/index.ts:137-140 | a pattern that starts with `%` and holds none of the three tokens is returned unchanged: no `/` is prepended |
| `FileMatch.NormalizeLeadingAppSettings` | src/index.ts:137-140 | a pattern `%APP_SETTINGS_HOME%` + rest, where rest holds neither of the other tokens, becomes `/User` + rest |
| `FileMatch.NormalizeSettingsExample` | src/index.ts:137-140 | `%APP_SETTINGS_HOME%/settings.json` becomes `/User/settings.json` |
| `FileMatch.NormalizeRepeatedToken` | src/index.ts:138 | a token written twice is expanded only once: `%APP_SETTINGS_HOME%%APP_SETTINGS_HOME%` becomes `/User%APP_SETTINGS_HOME%` |
| `FileMatch.NormalizeWithoutPlaceholder` | src/index.ts:141-143 | a pattern not starting with `%` is kept exactly when `^(\w+:\/\/|\/|!)` matches it, and becomes `"/" + fm` otherwise |
| `FileMatch.NormalizeEmpty` | src/index.ts:141-143 | the empty pattern becomes `/` |
| `FileMatch.NormalizeIdempotent` | src/index.ts:141-143 | for a pattern not starting with `%`, the result starts with a scheme, `/` or `!`, and normalising it again changes nothing |
| `FileMatch.NormalizePlainName` | src/index.ts:141-143 | a pattern that does not start with `%`, `/` or `!` and holds no `:` gets a `/` in front |
| `FileMatch.NormalizeBareNameExample` | src/index.ts:141-143 | `config.yaml` becomes `/config.yaml` |
| `FileMatch.NormalizeNegationExample` | src/index.ts:141-143 | `!exclude.yaml` is kept as it is |
| `FileMatch.NormalizeSchemeExample` | src/index.ts:141-143 | `http://example.com/schema.json` is kept as it is |
| `FileMatch.StartsWithScheme` | src/index.ts:141 | the executable test for the `\w+:\/\/` branch of the regular expression; `FileMatch.StartsWithSchemeCorrect` proves it equal to the regular expression's meaning |
| `FileMatch.HasRootedPrefix` | src/index.ts:141 | the executable test for `^(\w+:\/\/|\/|!)`; `FileMatch.HasRootedPrefixCorrect` proves it equal to the regular expression's meaning |
| `FileMatch.ExpandPlaceholders` | src/index.ts:137-140 | the three first-occurrence replacements in the source's order; `FileMatch.NormalizeWithoutTokens`, `FileMatch.NormalizeLeadingAppSettings`, `FileMatch.NormalizeRepeatedToken` and `FileMatch.PercentNeverPrefixed` state what they do |
| `FileMatch.StartsWithPercent` | src/index.ts:137 | the test `fm[0] === '%'` that selects the placeholder branch (an empty pattern fails it); `FileMatch.PercentNeverPrefixed` and `FileMatch.NormalizeWithoutPlaceholder` state what each side of it leads to |
| `FileMatch.Normalize` | src/index.ts:136-145 | the per-pattern callback; `FileMatch.NormalizeWithoutPlaceholder`, `FileMatch.NormalizeIdempotent` and `FileMatch.PercentNeverPrefixed` state its behaviour on each branch |
| `FileMatch.ReplaceFirstNoLonger` | src/index.ts:138-140 | a replacement no longer than its pattern never makes the string longer |
| `FileMatch.PercentNeverPrefixed` | src/index.ts:137-143 | a pattern starting with `%` is never lengthened and never gets a `/` in front, whatever tokens it holds |
| `SchemaAssociations.ValidationEntries` | src/index.ts:121-124 | entries are found exactly when `packageJSON`, `contributes` and `yamlValidation` are truthy and `yamlValidation` is an array, and they are that array's elements |
| `SchemaAssociations.IsDotSlashRelative` | src/index.ts:133 | the source's two-index test `uri[0] === '.' && uri[1] === '/'`; `SchemaAssociations.ResolveUri` proves it means that `url` begins with `./` |
| `SchemaAssociations.ResolveUri` | src/index.ts:132-135 | the two-index test amounts to a prefix test: a `url` that begins with `./` is joined to the extension path, and any other `url` is the `uri` verbatim |
| `SchemaAssociations.NormalizeAll` | src/index.ts:136-145 | the patterns keep their number and order, each one normalised |
| `SchemaAssociations.EntryAssociationShape` | src/index.ts:127-146 | an entry yields a record exactly when `fileMatch` is a string or an array and `url` is a string, which is the shape test after the wrap; the record's `uri` is the resolved `url`; a bare string `s` gives `[Normalize(s)]`, and in general the patterns are the wrapped `fileMatch`, each normalised, in order |
| `SchemaAssociations.Wrap` | src/index.ts:128-130 | a bare string becomes a one-element array and any other value is kept; `SchemaAssociations.EntryAssociationShape` states its effect on the record |
| `SchemaAssociations.Accepted` | src/index.ts:131 | the shape test after the wrap; `SchemaAssociations.EntryAssociationShape` proves an entry yields a record exactly when it holds |
| `SchemaAssociations.EntryWellFormed` | src/index.ts:127-141 | the entry does not make the callback throw: it can be destructured, and when it passes the shape test every `fileMatch` element is a string, so `fm[0]`, `replace` and `match` are defined; lifted to lists by `SchemaAssociations.WellFormed`, the precondition of `SchemaAssociations.Collect` |
| `SchemaAssociations.EntryAssociation` | src/index.ts:127-146 | the record one entry contributes, if any; `SchemaAssociations.EntryAssociationShape` states when it exists and what it holds |
| `SchemaAssociations.ExtensionAssociations` | src/index.ts:120-151 | the records of one extension: none without a `yamlValidation` array, else those of its entries; `SchemaAssociations.CollectExtension` and `SchemaAssociations.NoValidationNoAssociations` state its properties |
| `SchemaAssociations.Associations` | src/index.ts:118-153 | the result of the whole function, per-extension records concatenated in extension order; `SchemaAssociations.Collect`, `SchemaAssociations.AssociationsAppend` and `SchemaAssociations.AssociationsOfTwo` state its properties |
| `SchemaAssociations.EntriesAssociations` | src/index.ts:125-148 | an extension yields at most one record per entry |
| `SchemaAssociations.EntryRecord` | src/index.ts:127-145 | the callback body (destructure, wrap a bare string, test the shape, resolve, normalise) gives exactly the record `EntryAssociation` describes |
| `SchemaAssociations.EntriesAssociationsStep` | src/index.ts:125-148 | the next entry adds its own record, if it has one, after the records of the entries before it |
| `SchemaAssociations.CollectEntries` | src/index.ts:125-148 | the inner loop leaves the accumulator extended by exactly the entries' records, in entry order |
| `SchemaAssociations.CollectExtension` | src/index.ts:120-151 | the source's truthiness and array tests on the manifest, followed by the inner loop, extend the accumulator by exactly `ExtensionAssociations` |
| `SchemaAssociations.Collect` | src/index.ts:118-153 | the accumulated array is exactly `Associations`: the per-extension records, in extension order and then entry order |
| `SchemaAssociations.EntriesAssociationsAppend` | src/index.ts:125-148 | the records of two consecutive runs of entries are the concatenation of their records, so entry order is kept |
| `SchemaAssociations.EntriesAllAccepted` | src/index.ts:125-148 | when every entry passes the shape test, there is one record per entry, at that entry's position |
| `SchemaAssociations.EntriesNoneAccepted` | src/index.ts:125-148 | when no entry passes the shape test, the extension yields nothing |
| `SchemaAssociations.AssociationsAppend` | src/index.ts:120-151 | the result for a concatenation of extension lists is the concatenation of their results |
| `SchemaAssociations.AssociationsOfTwo` | src/index.ts:120-151 | two extensions contribute in list order |
| `SchemaAssociations.NoValidationNoAssociations` | src/index.ts:120-124 | a list of extensions, none with a `yamlValidation` array, yields no records |
| `SchemaAssociations.EmptyFileMatchKept` | src/index.ts:131-146 | an entry with `fileMatch: []` and a string `url` still yields a record, whose `fileMatch` is empty |
| `SchemaAssociations.ResolveUriExamples` | src/index.ts:132-135 | `./schemas/foo.json` is joined to `/ext/path`; `https://example.com/s.json` and `schemas/foo.json` and `../foo.json` are kept verbatim |

## Left out

- `activate` (src/index.ts:41-116): launching the language server, the client
  options, file watchers, the configuration sync and the request and
  notification wiring. These are host and transport plumbing.
- The `vscode/content` request handler (src/index.ts:102-112), which fetches a
  URL over the network and converts the response.
- The module-level `client` handle (src/index.ts:39) and the notification
  type declarations (src/index.ts:12-37), including the alternative
  `ISchemaAssociations` map shape, which the collector never produces.
- Re-running the collector when an extension is activated or unloaded
  (src/index.ts:85-90). This belongs to the caller. `Collect` has no state, so
  every call computes the result afresh.
- `joinPath` and `Uri.file`: `src/paths` and `src/schema-extension-api` are
  not part of this model. The join is the parameter `joinUri`, and URI
  encoding is not modelled.
- The two JavaScript exceptions described above: they are excluded by the
  precondition `WellFormed` rather than modelled.
- Numbers are integers, so `NaN` and fractions are not modelled. The
  collector only tests them for truthiness, and a number never carries a
  property the collector reads.
- `Get` covers only the four property names the collector reads. For other
  names, strings, arrays and `Object.prototype` have inherited properties,
  which are not modelled.
- Strings are sequences of characters, not of UTF-16 code units. The
  collector compares only ASCII characters, at the start of a string or in
  the placeholder tokens, so the results are the same.
- `FileMatch.ReplaceFirst` handles literal patterns and replacements without
  `$`. The three calls in the source use only such arguments.
