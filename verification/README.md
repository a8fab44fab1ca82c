# fastly-logging: the field catalog and the format resolver

This project models the Go package `fastlylogging` (file `default.go`) in
Dafny and proves properties of the model. The package builds Fastly
real-time log formats. It holds a fixed catalog of 24 named logging fields.
Each field has a default Fastly VCL log-format template, for example
`client_ip` maps to `%{req.http.Fastly-Client-IP}V`. It has three functions:

- `KnownFieldsDefaultMap` returns the catalog as a map.
- `KnownFields` returns the catalog's field names, sorted.
- `EntryFormatDefault(fields...)` resolves a caller's list of field names
  to a format (name to template). It also returns an error listing the
  names it could not resolve.

How `EntryFormatDefault` resolves a request:

- It condenses the request with `stringsutil.SliceCondenseSpace(fields,
  true, false)`: each entry is trimmed, blank entries are dropped, and
  exact duplicates are removed.
- A request with nothing left stands for every catalog field.
- Each remaining name is canonicalised: white space is trimmed, then the
  name is lower-cased.
- A name whose canonical form is a catalog key adds that key and its
  template to the format.
- Any other name goes on an unknown list. That list is condensed again,
  this time also sorted. If it is non-empty, the function returns an error
  alongside the partial format.

Files (one module each):

- `ascii.dfy` (`Ascii`): `strings.TrimSpace` and `strings.ToLower` on ASCII.
- `string_order.dfy` (`StringOrder`): Go's string order `<`, `sort.Strings`,
  and the uniqueness of a strictly ascending list.
- `strings_util.dfy` (`StringsUtil`): the contract of
  `stringsutil.SliceCondenseSpace`, with a definition that meets it.
- `default.dfy` (`FastlyLogging`): the catalog constants, the catalog map,
  `KnownFields`, `EntryFormatDefault`, and their properties.

How the model is built:

- `KnownFields` and `EntryFormatDefault` are methods with the source's
  loops, because the Go code builds their results step by step.
  - The body of `KnownFields` works on any map (`SortedKeys`).
  - The body of `EntryFormatDefault` works on any catalog whose keys are
    canonical (`EntryFormatWith`). `RequestedFields` is the first step of
    that body.
  - This keeps the large literal catalog out of the loop proofs.
    `CatalogKeysCanonical` shows that the real catalog qualifies.
- The loops are proved against set-level specification functions:
  - `Requested`: the names a request stands for.
  - `ResolvedFormat`: the format those names resolve to.
  - `UnknownNames`: the names that resolve to nothing.
  These functions take the canonicalisation as a parameter. They are then
  used with `Canonical`.
- The lemmas state what the resolver promises in terms of these functions.

Unknown names are deduplicated exactly, not case-insensitively: `Foo` and
`foo` are both reported. They are sorted in byte order, and they are reported
trimmed, because the request is condensed at `default.go:121` before any name
reaches the unknown list.

## Model

| member | source | states |
|---|---|---|
| Ascii.TrimSpace | default.go:129 | the trimmed string has no white space at either end and is no longer than the input |
| Ascii.TrimSpaceOfPadded | default.go:129 | trimming removes exactly the leading and trailing white space: a trimmed string padded with white space trims back to itself |
| Ascii.TrimSpaceIdempotent | default.go:129 | trimming twice is trimming once |
| Ascii.TrimSpaceEmptyIffAllSpace | default.go:129-132 | a string trims to nothing exactly when it is all white space, so exactly those entries are skipped |
| Ascii.Alphabets | default.go:129 | the capital letters are exactly the characters from `A` to `Z`, and each small letter sits 32 code points above its capital |
| Ascii.LowerChar | default.go:129 | a capital letter becomes the small letter at the same place in the alphabet; every other character is kept; no capital letter comes out |
| Ascii.ToLower | default.go:129 | same length, each character lower-cased, and no upper-case letter left |
| Ascii.ToLowerFixedPoint | default.go:129 | lower-casing leaves a string without upper-case letters unchanged |
| Ascii.ToLowerKeepsTrimmed | default.go:129 | lower-casing keeps a trimmed string trimmed |
| StringOrder.Below | default.go:87 | Go's string `<`: a proper prefix sorts first, and no string sorts before one of its own prefixes |
| StringOrder.BelowIrreflexive | default.go:87 | no string sorts before itself |
| StringOrder.BelowAsymmetric | default.go:87 | two strings never sort before each other |
| StringOrder.BelowTransitive | default.go:87 | the string order is transitive |
| StringOrder.BelowTotal | default.go:87 | of two different strings, one sorts before the other |
| StringOrder.Insert | default.go:87 | inserting into a sorted list keeps it sorted and adds exactly the one element |
| StringOrder.Sort | default.go:87 | `sort.Strings`: the result is ascending and a permutation of the input |
| StringOrder.SortDistinct | default.go:87 | sorting a list without duplicates gives a strictly ascending list with the same elements and length |
| StringOrder.SortedDistinctIsStrict | default.go:139 | a sorted list without duplicates is strictly ascending |
| StringOrder.StrictlySortedUnique | default.go:139 | two strictly ascending lists with the same elements are equal, so the reported list is determined by its set of names |
| StringOrder.AppendFresh | default.go:84-86 | appending a name not yet collected keeps the list free of duplicates |
| StringsUtil.Clean | default.go:121 | every kept element is trimmed and non-empty |
| StringsUtil.CleanElems | default.go:121 | the kept elements are exactly the trimmed forms of the non-blank inputs |
| StringsUtil.Dedupe | default.go:121 | removing duplicates keeps the same elements and leaves no duplicate |
| StringsUtil.SliceCondenseSpace | default.go:121 | the result holds exactly the trimmed non-blank inputs, each trimmed and non-empty, without duplicates when deduplicating and ascending when sorting |
| StringsUtil.TrimmedNonBlankOfTrimmed | default.go:139 | condensing a list of trimmed, non-blank names keeps its set of elements |
| FastlyLogging.Canonical | default.go:129 | the canonical form is trimmed and has no upper-case letter; it is empty exactly when the entry is blank |
| FastlyLogging.CanonicalOfTrimmed | default.go:121-129 | trimming an entry first does not change its canonical form |
| FastlyLogging.CanonicalIdempotent | default.go:129 | canonicalising a canonical name changes nothing |
| FastlyLogging.FieldNameIsCanonical | default.go:13-60 | a name of lower-case letters and underscores is its own canonical form |
| FastlyLogging.FieldNamesLowerCase1 | default.go:13-20 | `timestamp`, `service_id`, `time_elapsed` and `client_ip` are spelt in lower-case letters and underscores |
| FastlyLogging.FieldNamesLowerCase2 | default.go:21-28 | the same for `geo_country`, `geo_city`, `host` and `url` |
| FastlyLogging.FieldNamesLowerCase3 | default.go:29-36 | the same for `request`, `request_method`, `request_protocol` and `request_referer` |
| FastlyLogging.FieldNamesLowerCase4 | default.go:37-44 | the same for `request_user_agent`, `response`, `response_state` and `response_status` |
| FastlyLogging.FieldNamesLowerCase5 | default.go:45-54 | the same for `response_reason`, `response_body_size`, `fastly_server` and `fastly_is_edge` |
| FastlyLogging.FieldNamesLowerCase6 | default.go:51-60 | the same for `server_datacenter`, `fastly_cache_state`, `waf_block` and `waf_block_id` |
| FastlyLogging.KnownFieldsDefaultMap | default.go:91-118 | the catalog: each of the 24 field-name constants paired with its `...Default` template; every key is spelt in lower-case letters and underscores |
| FastlyLogging.AddCatalogPart1 | default.go:93-98 | the first six catalog entries add six different names to a map holding none of them |
| FastlyLogging.AddCatalogPart2 | default.go:99-104 | the same for the next six entries |
| FastlyLogging.AddCatalogPart3 | default.go:105-110 | the same for the next six entries |
| FastlyLogging.AddCatalogPart4 | default.go:111-116 | the same for the last six entries |
| FastlyLogging.CatalogParts12Disjoint | default.go:93-104 | no name is in both the first and the second part |
| FastlyLogging.CatalogParts13Disjoint | default.go:93-110 | no name is in both the first and the third part |
| FastlyLogging.CatalogParts14Disjoint | default.go:93-116 | no name is in both the first and the fourth part |
| FastlyLogging.CatalogParts23Disjoint | default.go:99-110 | no name is in both the second and the third part |
| FastlyLogging.CatalogParts24Disjoint | default.go:99-116 | no name is in both the second and the fourth part |
| FastlyLogging.CatalogParts34Disjoint | default.go:105-116 | no name is in both the third and the fourth part |
| FastlyLogging.CatalogInParts | default.go:91-118 | the catalog literal is its four parts added in source order |
| FastlyLogging.CatalogPartsSize | default.go:91-118 | the four parts together hold 24 entries |
| FastlyLogging.CatalogSize | default.go:91-118 | the catalog holds 24 different field names |
| FastlyLogging.FieldNamesAreCanonical | default.go:128-133 | names of lower-case letters and underscores are non-empty and their own canonical form |
| FastlyLogging.CatalogKeysCanonical | default.go:91-118 | every catalog key is non-empty and its own canonical form, so a canonicalised name can be looked up directly |
| FastlyLogging.KnownFields | default.go:81-89 | the result lists every catalog key once, in strictly ascending order, and has length 24 |
| FastlyLogging.SortedKeys | default.go:81-89 | for any map, the keys collected one by one in arbitrary order and then sorted: exactly the keys, strictly ascending, one per entry |
| FastlyLogging.ResolvedFormat | default.go:126-134 | every key of a resolved format is a catalog key carrying that key's catalog template |
| FastlyLogging.ResolvedNamesAdd | default.go:127-134 | one more name adds its canonical form to the resolved keys exactly when that form is a non-empty catalog key |
| FastlyLogging.ResolvedFormatAdd | default.go:127-134 | one more name adds its catalog entry to the format if it has one, and otherwise leaves the format alone |
| FastlyLogging.UnknownNamesAdd | default.go:127-136 | one more name joins the unknown names exactly when it is not blank and its canonical form is not a catalog key |
| FastlyLogging.RequestedFields | default.go:121-124 | the names to resolve are the trimmed non-blank entries, or every catalog key when there are none; each is trimmed and non-empty |
| FastlyLogging.EntryFormatWith | default.go:120-144 | for any catalog with canonical keys: the format is what the requested names resolve to; there is an error exactly when some name is unknown; the error lists exactly the unknown names, strictly ascending |
| FastlyLogging.EntryFormatDefault | default.go:120-144 | the same for the fixed catalog; the error is an `UnknownFields` value carrying the list that the message at line 141 joins |
| FastlyLogging.NothingRequestedMeansAll | default.go:121-124 | a request with no non-blank entry gets the whole catalog and no error |
| FastlyLogging.BlankRequestGetsWholeCatalog | default.go:121-124 | for the fixed catalog: an empty or all-blank request gets all 24 entries and no error |
| FastlyLogging.RequestedEntry | default.go:121 | a non-blank entry is requested in its trimmed form, which has the same canonical form |
| FastlyLogging.RequestedFrom | default.go:121 | when something is requested, every requested name is the trimmed form of a non-blank entry |
| FastlyLogging.ResolvedEntry | default.go:128-134 | an entry whose canonical form is a catalog key puts that key with its template into the format, whatever its case and surrounding white space |
| FastlyLogging.FormatKeyFromName | default.go:128-134 | every key of the format is the canonical form of a requested name |
| FastlyLogging.FormatKeyFromEntry | default.go:121-134 | when something is requested, every key of the format is the canonical form of an entry |
| FastlyLogging.FormatKeysFromRequest | default.go:121-134 | when something is requested, a name is a format key exactly when it is a catalog key that some entry canonicalises to |
| FastlyLogging.ErrorIffUnknownRequested | default.go:128-143 | an error is reported exactly when some non-blank entry canonicalises to no catalog key |
| FastlyLogging.UnknownNamesAreTrimmedEntries | default.go:121-138 | a name is reported exactly when it is non-empty, its canonical form is not a catalog key, and it is the trimmed form of an entry; a name that resolves is never reported |
| FastlyLogging.SameEntriesSameRequest | default.go:121 | two requests listing the same entries, in any order and with any repetitions, request the same names, and so get the same format and error |
| FastlyLogging.RepeatedEntryChangesNothing | default.go:121 | repeating an entry leaves the requested names, and so the format and the error, unchanged |
| FastlyLogging.BlankReplacementKeepsRequest | default.go:121 | replacing a blank entry by another blank one leaves the requested names unchanged |
| FastlyLogging.ReplacedEntryCanonicalForms | default.go:129 | replacing an entry by one with the same canonical form keeps the set of canonical forms of the request |
| FastlyLogging.CaseVariantKeepsFormatKey | default.go:128-134 | a case or white-space variant of an entry leaves each key's presence in the format unchanged |
| FastlyLogging.CaseVariantKeepsFormat | default.go:128-134 | a case or white-space variant of an entry leaves the format unchanged |
| FastlyLogging.CaseVariantKeepsError | default.go:128-143 | a case or white-space variant of an entry leaves unchanged whether an error is reported |
| FastlyLogging.SingleEntryRequest | default.go:120-144 | a request of one resolvable entry gets exactly that entry's catalog template and no error |

## Left out

- `cmd/default_s3/main.go`, the command-line program, is not part of this
  model. It only splits a constant and prints the resulting format as JSON.
- The `Entry` struct (`default.go:63-79`) is a plain record that no modelled
  code uses.
- The block comment at the end of `default.go` holds sample formats, not code.
- The text of the error is not modelled. It is built with `fmt.Errorf("known
  fields [%s]", ...)` at `default.go:141`, and the wording "known fields"
  evidently means the unknown ones. The model returns the error as a value
  that carries the list of unknown names.
- `Ascii.TrimSpace`, `Ascii.ToLower`: only ASCII is modelled. Go's
  `unicode.IsSpace` also accepts U+0085 and U+00A0. Go's `strings.ToLower`
  also lower-cases letters outside ASCII.
- `StringsUtil.SliceCondenseSpace`: the `mogo` library's implementation is
  not part of this model. The definition here meets only what the resolver
  relies on:
  - it trims each element and drops blanks;
  - it keeps the first of exact duplicates when deduplicating;
  - it sorts ascending when sorting.
- `StringOrder.Sort`: `sort.Strings` is modelled by a sorting function on
  sequences, not by Go's in-place algorithm. Only the result matters to the
  resolver.
- `FastlyLogging.SortedKeys`: Go's randomised map iteration order is modelled
  as an arbitrary choice of the next key.
- `FastlyLogging.EntryFormatDefault`: a Go map returned by value is modelled
  as a Dafny map value. Aliasing between callers does not arise.
