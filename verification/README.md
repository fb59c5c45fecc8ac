# SmartFHIR client core, modelled in Dafny

This project models three pieces of the SmartFHIR Swift client library and
proves properties of them:

1. **Response reconciliation** (`FHIRServerDataResponse.swift`): building the
   header map from an HTTP response (with the one `Etag` → `ETag` rename),
   classifying transport errors, the JSON response's decision table that turns
   status, body and transport error into an error value, the base `applyBody`,
   and `applyHeaders(to:)`, which reads `Location`
   (`{base}{type}/{id}[/_history/{vid}]`, section 7.1.2 of RFC 7231),
   `Last-Modified` and `ETag` (section 2.3 of RFC 7232) into a resource's `id`
   and `meta`, in that order, so that a later header overwrites what an earlier
   one set.
2. **Containment** (`DomainResource+Containment.swift`): looking a contained
   resource up by id, containing a resource (refusing self-containment and a
   missing or empty id, replacing the first entry with the same id by object
   identity, appending, returning a `#id` reference), and building a
   relative reference to a resource.
3. **Patient list ordering** (`PatientListOrder.swift`): the given-name,
   family-name and birth-date comparators with their `ZZZ` and birth-date
   sentinels, the three lexicographic chains, `ordered`, and the display form
   of a human name.

Files:

| file | module | contents |
|---|---|---|
| `wrappers.dfy` | `Wrappers` | `Option`, `Result`, `Outcome` |
| `strings.dfy` | `Strings` | prefix/suffix tests, ordinal string order, remove-all, split and join |
| `resources.dfy` | `Resources` | resources with identity handles, `Meta`, `Reference`, the error type |
| `containment.dfy` | `Containment` | containment, lookup, references |
| `response.dfy` | `ServerResponse` | header map, data and JSON responses, `applyBody` |
| `apply_headers.dfy` | `ResponseHeaders` | `applyHeaders(to:)` and ETag normalisation |
| `patient_order.dfy` | `PatientListOrder` | comparators, chains, sorting, name display |

Modelling choices:

- Everything is an immutable value. A Swift object's identity (`===`, `!==`)
  is an explicit `Handle` on the resource, separate from its FHIR `id`. A
  mutating Swift method becomes a function that returns the updated value.
  When such a method throws, the model returns `Failure` and no updated value,
  so the caller still holds the unchanged resource.
- Library calls the client makes but does not own are opaque. They are passed
  in as function values: JSON deserialisation, UTF-8 decoding, decoding an
  OperationOutcome, the standard status-code text, and parsing an `Instant`.
  The server base URL is an explicit `Option<string>` parameter. The source's
  `_server` getter (`Sources/SmartFHIR/MigrationGaps/FHIRAbstractBase.swift`)
  is a stub that always returns nil, so in the current code the Location step
  never runs. The model keeps it reachable by taking the base as a parameter;
  `LocationIgnoredWithoutBase` is what the current code does.
- Swift optional arrays (`given`, `prefix`, `suffix`, `name`) are modelled as
  sequences. Every function here treats a nil list and an empty list alike.
- Birth dates are whole seconds from the epoch. The missing-date sentinel
  −70 × 365.25 days is −2 209 032 000 s. That is exact in seconds but not a
  whole number of days.
- Swift string `<`, `==`, `hasPrefix` and `hasSuffix` are modelled as
  ordinal operations, character by character (see "## Left out").
- The JSON response's `catch let error` branch after `catch let error as
  NSError` is not modelled. Every Swift error bridges to `NSError`, so the
  first handler catches everything and the second is never reached.
- The `"Error"` fallback message is modelled. It can only apply to a non-HTTP
  response, whose status is 0, so it is never used for status ≥ 400;
  `JsonResponse` states the status text as the last fallback.

Behaviour of the code worth noting:

- A missing name reads as `ZZZ`, so lower-case names sort after it
  (`SentinelIsNotMaximal`).
- `Ordered` makes no claim about the relative order of patients with equal
  keys.
- An unparseable `Last-Modified` overwrites `lastUpdated` with nil.
- Exempting malformed JSON from being recorded on a failed response has no
  visible effect: any status ≥ 400 ends with a request error that replaces
  the parse error (`ParseFailureKindIrrelevantOnFailure`).
- The two initialisers word the error of an unknown kind differently: the
  data initialiser uses its localized description, the error-only
  initialiser its description (`InitsAgree`).

## Model

| member | source | states |
|---|---|---|
| `Strings.RemoveAll` | Sources/SmartFHIR/FHIRClient/FHIRServerDataResponse.swift:29 | removal never lengthens the string, and an empty base removes nothing |
| `Strings.RemoveAllNone` | Sources/SmartFHIR/FHIRClient/FHIRServerDataResponse.swift:29 | a string in which no occurrence of the base starts is returned unchanged |
| `Strings.RemoveAllSkip` | Sources/SmartFHIR/FHIRClient/FHIRServerDataResponse.swift:29 | removal goes occurrence by occurrence: in `u + base + v`, with no occurrence of the base starting inside `u`, `u` is kept, that occurrence is dropped and removal continues in `v` |
| `Strings.RemoveAllAbsent` | Sources/SmartFHIR/FHIRClient/FHIRServerDataResponse.swift:29 | a string lacking some character of the base holds no occurrence of it and is left unchanged |
| `Strings.Split` | Sources/SmartFHIR/FHIRClient/FHIRServerDataResponse.swift:30 | there is at least one component and no component contains the separator |
| `Strings.SplitCount` | Sources/SmartFHIR/FHIRClient/FHIRServerDataResponse.swift:30 | there is exactly one component more than the string has separators, and a string without separator is its own single component |
| `Strings.Join` | Sources/SmartFHIR/SMARTClient/PatientListOrder.swift:130 | a join of at least one part is as long as the parts together plus one separator per gap |
| `Strings.JoinSplit` | Sources/SmartFHIR/FHIRClient/FHIRServerDataResponse.swift:30 | joining the `/`-separated components of a path with `/` restores the path |
| `Strings.SplitJoin` | Sources/SmartFHIR/SMARTClient/PatientListOrder.swift:130 | splitting a join of separator-free parts returns exactly those parts |
| `ServerResponse.HeaderMap` | Sources/SmartFHIR/FHIRClient/FHIRServerDataResponse.swift:113-127 | a key is in the header map iff some field with a string key and string value stores under it; its value is the one from the last such field; `Etag` never appears as a key |
| `ServerResponse.HeaderCopied` | Sources/SmartFHIR/FHIRClient/FHIRServerDataResponse.swift:118-122 | with distinct dictionary keys, every string header other than `Etag`/`ETag` is copied under its own key with its value unchanged |
| `ServerResponse.NonStringHeaderDropped` | Sources/SmartFHIR/FHIRClient/FHIRServerDataResponse.swift:119-125 | a header whose value is not a string is absent from the map |
| `ServerResponse.EtagRenamed` | Sources/SmartFHIR/FHIRClient/FHIRServerDataResponse.swift:121 | a string `Etag` header is stored as `ETag` when no string `ETag` header competes with it |
| `ServerResponse.TransportError` | Sources/SmartFHIR/FHIRClient/FHIRServerDataResponse.swift:131-139 | a URL-loading error becomes a request error for the status; a client error passes through; any other error becomes a generic error with its localized description |
| `ServerResponse.DataResponse` | Sources/SmartFHIR/FHIRClient/FHIRServerDataResponse.swift:111-145 | status and headers come from an HTTP response (status 0 and no headers otherwise), the body is kept, and an error is present exactly when the transport reported one |
| `ServerResponse.FromError` | Sources/SmartFHIR/FHIRClient/FHIRServerDataResponse.swift:147-160 | a response without a response: status 0, no headers or body, and always an error, using the error's description for errors outside the two known kinds |
| `ServerResponse.ApplyBody` | Sources/SmartFHIR/FHIRClient/FHIRServerDataResponse.swift:181-185 | fails with "no resource received" exactly when there is no body |
| `ServerResponse.InitsAgree` | Sources/SmartFHIR/FHIRClient/FHIRServerDataResponse.swift:147-160 | the error-only initialiser gives exactly the data initialiser's response for a non-HTTP response without body, except that an error of an unknown kind is worded by its description instead of its localized description |
| `ServerResponse.ApplyBodyAcrossResponses` | Sources/SmartFHIR/FHIRClient/FHIRServerDataResponse.swift:181-185 | `applyBody` always fails on a response built from an error alone, agrees between the JSON response and its base response, fails exactly when the body is nil, and passes an empty body that is never parsed |
| `ServerResponse.JsonResponse` | Sources/SmartFHIR/FHIRClient/FHIRServerDataResponse.swift:200-245 | only a present, non-empty body is parsed and only a JSON object is kept. At status ≥ 400 the error is always a request error for that status, with the message taken from the first OperationOutcome issue (with `unknown` defaults), else the JSON `error` string, else the status text. Below 400 a parse failure is recorded with the raw text; otherwise the transport's error stands |
| `ServerResponse.ParseFailureKindIrrelevantOnFailure` | Sources/SmartFHIR/FHIRClient/FHIRServerDataResponse.swift:208-213 | at status ≥ 400 any two kinds of parse failure give the same response, so the malformed-input exemption cannot be observed |
| `ServerResponse.NotFoundExample` | Sources/SmartFHIR/FHIRClient/FHIRServerDataResponse.swift:234-235 | a 404 with JSON body `{"error": "not found"}` and no OperationOutcome classifies as request error (404, "not found") |
| `ServerResponse.SuccessfulJsonResponse` | Sources/SmartFHIR/FHIRClient/FHIRServerDataResponse.swift:204-207 | a success status with a JSON object body and no transport error has no error, keeps the object and accepts `applyBody` |
| `ResponseHeaders.NormaliseETag` | Sources/SmartFHIR/FHIRClient/FHIRServerDataResponse.swift:57-66 | at most four characters are removed, and a tag that starts with neither `W/` nor a quote and does not end with a quote is kept as it is |
| `ResponseHeaders.ETagFraming` | Sources/SmartFHIR/FHIRClient/FHIRServerDataResponse.swift:57-66 | the tag is its normalised value framed by `W/` if it starts with one, then `"` if what remains starts with one, and `"` if what remains after that ends with one; nothing else is removed |
| `ResponseHeaders.WeakUnquotedETag` | Sources/SmartFHIR/FHIRClient/FHIRServerDataResponse.swift:58-60 | `W/v` normalises to `v` when `v` has no quote at either end |
| `ResponseHeaders.OpenQuoteOnlyETag` | Sources/SmartFHIR/FHIRClient/FHIRServerDataResponse.swift:61-63 | `"v` normalises to `v` when `v` does not end with a quote |
| `ResponseHeaders.CloseQuoteOnlyETag` | Sources/SmartFHIR/FHIRClient/FHIRServerDataResponse.swift:64-66 | `v"` normalises to `v` when `v` starts with neither `W/` nor a quote |
| `ResponseHeaders.StrongETagRoundTrip` | Sources/SmartFHIR/FHIRClient/FHIRServerDataResponse.swift:61-66 | a strong entity tag `"v"` normalises to `v`, for every `v` |
| `ResponseHeaders.WeakETagRoundTrip` | Sources/SmartFHIR/FHIRClient/FHIRServerDataResponse.swift:58-66 | a weak entity tag `W/"v"` normalises to `v`, for every `v` |
| `ResponseHeaders.ETagStripsOneQuoteEachEnd` | Sources/SmartFHIR/FHIRClient/FHIRServerDataResponse.swift:58-66 | at most one quote is removed at each end: `W/""9""` gives `"9"` |
| `ResponseHeaders.ApplyHeaders` | Sources/SmartFHIR/FHIRClient/FHIRServerDataResponse.swift:23-70 | fails exactly when an applicable Location has fewer than two segments or names another type. Only `id` and `meta` change. `id` is segment 1 of an applicable Location. A present ETag's normalised value is the final version, otherwise a `_history` segment sets it. A present Last-Modified sets `lastUpdated` to the parse result, nil included. When no step writes to `meta` it is left exactly as it was, so a Location that is not applied and no ETag or Last-Modified leave the resource untouched |
| `ResponseHeaders.StripBase` | Sources/SmartFHIR/FHIRClient/FHIRServerDataResponse.swift:28-29 | a location made of the base and a path that lacks one of the base's characters starts with the base, and removing the base leaves the path |
| `ResponseHeaders.LocationWithHistoryRoundTrip` | Sources/SmartFHIR/FHIRClient/FHIRServerDataResponse.swift:26-39 | a Location `{base}{type}/{id}/_history/{vid}` for the resource's own type sets `id` and `versionId` and nothing else |
| `ResponseHeaders.LocationWithoutHistoryRoundTrip` | Sources/SmartFHIR/FHIRClient/FHIRServerDataResponse.swift:26-36 | a Location `{base}{type}/{id}` sets `id` and leaves `meta` alone |
| `ResponseHeaders.LocationTypeMismatch` | Sources/SmartFHIR/FHIRClient/FHIRServerDataResponse.swift:31-33 | a Location naming another resource type fails with the mismatch error carrying the location and the expected type |
| `ResponseHeaders.LocationIgnoredWithoutBase` | Sources/SmartFHIR/FHIRClient/FHIRServerDataResponse.swift:45-47 | without a server base a Location header leaves the resource unchanged |
| `ResponseHeaders.CreatedPatientExample` | Sources/SmartFHIR/FHIRClient/FHIRServerDataResponse.swift:26-39 | `https://host/Patient/42/_history/7` on base `https://host/` gives id `42` and version `7` |
| `ResponseHeaders.ETagWinsOverHistory` | Sources/SmartFHIR/FHIRClient/FHIRServerDataResponse.swift:36-39 | with a Location carrying `_history/7` and ETag `"9"`, the id comes from Location and the version is `9` |
| `ResponseHeaders.WeakETagExample` | Sources/SmartFHIR/FHIRClient/FHIRServerDataResponse.swift:57-69 | ETag `W/"1339"` yields version `1339` |
| `Containment.FirstWithId` | Sources/SmartFHIR/FHIRClient/DomainResource+Containment.swift:23-28 | the position found carries the id and no earlier entry does |
| `Containment.ContainedResource` | Sources/SmartFHIR/FHIRClient/DomainResource+Containment.swift:21-31 | returns the first contained resource with the id; none exactly when no entry has it, in particular when nothing is contained |
| `Containment.WithoutHandle` | Sources/SmartFHIR/FHIRClient/DomainResource+Containment.swift:61 | keeps exactly the entries that are not the given instance; a single entry is kept or dropped by its identity |
| `Containment.WithoutHandleAppend` | Sources/SmartFHIR/FHIRClient/DomainResource+Containment.swift:61 | filtering a concatenation is the concatenation of the filtered pieces, so kept entries keep their order and multiplicity |
| `Containment.Contain` | Sources/SmartFHIR/FHIRClient/DomainResource+Containment.swift:48-73 | containing itself fails first, then a nil or empty id fails; it succeeds otherwise. On success the reference is `#id` with the given display, only `contained` changes, and the new resource is last. For every container, repeated instances included, the new list is the old one with the instance first found with the id filtered out, or the old one unchanged when no entry has the id, followed by the resource |
| `Containment.ContainReplacesInPlace` | Sources/SmartFHIR/FHIRClient/DomainResource+Containment.swift:57-64 | with distinct identities, the first entry with the same id is removed and the others keep their order, so the count is unchanged; with no such entry the resource is appended and the count grows by one |
| `Containment.ContainKeepsDistinctHandles` | Sources/SmartFHIR/FHIRClient/DomainResource+Containment.swift:57-64 | containing an instance not already contained keeps the contained instances distinct, so the in-place replacement holds again for the next `Contain` |
| `Containment.ContainThenLookup` | Sources/SmartFHIR/FHIRClient/DomainResource+Containment.swift:57-64 | if contained ids were unique, looking the id up after `Contain` finds exactly the new resource |
| `Containment.ContainKeepsIdsUnique` | Sources/SmartFHIR/FHIRClient/DomainResource+Containment.swift:57-64 | `Contain` keeps contained ids unique |
| `Containment.ReferenceTo` | Sources/SmartFHIR/FHIRClient/DomainResource+Containment.swift:101-112 | fails with "resource without id" exactly when the id is nil; otherwise the reference starts with the relative URL base, ends with `/id`, is exactly one character (the slash) longer than the two together, and carries the display |
| `Containment.ReferenceSegments` | Sources/SmartFHIR/FHIRClient/DomainResource+Containment.swift:106 | with a slash-free base and id the reference splits into exactly `[base, id]` |
| `Containment.EmptyIdReferencedButNotContained` | Sources/SmartFHIR/FHIRClient/DomainResource+Containment.swift:52-54 | an empty id is accepted by `ReferenceTo` and refused by `Contain` |
| `PatientListOrder.CompareStrings` | Sources/SmartFHIR/SMARTClient/PatientListOrder.swift:84-91 | returns −1, 0 or 1 exactly as the first string is less than, equal to or greater than the second in ordinal order |
| `PatientListOrder.CompareNameGiven` | Sources/SmartFHIR/SMARTClient/PatientListOrder.swift:81-92 | −1, 0 or 1 according to the ordinal order of the first given names, a missing one read as `ZZZ` |
| `PatientListOrder.CompareNameFamily` | Sources/SmartFHIR/SMARTClient/PatientListOrder.swift:94-105 | −1, 0 or 1 according to the ordinal order of the family names, a missing one read as `ZZZ` |
| `PatientListOrder.CompareBirthDate` | Sources/SmartFHIR/SMARTClient/PatientListOrder.swift:107-111 | −1, 0 or 1 according to the birth dates, a missing one read as 70 Julian years before the epoch |
| `PatientListOrder.ComparatorsAntisymmetric` | Sources/SmartFHIR/SMARTClient/PatientListOrder.swift:81-111 | each comparator gives 0 on a patient and itself and `cmp(a, b) == -cmp(b, a)` |
| `PatientListOrder.SentinelIsNotMaximal` | Sources/SmartFHIR/SMARTClient/PatientListOrder.swift:82-83 | a patient with given name `adam` sorts after one with no given name |
| `PatientListOrder.Precedes` | Sources/SmartFHIR/SMARTClient/PatientListOrder.swift:33-75 | no patient precedes itself, and a patient precedes another only if the chain's leading comparator does not put it after |
| `PatientListOrder.PrecedesIsKeyOrder` | Sources/SmartFHIR/SMARTClient/PatientListOrder.swift:33-75 | each chain is the lexicographic order on its key: (given, family, birth date), (family, given, birth date), (birth date, family, given) |
| `PatientListOrder.ChainIsTotalPreorder` | Sources/SmartFHIR/SMARTClient/PatientListOrder.swift:33-75 | each chain is irreflexive, asymmetric and transitive, and its "not after" relation is reflexive, total and transitive |
| `PatientListOrder.Ordered` | Sources/SmartFHIR/SMARTClient/PatientListOrder.swift:33-75 | the result is a permutation of the input in which no patient is preceded by a later one under the chosen chain |
| `PatientListOrder.GivenNameExample` | Sources/SmartFHIR/SMARTClient/PatientListOrder.swift:35-47 | patients given only "Ben" and "Anna" are ordered Anna, Ben by given name |
| `PatientListOrder.NameParts` | Sources/SmartFHIR/SMARTClient/PatientListOrder.swift:122-128 | the prefixes first, then the given names, then a non-empty family name, then the suffixes, each in order and each part without a value read as the empty string |
| `PatientListOrder.HumanNameDisplay` | Sources/SmartFHIR/SMARTClient/PatientListOrder.swift:117-131 | no name gives none; a name without parts gives its text; otherwise the parts in order with exactly one space before each part but the first, and nothing else (length is total part length plus one per gap) |
| `Strings.JoinLayout` | Sources/SmartFHIR/SMARTClient/PatientListOrder.swift:130 | a join of at least one part places each part at its offset, the separator before every part but the first, and nothing else |
| `PatientListOrder.DisplayRecoversParts` | Sources/SmartFHIR/SMARTClient/PatientListOrder.swift:128-130 | when no part contains a space, splitting the display on spaces returns exactly the parts in order, so they are joined by single spaces |
| `PatientListOrder.EmptyPartsExample` | Sources/SmartFHIR/SMARTClient/PatientListOrder.swift:123-128 | an empty family name is skipped but a given name without a value still contributes an empty part: prefix `Dr`, givens (none, `Ann`) and family `""` display as `Dr  Ann` |

## Left out

- `currentAge` and `displayNameFamilyGiven`: these depend on the current date, the user's calendar and localised strings.
- `debugDescription` and `Error.humanized`: UTF-8 decoding and a localised message table. The humanized text is an opaque field of the URL-loading error.
- `responseResource(ofType:)`: a decoding wrapper. Its effect on the failure path is the opaque OperationOutcome decoder, applied only when a JSON object was parsed.
- JSONSerialization, JSONDecoder, `Instant` parsing, UTF-8 decoding and `HTTPURLResponse.localizedString`: these are library code and are passed in as opaque functions.
- Foundation's own header-name canonicalisation: the model starts from the fields as Foundation reports them, and only the `Etag` rename is modelled.
- The handler reference stored in a response, and warning and debug logging: these have no effect on the modelled state.
- `Containment.Contain`: Swift stores references to live objects, so later changes to a contained resource show up in the container. The model contains a snapshot of the value.
- `Containment.ReferenceTo`: `relativeURLBase()` is an opaque string parameter. The id is interpolated as a string; an id element without a value is not distinguished from one with a value.
- `PatientListOrder.Ordered`: it is specified as a sorted permutation and is computed by insertion. It makes no claim about the relative order of patients with equal keys.
- Canonical equivalence and grapheme clusters: Swift's `String` `==`, `<`, `hasPrefix`, `hasSuffix` and index offsets work on grapheme clusters under canonical equivalence, while the model compares characters one by one. So given names `Jos\u{E9}` and `Jose\u{301}` compare equal in Swift but not in `PatientListOrder.CompareNameGiven`, and an ETag whose opening quote is followed by a combining mark keeps that quote in Swift but loses it in `ResponseHeaders.NormaliseETag`.
- `PatientListOrder.CompareBirthDate`: dates compare in whole seconds. Sub-second precision of `Date` is not modelled.
- Reference resolution (`Reference+Resolve.swift`), the async search bridge (`FHIRSearch+Async.swift`), the OAuth protocol (`OAuthServer.swift`) and the stubbed `FHIRAbstractBase.swift`: these are network reads, concurrency bridges and declarations with no logic to verify.
- Bundle- and URN-based resolution and `relativeReference()`: no implementation of them is part of this model.
