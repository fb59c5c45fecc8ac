/** The data model shared by the client components: resources with an explicit
    identity handle, their `meta` block, references, and the client's error
    taxonomy. */
module Resources {
  import opened Wrappers

  /** Object identity of a resource instance (Swift's `===`), kept apart from
      the FHIR `id` string the resource carries. */
  datatype Handle = Handle(n: nat)

  /** A parsed FHIR `instant`; how a header string becomes one is opaque here. */
  datatype Instant = Instant(epochSeconds: int)

  datatype Meta = Meta(versionId: Option<string>, lastUpdated: Option<Instant>)

  /** The `meta` block, or a fresh empty one (`resource.meta ?? Meta()`). */
  function MetaOrEmpty(m: Option<Meta>): Meta {
    m.GetOr(Meta(None, None))
  }

  /** A (domain) resource: its identity, the name of its resource type, its
      FHIR `id`, its `meta` and the resources it contains. */
  datatype Resource = Resource(
    handle: Handle,
    resourceType: string,
    id: Option<string>,
    meta: Option<Meta>,
    contained: Option<seq<Resource>>)

  /** A FHIR `Reference` element: the reference string and display text. */
  datatype Reference = Reference(reference: Option<string>, display: Option<string>)

  /** The cases of the client's error type that the modelled code raises or
      classifies; any other case travels through unchanged as `OtherFhirError`. */
  datatype FhirError =
    | Error(message: string)
    | RequestError(status: int, message: string)
    | JsonParsingError(message: string, raw: string)
    | ResponseNoResourceReceived
    | ResponseLocationHeaderResourceTypeMismatch(location: string, expectedType: string)
    | ResourceCannotContainItself
    | ResourceWithoutId
    | OtherFhirError(name: string)
}
