/** Data model of an OCI Image Layout directory as seen by the ocidir backend:
    descriptors, the index document, references, and the error values the
    backend reports. */
module OciTypes {

  /** Annotation key that carries the tag ("reference name") of a descriptor. */
  const RefNameKey: string := "org.opencontainers.image.ref.name"

  /** The only layout version the backend writes and accepts. */
  const LayoutVersion: string := "1.0.0"

  /** Tag used for lookups by a reference that carries neither tag nor digest. */
  const LatestTag: string := "latest"

  /** Schema version and media type of a freshly created index document
      (OCI Image Format Specification, image index). */
  const IndexSchemaVersion: int := 2
  const IndexMediaType: string := "application/vnd.oci.image.index.v1+json"

  datatype Option<T> = None | Some(value: T)

  /** One catalogued manifest or manifest list. A missing annotation map is
      the empty map. */
  datatype Descriptor = Descriptor(
    mediaType: string,
    digest: string,
    size: int,
    annotations: map<string, string>)

  /** The decoded `index.json` document. */
  datatype Index = Index(
    schemaVersion: int,
    mediaType: string,
    manifests: seq<Descriptor>,
    annotations: map<string, string>)

  /** The parts of a parsed reference the backend looks at: the layout
      directory, and an optional (empty) tag and digest. */
  datatype Ref = Ref(path: string, tag: string, digest: string)

  /** Errors of the backend; wrapped errors keep their cause. */
  datatype Error =
    | NotFound
    | IndexNil
    | MarkerOpen
    | MarkerRead
    | MarkerParse
    | VersionMismatch(expected: string, received: string)
    | IndexOpen
    | IndexRead
    | IndexParse
    | MkdirFailed
    | MarkerCreate
    | MarkerWrite
    | TempCreate
    | TempStat
    | TempWrite
    | TempClose
    | RenameFailed
    | UpdateFailed(cause: Error)
    | WriteFailed(cause: Error)

  datatype Result<T> = Ok(value: T) | Err(error: Error)

  /** Result of an operation that only succeeds or fails. */
  datatype Outcome = Pass | Fail(error: Error)

  /** The tag a descriptor carries; the empty string when it is untagged
      (no annotation map, no reference-name key, or an empty value). */
  function RefName(d: Descriptor): string {
    if RefNameKey in d.annotations then d.annotations[RefNameKey] else ""
  }

  predicate HasSuffix(s: string, suffix: string) {
    |suffix| <= |s| && s[|s| - |suffix|..] == suffix
  }
}
