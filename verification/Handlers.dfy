/** The HTTP surface of the registry (`internal/oci/handler.go`): a GET on a path
    below `/v2` becomes a registry read and its answer a response. */
module Handlers {
  import opened Wrappers
  import opened ByteStrings
  import opened Paths
  import opened Digests
  import opened Listings
  import opened Stores
  import opened Routing
  import opened StorageRoots
  import opened Registries

  const API_VERSION: Bytes := "registry/2.0"
  const JSON_TYPE: Bytes := "application/json; charset=utf-8"
  const TEXT_TYPE: Bytes := "text/plain; charset=utf-8"
  const BLOB_TYPE: Bytes := "application/octet-stream"

  /** The headers the handlers set; absent ones are left to the HTTP library. */
  datatype Headers = Headers(contentType: Bytes, contentDigest: Option<Bytes>, contentLength: Option<nat>,
                             apiVersion: Option<Bytes>)

  datatype ErrorCode = NameUnknown | ManifestUnknown | BlobUnknown

  datatype Body =
    | EmptyObject
    | RepositoryList(repositories: seq<Bytes>)
    | TagList(name: Bytes, tags: seq<Bytes>)
    | Raw(bytes: Bytes)
    | OciError(code: ErrorCode)
    | PlainNotFound
    | InvalidPath

  datatype Response = Response(status: nat, headers: Headers, body: Body)

  function Json(status: nat, body: Body): Response {
    Response(status, Headers(JSON_TYPE, None, None, None), body)
  }

  function V2Check(): Response {
    Json(200, EmptyObject).(headers := Headers(JSON_TYPE, None, None, Some(API_VERSION)))
  }

  function CatalogResponse(repos: seq<Bytes>): Response {
    Json(200, RepositoryList(repos))
  }

  function TagsResponse(name: Bytes, result: Result<seq<Bytes>, RegistryError>): Response {
    match result
    case Success(tags) => Json(200, TagList(name, tags))
    case Failure(_) => Json(404, OciError(NameUnknown))
  }

  function ManifestResponse(result: Result<ManifestFound, RegistryError>): Response {
    match result
    case Success(ManifestFound(data, digest)) =>
      Response(200, Headers(MANIFEST_TYPE, Some(digest), Some(|data|), Some(API_VERSION)), Raw(data))
    case Failure(_) => Json(404, OciError(ManifestUnknown))
  }

  /** The file itself is streamed by the HTTP library, which refuses request paths
      with a `..` component. */
  function BlobResponse(p: Bytes, digest: Bytes, file: Option<Bytes>): Response {
    match file
    case None => Json(404, OciError(BlobUnknown))
    case Some(data) =>
      if HasParent(p) then Response(400, Headers(TEXT_TYPE, Some(digest), None, None), InvalidPath)
      else Response(200, Headers(BLOB_TYPE, Some(digest), None, None), Raw(data))
  }

  /** What a GET of a path is answered with. */
  ghost function Serve(s: Store, p: Bytes): Response {
    match Dispatch(p)
    case HandshakeRoute => V2Check()
    case CatalogRoute => CatalogResponse(ListRepositoriesIn(s))
    case TagsRoute(name) => TagsResponse(name, ListTagsIn(s, name))
    case ManifestRoute(name, reference) => ManifestResponse(GetManifestIn(s, name, reference))
    case BlobRoute(digest) => BlobResponse(p, digest, BlobFile(s, digest))
    case NoRoute => Json(404, PlainNotFound)
  }

  function BlobFile(s: Store, digest: Bytes): Option<Bytes> {
    match BlobPathIn(s, digest)
    case Success(key) => Some(s.files[key])
    case Failure(_) => None
  }

  class Handler {
    const registry: Registry

    constructor (registry: Registry)
      ensures this.registry == registry
    {
      this.registry := registry;
    }

    method Get(p: Bytes) returns (response: Response)
      requires registry.Valid()
      ensures response == Serve(registry.root.Model(), p)
    {
      match Dispatch(p)
      case HandshakeRoute => response := V2Check();
      case CatalogRoute =>
        var repos := registry.ListRepositories();
        response := CatalogResponse(repos);
      case TagsRoute(name) =>
        var result := registry.ListTags(name);
        response := TagsResponse(name, result);
      case ManifestRoute(name, reference) =>
        var result := registry.GetManifest(name, reference);
        response := ManifestResponse(result);
      case BlobRoute(digest) =>
        var path := registry.BlobPath(digest);
        match path {
          case Success(key) => response := BlobResponse(p, digest, Some(registry.root.files[key]));
          case Failure(_) => response := BlobResponse(p, digest, None);
        }
      case NoRoute => response := Json(404, PlainNotFound);
    }
  }

  /******* Error codes *******/

  ghost predicate IsTagsRequest(p: Bytes, name: Bytes) {
    (name != "" && p == "/" + name + "/tags/list") || (name == "tags/list" && p == "/tags/list")
  }

  ghost predicate IsManifestRequest(p: Bytes, name: Bytes, reference: Bytes) {
    p == "/" + name + "/manifests/" + reference && name != "" && PlainReference(reference)
  }

  ghost predicate IsBlobRequest(p: Bytes, digest: Bytes) {
    PlainDigest(digest) && exists name :: PlainName(name) && p == "/" + name + "/blobs/" + digest
  }

  /** When each error code is sent, for every path and every store: NAME_UNKNOWN for
      the tags of a name under which no key is stored, MANIFEST_UNKNOWN for a
      digest that is not indexed or a tag that leads to none that is,
      BLOB_UNKNOWN for a digest without a file. */
  lemma ErrorCodesExactly(s: Store, p: Bytes)
    requires "/" <= p
    ensures Serve(s, p) ==
            Response(404, Headers("application/json; charset=utf-8", None, None, None), OciError(NameUnknown)) <==>
            exists name :: IsTagsRequest(p, name) && forall tag: Bytes :: name + ":" + tag !in s.tags
    ensures Serve(s, p) ==
            Response(404, Headers("application/json; charset=utf-8", None, None, None), OciError(ManifestUnknown)) <==>
            exists name, reference ::
              && IsManifestRequest(p, name, reference)
              && (if "sha256:" <= reference then reference !in s.manifests
                  else name + ":" + reference !in s.tags || s.tags[name + ":" + reference] !in s.manifests)
    ensures Serve(s, p) ==
            Response(404, Headers("application/json; charset=utf-8", None, None, None), OciError(BlobUnknown)) <==>
            exists digest ::
              && IsBlobRequest(p, digest)
              && (ReadKey(s.blobRoot, digest).None? || ReadKey(s.blobRoot, digest).value !in s.files)
    ensures Serve(s, p) ==
            Response(404, Headers("application/json; charset=utf-8", None, None, None), PlainNotFound) <==>
            Dispatch(p) == NoRoute
  {
    DispatchExactly(p);
    assert forall name :: Dispatch(p) == TagsRoute(name) <==> IsTagsRequest(p, name);
    assert forall name, reference ::
        Dispatch(p) == ManifestRoute(name, reference) <==> IsManifestRequest(p, name, reference);
    assert forall digest :: Dispatch(p) == BlobRoute(digest) <==> IsBlobRequest(p, digest);
    if Dispatch(p).TagsRoute? {
      TagsUnknownExactly(s, Dispatch(p).name);
    }
  }

  lemma TagsUnknownExactly(s: Store, name: Bytes)
    ensures TagsResponse(name, ListTagsIn(s, name)) == Json(404, OciError(NameUnknown)) <==>
            forall tag: Bytes :: name + ":" + tag !in s.tags
  {
    ListTagsMeaning(s, name);
    assert forall tag :: TagKey(name, tag) == name + ":" + tag;
  }

  /** A storage root without files and index serves the handshake and an empty
      catalog, and knows no name, manifest or blob a client may ask for. */
  lemma EmptyRootIsServed(blobRoot: FilePath, name: Bytes, reference: Bytes, digest: Bytes)
    requires name != "" && PlainReference(reference) && PlainDigest(digest)
    ensures var s := Store(blobRoot, map[], map[], map[]);
            var json := Headers("application/json; charset=utf-8", None, None, None);
            && Serve(s, "/") == Response(200, json.(apiVersion := Some("registry/2.0")), EmptyObject)
            && Serve(s, "/_catalog") == Response(200, json, RepositoryList([]))
            && Serve(s, "/" + name + "/tags/list") == Response(404, json, OciError(NameUnknown))
            && Serve(s, "/" + name + "/manifests/" + reference) == Response(404, json, OciError(ManifestUnknown))
            && (PlainName(name) ==>
                  Serve(s, "/" + name + "/blobs/" + digest) == Response(404, json, OciError(BlobUnknown)))
  {
    HeadIsMember(TagKeys(Store(blobRoot, map[], map[], map[])));
    TagsRouteExactly(TagsPath(name), name);
    ManifestRouteExactly(ManifestPath(name, reference), name, reference);
    BlobRouteRoundTrip(name, digest);
  }
}
