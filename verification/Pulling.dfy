/** The registry from end to end: what a client gets over HTTP from a storage root
    that the seeder has filled. */
module Pulling {
  import opened Wrappers
  import opened ByteStrings
  import opened Paths
  import opened Digests
  import opened Listings
  import opened Stores
  import opened Seeding
  import opened Effects
  import opened Routing
  import opened Handlers

  /******* Digests and tags as parts of a path *******/

  /** Text with no slash but perhaps its first character holds no separator. */
  lemma FewSlashesArePlain(r: Bytes)
    requires r != "" && forall k :: 1 <= k < |r| ==> r[k] != '/'
    ensures PlainReference(r) && PlainDigest(r)
  {
    var t := "/" + r;
    assert forall k :: 1 < k < |t| ==> t[k] == r[k - 1] != '/';
    forall i ensures !OccursAt(t, MANIFESTS, i) && !OccursAt(t, BLOBS, i) {
      if OccursAt(t, MANIFESTS, i) { OccurrenceChar(t, MANIFESTS, i, 10); }
      if OccursAt(t, BLOBS, i) { OccurrenceChar(t, BLOBS, i, 6); }
    }
    if HasSuffix(t, TAGS_LIST) { OccurrenceChar(t, TAGS_LIST, |t| - 10, 5); }
  }

  lemma DigestChars(sha: HashFunction, data: Bytes)
    ensures var d := DigestOf(sha, data);
            forall k :: 0 <= k < |d| ==> d[k] !in {'.', '/'}
  {
    var d, h := DigestOf(sha, data), Hex(sha(data));
    HexIsLower(sha(data));
    forall k | 0 <= k < |d| ensures d[k] !in {'.', '/'} {
      assert k >= 7 ==> d[k] == h[k - 7];
      assert k < 7 ==> d[k] == SHA256_PREFIX[k];
    }
  }

  lemma DigestIsPlain(sha: HashFunction, data: Bytes)
    ensures PlainReference(DigestOf(sha, data)) && PlainDigest(DigestOf(sha, data))
    ensures "sha256:" <= DigestOf(sha, data)
  {
    DigestChars(sha, data);
    FewSlashesArePlain(DigestOf(sha, data));
  }

  /** Between slashes, with no dot behind, a `..` component can only be in the name. */
  lemma ParentInName(repo: Bytes, rest: Bytes)
    requires rest != "" && rest[0] == '/' && forall k :: 0 <= k < |rest| ==> rest[k] != '.'
    ensures HasParent("/" + repo + rest) <==> HasParent(repo)
  {
    var p := "/" + repo + rest;
    assert forall k :: |repo| + 1 <= k < |p| ==> p[k] == rest[k - |repo| - 1];
    assert forall k :: 1 <= k <= |repo| ==> p[k] == repo[k - 1];
    forall i ensures ParentAt(p, i) <==> ParentAt(repo, i - 1) {
    }
    if i :| 0 <= i < |p| && ParentAt(p, i) {
      assert ParentAt(repo, i - 1);
    }
    if i :| 0 <= i < |repo| && ParentAt(repo, i) {
      assert ParentAt(p, i + 1);
    }
  }

  /** A blob path of a digest without dots has a `..` component only if the name has. */
  lemma ParentOfBlobPath(repo: Bytes, d: Bytes)
    requires forall k :: 0 <= k < |d| ==> d[k] != '.'
    ensures HasParent(BlobPath(repo, d)) <==> HasParent(repo)
  {
    assert BlobPath(repo, d) == "/" + repo + (BLOBS + d);
    ParentInName(repo, BLOBS + d);
  }

  /******* Single requests *******/

  ghost function ManifestOk(bytes: Bytes, digest: Bytes): Response {
    Response(200,
             Headers("application/vnd.oci.image.manifest.v1+json", Some(digest), Some(|bytes|), Some("registry/2.0")),
             Raw(bytes))
  }

  ghost function BlobOk(digest: Bytes, data: Bytes): Response {
    Response(200, Headers("application/octet-stream", Some(digest), None, None), Raw(data))
  }

  ghost function NotFound(code: ErrorCode): Response {
    Response(404, Headers("application/json; charset=utf-8", None, None, None), OciError(code))
  }

  lemma TagRequest(t: Store, repo: Bytes, tag: Bytes)
    requires repo != "" && PlainReference(tag) && !("sha256:" <= tag)
    ensures Serve(t, "/" + repo + "/manifests/" + tag) ==
            var key := TagKey(repo, tag);
            if key in t.tags then ManifestResponse(ManifestByDigest(t, t.tags[key]))
            else NotFound(ManifestUnknown)
  {
    ManifestRouteExactly("/" + repo + "/manifests/" + tag, repo, tag);
  }

  /** Asking for a tag, which is any reference that does not start with `sha256:`,
      yields the manifest of the last artifact seeded under it, byte for byte,
      and MANIFEST_UNKNOWN when there is none. */
  lemma {:induction false} ServedTag(codec: Codec, s: Store, artifacts: seq<Artifact>, repo: Bytes, tag: Bytes)
    requires CollisionFree(codec, artifacts)
    requires repo != "" && PlainReference(tag) && !("sha256:" <= tag)
    ensures Serve(Seeded(codec, s, artifacts), "/" + repo + "/manifests/" + tag) ==
            match Owner(artifacts, repo + ":" + tag)
            case None =>
              Response(404, Headers("application/json; charset=utf-8", None, None, None), OciError(ManifestUnknown))
            case Some(a) =>
              var bytes := codec.marshal(ManifestOf(codec, a));
              Response(200,
                       Headers("application/vnd.oci.image.manifest.v1+json",
                               Some("sha256:" + Hex(codec.sha(bytes))), Some(|bytes|), Some("registry/2.0")),
                       Raw(bytes))
  {
    var t, key := Seeded(codec, s, artifacts), TagKey(repo, tag);
    TagRequest(t, repo, tag);
    SeededTags(codec, s, artifacts, key);
    var owner := Owner(artifacts, key);
    if owner.Some? {
      SeededManifestBytes(codec, s, artifacts, owner.value);
    }
  }

  lemma DigestRequest(t: Store, repo: Bytes, digest: Bytes)
    requires repo != "" && PlainReference(digest) && "sha256:" <= digest
    ensures Serve(t, "/" + repo + "/manifests/" + digest) == ManifestResponse(ManifestByDigest(t, digest))
  {
    ManifestRouteExactly(ManifestPath(repo, digest), repo, digest);
  }

  /** A reference that starts with `sha256:` is never looked up as a tag: under any
      repository name it yields the seeded manifest with that digest, and
      MANIFEST_UNKNOWN when there is none. */
  lemma {:induction false} ServedDigest(codec: Codec, s: Store, artifacts: seq<Artifact>, repo: Bytes, digest: Bytes)
    requires CollisionFree(codec, artifacts) && repo != ""
    requires PlainReference(digest) && "sha256:" <= digest
    ensures var response := Serve(Seeded(codec, s, artifacts), "/" + repo + "/manifests/" + digest);
            && (forall a :: a in artifacts && ManifestDigest(codec, a) == digest ==>
                  response == ManifestOk(ManifestBytes(codec, a), digest))
            && ((forall a :: a in artifacts ==> ManifestDigest(codec, a) != digest)
                ==> response == NotFound(ManifestUnknown))
  {
    DigestRequest(Seeded(codec, s, artifacts), repo, digest);
    SeededManifests(codec, s, artifacts, digest);
    forall a | a in artifacts && ManifestDigest(codec, a) == digest
      ensures Seeded(codec, s, artifacts).manifests[digest] == ManifestBytes(codec, a)
    {
      SeededManifestBytes(codec, s, artifacts, a);
    }
  }

  lemma PlainBlobRequest(t: Store, repo: Bytes, d: Bytes)
    requires PlainName(repo) && PlainDigest(d)
    ensures Serve(t, BlobPath(repo, d)) == BlobResponse(BlobPath(repo, d), d, BlobFile(t, d))
  {
    BlobRouteRoundTrip(repo, d);
  }

  /** The names under which blobs can be fetched by digests without dots: they have
      no path component `manifests` and no `..` between separators. */
  ghost predicate Pullable(repo: Bytes) {
    && repo != ""
    && !(exists a, b :: IsCut("/" + repo + "/", a, "/manifests/", b))
    && !(exists a, b :: ParentBetween(repo, a, b))
  }

  lemma PullableExactly(repo: Bytes)
    ensures Pullable(repo) <==> PlainName(repo) && !HasParent(repo)
  {
    PlainExactly(repo);
    ParentExactly(repo);
  }

  /** A file is served, unchanged, exactly under the names that have no path component
      `manifests` and none `..`; under the others the answer is no blob response. */
  lemma BlobRequestExactly(t: Store, repo: Bytes, d: Bytes, data: Bytes)
    requires repo != "" && PlainDigest(d) && BlobFile(t, d) == Some(data)
    requires forall k :: 0 <= k < |d| ==> d[k] != '.'
    ensures var response := Serve(t, "/" + repo + "/blobs/" + d);
            && (Pullable(repo) ==>
                  response == Response(200, Headers("application/octet-stream", Some(d), None, None), Raw(data)))
            && (!Pullable(repo) ==> response.headers.contentType != "application/octet-stream")
  {
    PullableExactly(repo);
    if PlainName(repo) {
      PlainBlobRequest(t, repo, d);
      ParentOfBlobPath(repo, d);
    } else {
      ShadowedBlobs(repo, d);
    }
  }

  lemma SeededBlobFile(codec: Codec, s: Store, artifacts: seq<Artifact>, data: Bytes, digest: Bytes)
    requires CollisionFree(codec, artifacts) && IsSeeded(codec, artifacts, data)
    requires ReadKey(s.blobRoot, digest) == ReadKey(s.blobRoot, DigestOf(codec.sha, data))
    ensures BlobFile(Seeded(codec, s, artifacts), digest) == Some(data)
  {
    SeededBlobs(codec, s, artifacts, data);
  }

  lemma SpelledBlob(codec: Codec, s: Store, artifacts: seq<Artifact>, repo: Bytes, d: Bytes, data: Bytes)
    requires CollisionFree(codec, artifacts) && IsSeeded(codec, artifacts, data)
    requires repo != "" && PlainDigest(d) && forall k :: 0 <= k < |d| ==> d[k] != '.'
    requires ReadKey(s.blobRoot, d) == ReadKey(s.blobRoot, DigestOf(codec.sha, data))
    ensures var response := Serve(Seeded(codec, s, artifacts), "/" + repo + "/blobs/" + d);
            && (Pullable(repo) ==> response == BlobOk(d, data))
            && (!Pullable(repo) ==> response.headers.contentType != "application/octet-stream")
  {
    SeededBlobFile(codec, s, artifacts, data, d);
    BlobRequestExactly(Seeded(codec, s, artifacts), repo, d, data);
  }

  /** Seeded bytes are served, unchanged, under every digest that leads to their file
      and every name without a path component `manifests`, unless the request
      path has a `..` component. */
  lemma {:induction false} ServedSpelling(codec: Codec, s: Store, artifacts: seq<Artifact>, repo: Bytes, algo: Bytes,
                                          data: Bytes)
    requires CollisionFree(codec, artifacts) && IsSeeded(codec, artifacts, data)
    requires PlainName(repo) && NamesSha256(s.blobRoot, algo) && PlainDigest(algo + ":" + Hex(codec.sha(data)))
    ensures var digest := algo + ":" + Hex(codec.sha(data));
            var p := "/" + repo + "/blobs/" + digest;
            Serve(Seeded(codec, s, artifacts), p) ==
            if HasParent(p)
            then Response(400, Headers("text/plain; charset=utf-8", Some(digest), None, None), InvalidPath)
            else Response(200, Headers("application/octet-stream", Some(digest), None, None), Raw(data))
  {
    var digest := algo + ":" + Hex(codec.sha(data));
    PlainBlobRequest(Seeded(codec, s, artifacts), repo, digest);
    DigestsOfFileExactly(s.blobRoot, codec.sha, digest, data);
    PrintedDigestParses(s.blobRoot, codec.sha, data);
    SeededBlobFile(codec, s, artifacts, data, digest);
  }

  /** A seeded byte string is served as a blob, unchanged, exactly under the names
      that have no path component `manifests` and none `..`; under the others the
      answer is not a blob response at all. */
  lemma {:induction false} ServedBlob(codec: Codec, s: Store, artifacts: seq<Artifact>, repo: Bytes, data: Bytes)
    requires CollisionFree(codec, artifacts) && IsSeeded(codec, artifacts, data) && repo != ""
    ensures var d := "sha256:" + Hex(codec.sha(data));
            var response := Serve(Seeded(codec, s, artifacts), "/" + repo + "/blobs/" + d);
            && (Pullable(repo) ==>
                  response == Response(200, Headers("application/octet-stream", Some(d), None, None), Raw(data)))
            && (!Pullable(repo) ==> response.headers.contentType != "application/octet-stream")
  {
    var d := DigestOf(codec.sha, data);
    DigestIsPlain(codec.sha, data);
    DigestChars(codec.sha, data);
    SpelledBlob(codec, s, artifacts, repo, d, data);
  }

  lemma SlashedDigest(blobRoot: FilePath, d: Bytes)
    requires ParseDigest(d).Some? && forall k :: 0 <= k < |d| ==> d[k] !in {'.', '/'}
    ensures PlainDigest("/" + d) && (forall k :: 0 <= k < |"/" + d| ==> ("/" + d)[k] != '.')
    ensures ReadKey(blobRoot, "/" + d) == ReadKey(blobRoot, d)
  {
    FewSlashesArePlain("/" + d);
    LeadingNothingInDigest(blobRoot, "/", d);
  }

  /** Asking for the digest with a slash in front gets the same bytes. */
  lemma {:induction false} ServedWithLeadingSlash(codec: Codec, s: Store, artifacts: seq<Artifact>, repo: Bytes,
                                                  data: Bytes)
    requires CollisionFree(codec, artifacts) && IsSeeded(codec, artifacts, data) && Pullable(repo)
    ensures var d := "/" + DigestOf(codec.sha, data);
            Serve(Seeded(codec, s, artifacts), "/" + repo + "/blobs/" + d) == BlobOk(d, data)
  {
    var d := DigestOf(codec.sha, data);
    DigestChars(codec.sha, data);
    PrintedDigestParses(s.blobRoot, codec.sha, data);
    SlashedDigest(s.blobRoot, d);
    SpelledBlob(codec, s, artifacts, repo, "/" + d, data);
  }

  /** Whatever manifest a path yields, asking for the digest it came with yields the
      same response under any repository name, and the bytes hash to that digest. */
  lemma {:induction false} TagAndDigestAgree(codec: Codec, s: Store, p: Bytes, repo: Bytes)
    requires ManifestsAddressed(codec, s)
    requires Dispatch(p).ManifestRoute? && Serve(s, p).status == 200 && repo != ""
    ensures var response := Serve(s, p);
            && response.body.Raw? && response.headers.contentDigest == Some(DigestOf(codec.sha, response.body.bytes))
            && Serve(s, ManifestPath(repo, response.headers.contentDigest.value)) == response
  {
    var response := Serve(s, p);
    var d := response.headers.contentDigest.value;
    DigestIsPlain(codec.sha, response.body.bytes);
    ManifestRouteExactly(ManifestPath(repo, d), repo, d);
  }

  /******* A whole pull *******/

  /** Fetches what a descriptor describes, checking type, size and digest. */
  ghost function PullBlob(codec: Codec, s: Store, repo: Bytes, d: Descriptor): Option<Bytes> {
    var response := Serve(s, BlobPath(repo, d.digest));
    if response.status == 200 && response.headers.contentType == BLOB_TYPE && response.body.Raw?
       && |response.body.bytes| == d.size && DigestOf(codec.sha, response.body.bytes) == d.digest
    then Some(response.body.bytes)
    else None
  }

  /** Fetches the layers in order. */
  ghost function PullLayers(codec: Codec, s: Store, repo: Bytes, ds: seq<Descriptor>): Option<seq<Layer>> {
    if ds == [] then Some([])
    else
      var last := ds[|ds| - 1];
      match (PullLayers(codec, s, repo, ds[..|ds| - 1]), PullBlob(codec, s, repo, last))
      case (Some(layers), Some(data)) => Some(layers + [Layer(last.mediaType, data)])
      case _ => None
  }

  /** A client's pull of `repo:tag`: the manifest, whose own media type must be the
      one it was served with, its config, its layers. */
  ghost function Pull(codec: Codec, s: Store, repo: Bytes, tag: Bytes): Option<seq<Layer>> {
    var response := Serve(s, ManifestPath(repo, tag));
    if response.status == 200 && response.headers.contentType == MANIFEST_TYPE && response.body.Raw? then
      match codec.unmarshal(response.body.bytes)
      case None => None
      case Some(m) =>
        if m.schemaVersion != 2 || m.mediaType != response.headers.contentType then None
        else if PullBlob(codec, s, repo, m.config).None? then None
        else PullLayers(codec, s, repo, m.layers)
    else None
  }

  lemma {:induction false} PulledBlob(codec: Codec, s: Store, artifacts: seq<Artifact>, repo: Bytes,
                                      mediaType: Bytes, data: Bytes)
    requires CollisionFree(codec, artifacts) && IsSeeded(codec, artifacts, data) && repo != ""
    ensures PullBlob(codec, Seeded(codec, s, artifacts), repo, Describe(codec, mediaType, data)) ==
            if Pullable(repo) then Some(data) else None
  {
    ServedBlob(codec, s, artifacts, repo, data);
  }

  /** If every layer can be pulled, they are pulled in order. */
  lemma {:induction false} PulledLayers(codec: Codec, t: Store, repo: Bytes, layers: seq<Layer>)
    requires forall l :: l in layers ==> PullBlob(codec, t, repo, Describe(codec, l.mediaType, l.data)) == Some(l.data)
    ensures PullLayers(codec, t, repo, DescribeLayers(codec, layers)) == Some(layers)
  {
    if layers != [] {
      var front, last := layers[..|layers| - 1], layers[|layers| - 1];
      assert layers == front + [last];
      PulledLayers(codec, t, repo, front);
      var ds := DescribeLayers(codec, layers);
      assert ds == DescribeLayers(codec, front) + [Describe(codec, last.mediaType, last.data)];
      assert ds[..|ds| - 1] == DescribeLayers(codec, front);
      assert PullBlob(codec, t, repo, ds[|ds| - 1]) == Some(last.data);
    }
  }

  /** What a client should get for a tag after the artifacts have been seeded. */
  ghost function Expected(artifacts: seq<Artifact>, repo: Bytes, tag: Bytes): Option<seq<Layer>> {
    match Owner(artifacts, repo + ":" + tag)
    case None => None
    case Some(a) => if Pullable(repo) then Some(a.layers) else None
  }

  /** What was seeded is what is pulled. From a freshly seeded root, whatever blob
      files it held before, a pull of `repo:tag` returns the layers of the last
      artifact seeded under that tag: all of them, in order, with their media
      types and unchanged. It returns nothing exactly when no artifact has the
      tag or the name has a path component `manifests` or `..`. */
  lemma {:induction false} SeededIsPulled(codec: Codec, s: Store, artifacts: seq<Artifact>, repo: Bytes, tag: Bytes)
    requires CollisionFree(codec, artifacts) && Decodes(codec, artifacts)
    requires repo != "" && PlainReference(tag) && !("sha256:" <= tag)
    ensures Pull(codec, Seeded(codec, s, artifacts), repo, tag) == Expected(artifacts, repo, tag)
  {
    ServedTag(codec, s, artifacts, repo, tag);
    var owner := Owner(artifacts, TagKey(repo, tag));
    if owner.Some? {
      PulledBlob(codec, s, artifacts, repo, EMPTY_CONFIG_TYPE, EMPTY_CONFIG);
      if Pullable(repo) {
        var t := Seeded(codec, s, artifacts);
        forall l | l in owner.value.layers
          ensures PullBlob(codec, t, repo, Describe(codec, l.mediaType, l.data)) == Some(l.data)
        {
          assert IsBlobOf(codec, owner.value, l.data);
          PulledBlob(codec, s, artifacts, repo, l.mediaType, l.data);
        }
        PulledLayers(codec, t, repo, owner.value.layers);
      }
    }
  }

  /******* Discovery *******/

  lemma TagsRequest(t: Store, repo: Bytes)
    requires repo != ""
    ensures Serve(t, "/" + repo + "/tags/list") == TagsResponse(repo, ListTagsIn(t, repo))
  {
    TagsRouteExactly("/" + repo + "/tags/list", repo);
  }

  /** The tags some artifact carries under a name, in bytewise order. */
  ghost predicate IsTagListOf(artifacts: seq<Artifact>, repo: Bytes, tags: seq<Bytes>) {
    && (forall i, j :: 0 <= i < j < |tags| ==> Before(tags[i], tags[j]))
    && (forall tag: Bytes :: tag in tags <==> Owner(artifacts, repo + ":" + tag).Some?)
  }

  lemma SeededTagList(codec: Codec, s: Store, artifacts: seq<Artifact>, repo: Bytes)
    ensures var result := ListTagsIn(Seeded(codec, s, artifacts), repo);
            && (result.Failure? <==> forall tag: Bytes :: Owner(artifacts, repo + ":" + tag).None?)
            && (result.Success? ==> IsTagListOf(artifacts, repo, result.value))
  {
    var t := Seeded(codec, s, artifacts);
    ListTagsMeaning(t, repo);
    forall tag: Bytes ensures TagKey(repo, tag) in t.tags <==> Owner(artifacts, repo + ":" + tag).Some? {
      SeededTags(codec, s, artifacts, TagKey(repo, tag));
    }
  }

  /** The tags endpoint lists exactly these tags; NAME_UNKNOWN if there are none. */
  lemma {:induction false} ServedTagList(codec: Codec, s: Store, artifacts: seq<Artifact>, repo: Bytes)
    requires repo != ""
    ensures var response := Serve(Seeded(codec, s, artifacts), "/" + repo + "/tags/list");
            var json := Headers("application/json; charset=utf-8", None, None, None);
            if exists tag: Bytes :: Owner(artifacts, repo + ":" + tag).Some?
            then exists tags ::
                   IsTagListOf(artifacts, repo, tags) && response == Response(200, json, TagList(repo, tags))
            else response == Response(404, json, OciError(NameUnknown))
  {
    TagsRequest(Seeded(codec, s, artifacts), repo);
    SeededTagList(codec, s, artifacts, repo);
  }

  ghost predicate ColonFreeTags(artifacts: seq<Artifact>) {
    forall a, tag :: a in artifacts && tag in a.tags ==> ':' !in tag
  }

  /** Some artifact carries a tag under `r` whose key is before all keys under `r'`. */
  ghost predicate FirstKeyEarlier(artifacts: seq<Artifact>, r: Bytes, r': Bytes) {
    exists a, tag ::
      && a in artifacts && a.repo == r && tag in a.tags
      && forall b, tag' :: b in artifacts && b.repo == r' && tag' in b.tags ==> Before(r + ":" + tag, r' + ":" + tag')
  }

  /** The keys of a seeded index and the repositories they belong to. */
  lemma SeededKey(codec: Codec, s: Store, artifacts: seq<Artifact>, k: Bytes) returns (a: Artifact, tag: Bytes)
    requires ColonFreeTags(artifacts) && k in TagKeys(Seeded(codec, s, artifacts))
    ensures a in artifacts && tag in a.tags && k == a.repo + ":" + tag && RepoOf(k) == Some(a.repo)
  {
    SeededTags(codec, s, artifacts, k);
    a := Owner(artifacts, k).value;
    tag :| tag in a.tags && TagKey(a.repo, tag) == k;
    RepoOfTagKey(a.repo, tag);
  }

  lemma SeededKeyOf(codec: Codec, s: Store, artifacts: seq<Artifact>, a: Artifact, tag: Bytes)
    requires ColonFreeTags(artifacts) && a in artifacts && tag in a.tags
    ensures a.repo + ":" + tag in TagKeys(Seeded(codec, s, artifacts))
    ensures RepoOf(a.repo + ":" + tag) == Some(a.repo)
  {
    var k := TagKey(a.repo, tag);
    assert IsTagKeyOf(a, k);
    SeededTags(codec, s, artifacts, k);
    RepoOfTagKey(a.repo, tag);
  }

  /** The repositories of the artifacts that carry a tag, each once, in the order of
      their first keys. */
  ghost predicate IsCatalogOf(artifacts: seq<Artifact>, repos: seq<Bytes>) {
    && (forall r :: r in repos <==> exists a :: a in artifacts && a.repo == r && a.tags != [])
    && (forall i, j :: 0 <= i < j < |repos| ==>
          repos[i] != repos[j] && FirstKeyEarlier(artifacts, repos[i], repos[j]))
  }

  lemma SeededCatalogElements(codec: Codec, s: Store, artifacts: seq<Artifact>, r: Bytes)
    requires ColonFreeTags(artifacts)
    ensures r in ListRepositoriesIn(Seeded(codec, s, artifacts)) <==>
            exists a :: a in artifacts && a.repo == r && a.tags != []
  {
    var keys := TagKeys(Seeded(codec, s, artifacts));
    ReposOfElements(keys);
    if r in ReposOf(keys) {
      var k :| k in keys && RepoOf(k) == Some(r);
      var a, tag := SeededKey(codec, s, artifacts, k);
    }
    if a :| a in artifacts && a.repo == r && a.tags != [] {
      assert a.tags[0] in a.tags;
      SeededKeyOf(codec, s, artifacts, a, a.tags[0]);
    }
  }

  lemma SeededCatalogOrder(codec: Codec, s: Store, artifacts: seq<Artifact>, i: nat, j: nat)
    requires ColonFreeTags(artifacts) && i < j < |ListRepositoriesIn(Seeded(codec, s, artifacts))|
    ensures var repos := ListRepositoriesIn(Seeded(codec, s, artifacts));
            FirstKeyEarlier(artifacts, repos[i], repos[j])
  {
    var keys := TagKeys(Seeded(codec, s, artifacts));
    var r, r' := ReposOf(keys)[i], ReposOf(keys)[j];
    ReposInKeyOrder(keys);
    assert StartsEarlier(keys, r, r');
    var k :| k in keys && RepoOf(k) == Some(r)
             && forall k' :: k' in keys && RepoOf(k') == Some(r') ==> Less(k, k');
    var a, tag := SeededKey(codec, s, artifacts, k);
    forall b, tag' | b in artifacts && b.repo == r' && tag' in b.tags ensures Before(r + ":" + tag, r' + ":" + tag') {
      SeededKeyOf(codec, s, artifacts, b, tag');
      LessExactly(k, r' + ":" + tag');
    }
  }

  lemma SeededCatalog(codec: Codec, s: Store, artifacts: seq<Artifact>)
    requires ColonFreeTags(artifacts)
    ensures IsCatalogOf(artifacts, ListRepositoriesIn(Seeded(codec, s, artifacts)))
  {
    var repos := ListRepositoriesIn(Seeded(codec, s, artifacts));
    forall r ensures r in repos <==> exists a :: a in artifacts && a.repo == r && a.tags != [] {
      SeededCatalogElements(codec, s, artifacts, r);
    }
    forall i, j | 0 <= i < j < |repos| ensures repos[i] != repos[j] && FirstKeyEarlier(artifacts, repos[i], repos[j]) {
      SeededCatalogOrder(codec, s, artifacts, i, j);
      ReposOfElements(TagKeys(Seeded(codec, s, artifacts)));
    }
  }

  /** With colon-free tags the catalog lists exactly these. */
  lemma {:induction false} ServedCatalog(codec: Codec, s: Store, artifacts: seq<Artifact>)
    requires ColonFreeTags(artifacts)
    ensures exists repos ::
              && Serve(Seeded(codec, s, artifacts), "/_catalog") ==
                 Response(200, Headers("application/json; charset=utf-8", None, None, None), RepositoryList(repos))
              && IsCatalogOf(artifacts, repos)
  {
    SeededCatalog(codec, s, artifacts);
    CatalogRequest(Seeded(codec, s, artifacts));
  }

  lemma CatalogRequest(t: Store)
    ensures Serve(t, "/_catalog") ==
            Response(200, Headers("application/json; charset=utf-8", None, None, None),
                     RepositoryList(ListRepositoriesIn(t)))
  {
  }

  /** If names hold no colons either, it is the bytewise order of the names, each read
      with a colon behind it. */
  lemma ServedCatalogColonOrder(codec: Codec, s: Store, artifacts: seq<Artifact>)
    requires ColonFreeTags(artifacts) && forall a :: a in artifacts ==> ':' !in a.repo
    ensures exists repos ::
              && Serve(Seeded(codec, s, artifacts), "/_catalog") ==
                 Response(200, Headers("application/json; charset=utf-8", None, None, None), RepositoryList(repos))
              && forall i, j :: 0 <= i < j < |repos| ==> Before(repos[i] + ":", repos[j] + ":")
  {
    var keys := TagKeys(Seeded(codec, s, artifacts));
    var repos := ReposOf(keys);
    SeededSingleColon(codec, s, artifacts);
    ReposInColonOrder(keys);
    forall i, j | 0 <= i < j < |repos| ensures Before(repos[i] + ":", repos[j] + ":") {
      LessExactly(repos[i] + ":", repos[j] + ":");
    }
    CatalogRequest(Seeded(codec, s, artifacts));
  }

  lemma SeededSingleColon(codec: Codec, s: Store, artifacts: seq<Artifact>)
    requires ColonFreeTags(artifacts) && forall a :: a in artifacts ==> ':' !in a.repo
    ensures SingleColon(TagKeys(Seeded(codec, s, artifacts)))
  {
    forall k, i | k in TagKeys(Seeded(codec, s, artifacts)) && 0 <= i < |k| && k[i] == ':'
      ensures RepoOf(k).Some? && i == |RepoOf(k).value|
    {
      var a, tag := SeededKey(codec, s, artifacts, k);
      OnlyColon(a.repo, tag, i);
    }
  }

  lemma OnlyColon(r: Bytes, tag: Bytes, i: nat)
    requires ':' !in r && ':' !in tag && i < |r + ":" + tag| && (r + ":" + tag)[i] == ':'
    ensures i == |r|
  {
    var k := r + ":" + tag;
    assert forall n :: 0 <= n < |r| ==> k[n] == r[n] && r[n] in r;
    assert forall n :: |r| < n < |k| ==> k[n] == tag[n - |r| - 1] && tag[n - |r| - 1] in tag;
  }
}
