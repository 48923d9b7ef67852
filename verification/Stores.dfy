/** The storage root as a value (where its blobs are, the files that digests can
    lead to, tags bucket, manifests bucket) and what the registry's four reads
    answer on it (`internal/oci/registry.go`). */
module Stores {
  import opened Wrappers
  import opened ByteStrings
  import opened Paths
  import opened Digests
  import opened Listings

  datatype Store = Store(
    blobRoot: FilePath, files: map<FilePath, Bytes>, tags: map<Bytes, Bytes>, manifests: map<Bytes, Bytes>)

  datatype RegistryError = RepoNotFound | ManifestNotFound | BlobNotFound

  datatype ManifestFound = ManifestFound(bytes: Bytes, digest: Bytes)

  /** The media type under which manifests are stored and served. */
  const MANIFEST_TYPE: Bytes := "application/vnd.oci.image.manifest.v1+json"

  ghost function TagKeys(s: Store): seq<Bytes> {
    SortedKeys(s.tags.Keys)
  }

  ghost function ListRepositoriesIn(s: Store): seq<Bytes> {
    ReposOf(TagKeys(s))
  }

  ghost function ListTagsIn(s: Store, repo: Bytes): Result<seq<Bytes>, RegistryError> {
    var tags := TagsOf(TagKeys(s), repo);
    if tags == [] then Failure(RepoNotFound) else Success(tags)
  }

  predicate IsDigestReference(reference: Bytes) {
    SHA256_PREFIX <= reference
  }

  function GetManifestIn(s: Store, repo: Bytes, reference: Bytes): Result<ManifestFound, RegistryError> {
    if IsDigestReference(reference) then ManifestByDigest(s, reference)
    else if TagKey(repo, reference) in s.tags then ManifestByDigest(s, s.tags[TagKey(repo, reference)])
    else Failure(ManifestNotFound)
  }

  function ManifestByDigest(s: Store, digest: Bytes): Result<ManifestFound, RegistryError> {
    if digest in s.manifests then Success(ManifestFound(s.manifests[digest], digest)) else Failure(ManifestNotFound)
  }

  function BlobPathIn(s: Store, digest: Bytes): Result<FilePath, RegistryError> {
    match ReadKey(s.blobRoot, digest)
    case None => Failure(BlobNotFound)
    case Some(key) => if key in s.files then Success(key) else Failure(BlobNotFound)
  }

  /** Which manifest a reference leads to: one that starts with `sha256:` is the digest
      itself, any other is a tag of the repository, whose digest must be indexed. */
  lemma GetManifestExactly(s: Store, repo: Bytes, reference: Bytes, bytes: Bytes, digest: Bytes)
    ensures GetManifestIn(s, repo, reference) == Success(ManifestFound(bytes, digest)) <==>
            && digest in s.manifests && s.manifests[digest] == bytes
            && (if "sha256:" <= reference then digest == reference
                else repo + ":" + reference in s.tags && s.tags[repo + ":" + reference] == digest)
  {
  }

  /** The tags listed for a repository are exactly those stored for it, each once and
      in bytewise order; there is an error exactly when there are none. */
  lemma ListTagsMeaning(s: Store, repo: Bytes)
    ensures ListTagsIn(s, repo).Failure? <==> forall tag :: TagKey(repo, tag) !in s.tags
    ensures ListTagsIn(s, repo).Success? ==>
              var tags := ListTagsIn(s, repo).value;
              && (forall i, j :: 0 <= i < j < |tags| ==> Before(tags[i], tags[j]))
              && forall tag: Bytes :: tag in tags <==> repo + ":" + tag in s.tags
  {
    var keys, tags := TagKeys(s), TagsOf(TagKeys(s), repo);
    TagsOfSorted(keys, repo);
    SortedExactly(tags);
    forall tag ensures tag in tags <==> TagKey(repo, tag) in s.tags {
      TagsOfElements(keys, repo, tag);
    }
    if tags != [] {
      assert tags[0] in tags;
    }
  }
}
