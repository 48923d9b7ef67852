/** Read-only access to a storage root (`internal/oci/registry.go`). Each read is
    proved to answer what the store, taken as a value, prescribes. */
module Registries {
  import opened Wrappers
  import opened ByteStrings
  import opened Paths
  import opened Digests
  import opened Listings
  import opened Stores
  import opened Buckets
  import opened StorageRoots

  /** Walking a bucket from `pos` while keys start with `repo:` picks up the tags
      of all keys of the bucket. */
  lemma ScanStart(keys: seq<Bytes>, repo: Bytes, pos: nat)
    requires StrictlySorted(keys) && IsPosition(keys, repo + ":", pos)
    ensures TagsOf(keys[..pos], repo) == []
  {
    var before := keys[..pos];
    forall i | 0 <= i < |before| ensures !(repo + ":" <= before[i]) {
      if repo + ":" <= before[i] { PrefixNotAfter(repo + ":", before[i]); }
    }
    TagsOfStopsAt(before, repo, 0);
    assert before[..0] == [];
  }

  lemma {:induction false} ScanStep(keys: seq<Bytes>, repo: Bytes, i: nat)
    requires i < |keys| && repo + ":" <= keys[i]
    ensures TagsOf(keys[..i + 1], repo) == TagsOf(keys[..i], repo) + [keys[i][|repo| + 1..]]
  {
    assert keys[..i + 1][..i] == keys[..i];
  }

  lemma {:induction false} ScanEnd(keys: seq<Bytes>, repo: Bytes, pos: nat, i: nat)
    requires StrictlySorted(keys) && IsPosition(keys, repo + ":", pos) && pos <= i <= |keys|
    requires i < |keys| ==> !(repo + ":" <= keys[i])
    ensures TagsOf(keys[..i], repo) == TagsOf(keys, repo)
  {
    forall j | i <= j < |keys| ensures !(repo + ":" <= keys[j]) {
      if j > i { PrefixRunEnds(repo + ":", keys[i], keys[j]); }
    }
    TagsOfStopsAt(keys, repo, i);
  }

  /** The keys of a bucket are the sorted keys of its contents. */
  lemma BucketKeys(b: Bucket)
    requires b.Valid()
    ensures b.keys == SortedKeys(b.contents.Keys)
  {
    SortedIsUnique(b.keys, SortedKeys(b.contents.Keys));
  }

  lemma NoKeys()
    ensures SortedKeys({}) == []
  {
  }

  class Registry {
    const root: StorageRoot

    constructor (root: StorageRoot)
      ensures this.root == root
    {
      this.root := root;
    }

    ghost predicate Valid()
      reads root, root.tags, root.manifests
    {
      root.Valid()
    }

    method ListRepositories() returns (repos: seq<Bytes>)
      requires Valid()
      ensures repos == ListRepositoriesIn(root.Model())
    {
      var seen: set<Bytes> := {};
      repos := [];
      var b := root.tags;
      if b == null {
        NoKeys();
        return;
      }
      for i := 0 to |b.keys|
        invariant repos == ReposOf(b.keys[..i])
        invariant forall r :: r in seen <==> r in repos
      {
        var key := b.keys[i];
        assert b.keys[..i + 1][..i] == b.keys[..i];
        var idx := LastIndex(key, ":");
        if idx < 0 {
          continue;
        }
        var repo := key[..idx];
        if repo !in seen {
          seen := seen + {repo};
          repos := repos + [repo];
        }
      }
      assert b.keys[..|b.keys|] == b.keys;
      BucketKeys(b);
    }

    method ListTags(repo: Bytes) returns (result: Result<seq<Bytes>, RegistryError>)
      requires Valid()
      ensures result == ListTagsIn(root.Model(), repo)
    {
      var prefix := repo + ":";
      var tags := [];
      var b := root.tags;
      if b != null {
        var pos := b.Seek(prefix);
        ScanStart(b.keys, repo, pos);
        var i := pos;
        while i < |b.keys| && prefix <= b.keys[i]
          invariant pos <= i <= |b.keys|
          invariant tags == TagsOf(b.keys[..i], repo)
        {
          ScanStep(b.keys, repo, i);
          tags := tags + [b.keys[i][|prefix|..]];
          i := i + 1;
        }
        ScanEnd(b.keys, repo, pos, i);
        BucketKeys(b);
      } else {
        NoKeys();
      }
      if tags == [] {
        return Failure(RepoNotFound);
      }
      return Success(tags);
    }

    method GetManifest(repo: Bytes, reference: Bytes) returns (result: Result<ManifestFound, RegistryError>)
      requires Valid()
      ensures result == GetManifestIn(root.Model(), repo, reference)
    {
      var digest;
      if SHA256_PREFIX <= reference {
        digest := reference;
      } else {
        if root.tags == null {
          return Failure(ManifestNotFound);
        }
        var v := root.tags.Get(repo + ":" + reference);
        if v.None? {
          return Failure(ManifestNotFound);
        }
        digest := v.value;
      }
      if root.manifests == null {
        return Failure(ManifestNotFound);
      }
      var data := root.manifests.Get(digest);
      if data.None? {
        return Failure(ManifestNotFound);
      }
      return Success(ManifestFound(data.value, digest));
    }

    method BlobPath(digest: Bytes) returns (result: Result<FilePath, RegistryError>)
      ensures result == BlobPathIn(root.Model(), digest)
    {
      var parsed := ParseDigest(digest);
      if parsed.None? {
        return Failure(BlobNotFound);
      }
      var Parsed(algo, hex) := parsed.value;
      var p := Join(Join(Join(root.blobRoot, algo), hex[..2]), hex);
      if p !in root.files {
        return Failure(BlobNotFound);
      }
      return Success(p);
    }
  }
}
