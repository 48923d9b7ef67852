/** Seed program, registry and a pulling client on one storage root. The client
    checks what it is sent: types, sizes and digests. */
module Sessions {
  import opened Wrappers
  import opened ByteStrings
  import opened Digests
  import opened Listings
  import opened Stores
  import opened StorageRoots
  import opened Registries
  import opened Seeding
  import opened Seeders
  import opened Effects
  import opened Routing
  import opened Handlers
  import opened Pulling

  /** Layers that cannot all be fetched up to some point cannot all be fetched. */
  lemma {:induction false} NoLayers(codec: Codec, s: Store, repo: Bytes, ds: seq<Descriptor>, i: nat)
    requires i <= |ds| && PullLayers(codec, s, repo, ds[..i]).None?
    ensures PullLayers(codec, s, repo, ds).None?
  {
    if i < |ds| {
      assert ds[..|ds| - 1][..i] == ds[..i];
      NoLayers(codec, s, repo, ds[..|ds| - 1], i);
    } else {
      assert ds[..i] == ds;
    }
  }

  method FetchBlob(handler: Handler, codec: Codec, repo: Bytes, d: Descriptor) returns (data: Option<Bytes>)
    requires handler.registry.Valid()
    ensures data == PullBlob(codec, handler.registry.root.Model(), repo, d)
  {
    var response := handler.Get(BlobPath(repo, d.digest));
    if response.status == 200 && response.headers.contentType == BLOB_TYPE && response.body.Raw?
       && |response.body.bytes| == d.size && DigestOf(codec.sha, response.body.bytes) == d.digest
    {
      return Some(response.body.bytes);
    }
    return None;
  }

  method FetchLayers(handler: Handler, codec: Codec, repo: Bytes, ds: seq<Descriptor>)
    returns (layers: Option<seq<Layer>>)
    requires handler.registry.Valid()
    ensures layers == PullLayers(codec, handler.registry.root.Model(), repo, ds)
  {
    ghost var s := handler.registry.root.Model();
    var fetched := [];
    assert ds[..0] == [];
    for i := 0 to |ds|
      invariant PullLayers(codec, s, repo, ds[..i]) == Some(fetched)
    {
      assert ds[..i + 1][..i] == ds[..i];
      var data := FetchBlob(handler, codec, repo, ds[i]);
      if data.None? {
        NoLayers(codec, s, repo, ds, i + 1);
        return None;
      }
      fetched := fetched + [Layer(ds[i].mediaType, data.value)];
    }
    assert ds[..|ds|] == ds;
    return Some(fetched);
  }

  /** A pull of `repo:tag`, request by request. */
  method Fetch(handler: Handler, codec: Codec, repo: Bytes, tag: Bytes) returns (layers: Option<seq<Layer>>)
    requires handler.registry.Valid()
    ensures layers == Pull(codec, handler.registry.root.Model(), repo, tag)
  {
    var response := handler.Get(ManifestPath(repo, tag));
    if response.status != 200 || response.headers.contentType != MANIFEST_TYPE || !response.body.Raw? {
      return None;
    }
    match codec.unmarshal(response.body.bytes) {
      case None => return None;
      case Some(m) =>
        if m.schemaVersion != 2 || m.mediaType != response.headers.contentType {
          return None;
        }
        var config := FetchBlob(handler, codec, repo, m.config);
        if config.None? {
          return None;
        }
        layers := FetchLayers(handler, codec, repo, m.layers);
    }
  }

  /** From an index without tags nothing can be pulled by tag. */
  lemma NothingIndexed(codec: Codec, t: Store, repo: Bytes, tag: Bytes)
    requires t.tags == map[] && repo != "" && PlainReference(tag) && !("sha256:" <= tag)
    ensures Pull(codec, t, repo, tag).None?
  {
    TagRequest(t, repo, tag);
  }

  lemma FetchedFrom(codec: Codec, before: Store, artifacts: seq<Artifact>, t: Store, ready: bool,
                    repo: Bytes, tag: Bytes)
    requires CollisionFree(codec, artifacts) && Decodes(codec, artifacts)
    requires repo != "" && PlainReference(tag) && !("sha256:" <= tag)
    requires if ready then t == Seeded(codec, before, artifacts) else t.tags == map[]
    ensures Pull(codec, t, repo, tag) == if ready then Expected(artifacts, repo, tag) else None
  {
    if ready {
      SeededIsPulled(codec, before, artifacts, repo, tag);
    } else {
      NothingIndexed(codec, t, repo, tag);
    }
  }

  /** The seed program, then the server on the root it leaves, then a client. If no
      operation fails, the client gets the layers of the last artifact seeded
      under the tag, unchanged and in order, and nothing exactly when there is
      none or the name cannot be pulled from, whatever the root held before. The
      same holds if operations fail but the program reports the root as ready
      and the old index is gone; if it stops early with the old index gone, there
      is nothing to pull. */
  method SeedAndFetch(root: StorageRoot, codec: Codec, artifacts: seq<Artifact>, faults: Faults,
                      repo: Bytes, tag: Bytes)
    returns (outcome: Outcome, removed: bool, layers: Option<seq<Layer>>)
    requires root.Valid()
    requires CollisionFree(codec, artifacts) && Decodes(codec, artifacts)
    requires repo != "" && PlainReference(tag) && !("sha256:" <= tag)
    modifies root
    ensures root.Valid()
    ensures (forall op :: !faults(op)) ==> layers == Expected(artifacts, repo, tag)
    ensures removed ==> layers == if outcome == Ready then Expected(artifacts, repo, tag) else None
  {
    ghost var before := root.Model();
    ghost var done;
    outcome, removed, done := Seed(root, codec, artifacts, faults);
    var registry := new Registry(root);
    var handler := new Handler(registry);
    layers := Fetch(handler, codec, repo, tag);
    if forall op :: !faults(op) {
      NoFaults(faults, artifacts);
    }
    if removed {
      FetchedFrom(codec, before, artifacts, root.Model(), outcome == Ready, repo, tag);
    }
  }
}
