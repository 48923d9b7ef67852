/** The seed program (`hack/seed/main.go`): nested loops over artifacts, layers and
    tags inside one read-write transaction. Every operation that can fail may
    fail here at any point. */
module Seeders {
  import opened Wrappers
  import opened ByteStrings
  import opened Paths
  import opened Digests
  import opened Listings
  import opened Stores
  import opened Buckets
  import opened StorageRoots
  import opened Seeding

  datatype Outcome = Ready | ConfigBlobFailed | OpenFailed | PopulateFailed

  /** The operations of a run that may fail; `i` is the artifact's number, `j` that of
      its layer or tag. */
  datatype Operation =
    | WriteConfig
    | RemoveOldIndex
    | OpenIndex
    | CreateBuckets
    | WriteLayer(i: nat, j: nat)
    | EncodeManifest(i: nat)
    | WriteManifest(i: nat)
    | IndexManifest(i: nat)
    | SetTag(i: nat, j: nat)
    | Commit

  /** Which operations fail in a run. */
  type Faults = Operation -> bool

  ghost predicate LayersSucceed(faults: Faults, i: nat, n: nat) {
    forall j :: 0 <= j < n ==> !faults(WriteLayer(i, j))
  }

  ghost predicate TagsSucceed(faults: Faults, i: nat, n: nat) {
    forall j :: 0 <= j < n ==> !faults(SetTag(i, j))
  }

  ghost predicate ArtifactSucceeds(faults: Faults, i: nat, a: Artifact) {
    && LayersSucceed(faults, i, |a.layers|)
    && !faults(EncodeManifest(i)) && !faults(WriteManifest(i)) && !faults(IndexManifest(i))
    && TagsSucceed(faults, i, |a.tags|)
  }

  /** Nothing fails for the first `n` artifacts. */
  ghost predicate AllSucceed(faults: Faults, artifacts: seq<Artifact>, n: nat)
    requires n <= |artifacts|
  {
    forall i :: 0 <= i < n ==> ArtifactSucceeds(faults, i, artifacts[i])
  }

  ghost predicate PopulateSucceeds(faults: Faults, artifacts: seq<Artifact>) {
    !faults(CreateBuckets) && AllSucceed(faults, artifacts, |artifacts|) && !faults(Commit)
  }

  lemma NoFaults(faults: Faults, artifacts: seq<Artifact>)
    requires forall op :: !faults(op)
    ensures PopulateSucceeds(faults, artifacts)
  {
  }

  /******* One more round of each loop *******/

  lemma {:induction false} LayerPrefix(codec: Codec, layers: seq<Layer>, j: nat)
    requires j <= |layers|
    ensures LayerWrites(codec, layers[..j]) <= LayerWrites(codec, layers)
  {
    if j < |layers| {
      LayerPrefix(codec, layers[..|layers| - 1], j);
      assert layers[..|layers| - 1][..j] == layers[..j];
    } else {
      assert layers[..j] == layers;
    }
  }

  lemma NextLayer(codec: Codec, s: Store, layers: seq<Layer>, j: nat)
    requires j < |layers|
    ensures Run(s, LayerWrites(codec, layers[..j + 1]))
            == Apply(Run(s, LayerWrites(codec, layers[..j])),
                     PutBlob(DigestOf(codec.sha, layers[j].data), layers[j].data))
    ensures DescribeLayers(codec, layers[..j + 1])
            == DescribeLayers(codec, layers[..j]) + [Describe(codec, layers[j].mediaType, layers[j].data)]
  {
    assert layers[..j + 1][..j] == layers[..j];
    RunSnoc(s, LayerWrites(codec, layers[..j]), PutBlob(DigestOf(codec.sha, layers[j].data), layers[j].data));
  }

  lemma {:induction false} TagPrefix(repo: Bytes, tags: seq<Bytes>, digest: Bytes, j: nat)
    requires j <= |tags|
    ensures TagWrites(repo, tags[..j], digest) <= TagWrites(repo, tags, digest)
  {
    if j < |tags| {
      TagPrefix(repo, tags[..|tags| - 1], digest, j);
      assert tags[..|tags| - 1][..j] == tags[..j];
    } else {
      assert tags[..j] == tags;
    }
  }

  lemma NextTag(s: Store, repo: Bytes, tags: seq<Bytes>, digest: Bytes, j: nat)
    requires j < |tags|
    ensures Run(s, TagWrites(repo, tags[..j + 1], digest))
            == Apply(Run(s, TagWrites(repo, tags[..j], digest)), PutTag(TagKey(repo, tags[j]), digest))
  {
    assert tags[..j + 1][..j] == tags[..j];
    RunSnoc(s, TagWrites(repo, tags[..j], digest), PutTag(TagKey(repo, tags[j]), digest));
  }

  lemma {:induction false} PopulatePrefix(codec: Codec, artifacts: seq<Artifact>, i: nat)
    requires i <= |artifacts|
    ensures PopulateWrites(codec, artifacts[..i]) <= PopulateWrites(codec, artifacts)
  {
    if i < |artifacts| {
      PopulatePrefix(codec, artifacts[..|artifacts| - 1], i);
      assert artifacts[..|artifacts| - 1][..i] == artifacts[..i];
    } else {
      assert artifacts[..i] == artifacts;
    }
  }

  /** Part of the next artifact's writes, after those of the artifacts before. */
  lemma {:induction false} NextArtifact(codec: Codec, s: Store, artifacts: seq<Artifact>, i: nat, part: seq<Write>)
    requires i < |artifacts| && AllValid(part) && part <= ArtifactWrites(codec, artifacts[i])
    ensures AllValid(PopulateWrites(codec, artifacts[..i]) + part)
    ensures Run(s, PopulateWrites(codec, artifacts[..i]) + part)
            == Run(Run(s, PopulateWrites(codec, artifacts[..i])), part)
    ensures PopulateWrites(codec, artifacts[..i]) + part <= PopulateWrites(codec, artifacts)
    ensures part == ArtifactWrites(codec, artifacts[i])
            ==> PopulateWrites(codec, artifacts[..i]) + part == PopulateWrites(codec, artifacts[..i + 1])
  {
    var done, ws := PopulateWrites(codec, artifacts[..i]), ArtifactWrites(codec, artifacts[i]);
    RunConcat(s, done, part);
    assert artifacts[..i + 1][..i] == artifacts[..i];
    PopulatePrefix(codec, artifacts, i + 1);
    assert done + part <= done + ws;
  }

  /** Doing one more write extends the run by it. */
  lemma RunSnoc(s: Store, ws: seq<Write>, w: Write)
    requires AllValid(ws) && w.Valid()
    ensures AllValid(ws + [w]) && Run(s, ws + [w]) == Apply(Run(s, ws), w)
  {
    assert (ws + [w])[..|ws|] == ws;
  }

  /******* The loops *******/

  /** One layer after the other: write its blob, append its descriptor. */
  method WriteLayers(root: StorageRoot, codec: Codec, layers: seq<Layer>, faults: Faults, i: nat, ghost s: Store)
    returns (ok: bool, layerDescs: seq<Descriptor>, ghost done: seq<Write>)
    requires s.blobRoot == root.blobRoot && s.files == root.files
    modifies root`files
    ensures AllValid(done) && done <= LayerWrites(codec, layers)
    ensures Run(s, done) == s.(files := root.files)
    ensures ok <==> LayersSucceed(faults, i, |layers|)
    ensures ok ==> done == LayerWrites(codec, layers) && layerDescs == DescribeLayers(codec, layers)
  {
    layerDescs := [];
    assert layers[..0] == [];
    for j := 0 to |layers|
      invariant Run(s, LayerWrites(codec, layers[..j])) == s.(files := root.files)
      invariant layerDescs == DescribeLayers(codec, layers[..j])
      invariant LayersSucceed(faults, i, j)
    {
      var l := layers[j];
      var contentDigest := DigestOf(codec.sha, l.data);
      ok := root.WriteBlob(contentDigest, l.data, faults(WriteLayer(i, j)));
      if !ok {
        done := LayerWrites(codec, layers[..j]);
        LayerPrefix(codec, layers, j);
        return;
      }
      NextLayer(codec, s, layers, j);
      layerDescs := layerDescs + [Descriptor(l.mediaType, contentDigest, |l.data|)];
    }
    assert layers[..|layers|] == layers;
    ok, done := true, LayerWrites(codec, layers);
  }

  /** One tag after the other: point it at the manifest. */
  method PutTags(bucket: Bucket, repo: Bytes, tags: seq<Bytes>, digest: Bytes, faults: Faults, i: nat, ghost s: Store)
    returns (ok: bool, ghost done: seq<Write>)
    requires bucket.Valid() && s.tags == bucket.contents
    modifies bucket
    ensures bucket.Valid()
    ensures AllValid(done) && done <= TagWrites(repo, tags, digest)
    ensures Run(s, done) == s.(tags := bucket.contents)
    ensures ok <==> TagsSucceed(faults, i, |tags|)
    ensures ok ==> done == TagWrites(repo, tags, digest)
  {
    assert tags[..0] == [];
    for j := 0 to |tags|
      invariant bucket.Valid()
      invariant Run(s, TagWrites(repo, tags[..j], digest)) == s.(tags := bucket.contents)
      invariant TagsSucceed(faults, i, j)
    {
      var tagKey := repo + ":" + tags[j];
      ok := !faults(SetTag(i, j));
      if !ok {
        done := TagWrites(repo, tags[..j], digest);
        TagPrefix(repo, tags, digest, j);
        return;
      }
      bucket.Put(tagKey, digest);
      NextTag(s, repo, tags, digest, j);
    }
    assert tags[..|tags|] == tags;
    ok, done := true, TagWrites(repo, tags, digest);
  }

  /** What the manifest and the tags add to a run that has written the layers. */
  lemma ArtifactParts(codec: Codec, a: Artifact, s: Store, done: seq<Write>)
    requires done == LayerWrites(codec, a.layers)
    ensures var w := PutBlob(ManifestDigest(codec, a), ManifestBytes(codec, a));
            && done + [w] <= ArtifactWrites(codec, a)
            && AllValid(done + [w]) && Run(s, done + [w]) == Apply(Run(s, done), w)
    ensures var ws := done + ManifestWrites(codec, a);
            && ws <= ArtifactWrites(codec, a)
            && AllValid(ws)
            && Run(s, ws) == Apply(Apply(Run(s, done), ManifestWrites(codec, a)[0]), ManifestWrites(codec, a)[1])
  {
    var ms := ManifestWrites(codec, a);
    RunSnoc(s, done, ms[0]);
    RunSnoc(s, done + [ms[0]], ms[1]);
    assert done + ms == done + [ms[0]] + [ms[1]];
    assert done + [ms[0]] <= done + ms;
  }

  lemma TagPart(codec: Codec, a: Artifact, s: Store, part: seq<Write>)
    requires AllValid(part) && part <= TagWrites(a.repo, a.tags, ManifestDigest(codec, a))
    ensures var ws := LayerWrites(codec, a.layers) + ManifestWrites(codec, a);
            && AllValid(ws) && AllValid(ws + part)
            && ws + part <= ArtifactWrites(codec, a)
            && Run(s, ws + part) == Run(Run(s, ws), part)
  {
    var ws := LayerWrites(codec, a.layers) + ManifestWrites(codec, a);
    RunConcat(s, ws, part);
    assert ws + part <= ws + TagWrites(a.repo, a.tags, ManifestDigest(codec, a));
  }

  ghost function Current(root: StorageRoot, tagsBucket: Bucket, manifestsBucket: Bucket): Store
    reads root, tagsBucket, manifestsBucket
  {
    Store(root.blobRoot, root.files, tagsBucket.contents, manifestsBucket.contents)
  }

  /** The body of the outer loop: layers, manifest, tags of one artifact. */
  method SeedArtifact(root: StorageRoot, codec: Codec, a: Artifact, faults: Faults, i: nat,
                      tagsBucket: Bucket, manifestsBucket: Bucket)
    returns (ok: bool, ghost done: seq<Write>)
    requires tagsBucket.Valid() && manifestsBucket.Valid() && tagsBucket != manifestsBucket
    modifies root`files, tagsBucket, manifestsBucket
    ensures tagsBucket.Valid() && manifestsBucket.Valid()
    ensures AllValid(done) && done <= ArtifactWrites(codec, a)
    ensures Current(root, tagsBucket, manifestsBucket) == Run(old(Current(root, tagsBucket, manifestsBucket)), done)
    ensures ok <==> ArtifactSucceeds(faults, i, a)
    ensures ok ==> done == ArtifactWrites(codec, a)
  {
    ghost var s := Current(root, tagsBucket, manifestsBucket);
    var layerDescs;
    ok, layerDescs, done := WriteLayers(root, codec, a.layers, faults, i, s);
    if !ok {
      return;
    }

    var emptyConfigDigest := DigestOf(codec.sha, EMPTY_CONFIG);
    var m := Manifest(2, MANIFEST_TYPE, Descriptor(EMPTY_CONFIG_TYPE, emptyConfigDigest, |EMPTY_CONFIG|), layerDescs);
    assert m == ManifestOf(codec, a);
    ok := !faults(EncodeManifest(i));
    if !ok {
      return;
    }
    var manifestBytes := codec.marshal(m);
    var manifestDigest := DigestOf(codec.sha, manifestBytes);

    ok := root.WriteBlob(manifestDigest, manifestBytes, faults(WriteManifest(i)));
    if !ok {
      return;
    }
    ArtifactParts(codec, a, s, done);
    done := done + [PutBlob(manifestDigest, manifestBytes)];

    ok := !faults(IndexManifest(i));
    if !ok {
      return;
    }
    manifestsBucket.Put(manifestDigest, manifestBytes);
    done := LayerWrites(codec, a.layers) + ManifestWrites(codec, a);

    ghost var tagged;
    ok, tagged := PutTags(tagsBucket, a.repo, a.tags, manifestDigest, faults, i,
                          Current(root, tagsBucket, manifestsBucket));
    TagPart(codec, a, s, tagged);
    done := done + tagged;
  }

  /** The outer loop, on the buckets of one transaction. */
  method SeedArtifacts(root: StorageRoot, codec: Codec, artifacts: seq<Artifact>, faults: Faults,
                       tagsBucket: Bucket, manifestsBucket: Bucket)
    returns (ok: bool, ghost done: seq<Write>)
    requires tagsBucket.Valid() && manifestsBucket.Valid() && tagsBucket != manifestsBucket
    modifies root`files, tagsBucket, manifestsBucket
    ensures tagsBucket.Valid() && manifestsBucket.Valid()
    ensures AllValid(done) && done <= PopulateWrites(codec, artifacts)
    ensures Current(root, tagsBucket, manifestsBucket) == Run(old(Current(root, tagsBucket, manifestsBucket)), done)
    ensures ok <==> AllSucceed(faults, artifacts, |artifacts|)
    ensures ok ==> done == PopulateWrites(codec, artifacts)
  {
    ghost var s := Current(root, tagsBucket, manifestsBucket);
    assert artifacts[..0] == [];
    for i := 0 to |artifacts|
      invariant tagsBucket.Valid() && manifestsBucket.Valid()
      invariant Current(root, tagsBucket, manifestsBucket) == Run(s, PopulateWrites(codec, artifacts[..i]))
      invariant AllSucceed(faults, artifacts, i)
    {
      ghost var part;
      ok, part := SeedArtifact(root, codec, artifacts[i], faults, i, tagsBucket, manifestsBucket);
      NextArtifact(codec, s, artifacts, i, part);
      if !ok {
        done := PopulateWrites(codec, artifacts[..i]) + part;
        return;
      }
    }
    assert artifacts[..|artifacts|] == artifacts;
    ok, done := true, PopulateWrites(codec, artifacts);
  }

  /** The transaction: all artifacts on private copies of the buckets, which
      replace the buckets of the index only if nothing failed. */
  method Populate(root: StorageRoot, codec: Codec, artifacts: seq<Artifact>, faults: Faults)
    returns (ok: bool, ghost done: seq<Write>)
    requires root.Valid()
    modifies root
    ensures root.Valid() && AllValid(done)
    ensures done <= PopulateWrites(codec, artifacts)
    ensures ok <==> PopulateSucceeds(faults, artifacts)
    ensures ok ==> done == PopulateWrites(codec, artifacts) && root.Model() == Run(old(root.Model()), done)
    ensures !ok ==> root.Model() == RolledBack(old(root.Model()), Run(old(root.Model()), done))
  {
    ok := !faults(CreateBuckets);
    done := [];
    if !ok {
      return;
    }
    var tagsBucket := CreateBucketIfNotExists(root.tags);
    var manifestsBucket := CreateBucketIfNotExists(root.manifests);
    ok, done := SeedArtifacts(root, codec, artifacts, faults, tagsBucket, manifestsBucket);
    if !ok {
      return;
    }
    ok := !faults(Commit);
    if ok {
      root.tags, root.manifests := tagsBucket, manifestsBucket;
    }
  }

  /** The transaction's own copy of a bucket of the index. */
  method CreateBucketIfNotExists(committed: Bucket?) returns (b: Bucket)
    requires committed != null ==> committed.Valid()
    ensures fresh(b) && b.Valid()
    ensures b.contents == StorageRoot.Contents(committed)
  {
    if committed == null {
      b := new Bucket();
    } else {
      b := new Bucket.CopyOf(committed);
    }
  }

  /** Wherever the run stops, committed or rolled back, the store is closed. */
  lemma StopIsClosed(codec: Codec, start: Store, artifacts: seq<Artifact>, done: seq<Write>)
    requires AllValid(done) && done <= SeedWrites(codec, artifacts)
    ensures Decodes(codec, artifacts) && Closed(codec, start) ==>
              Closed(codec, Run(start, done)) && Closed(codec, RolledBack(start, Run(start, done)))
  {
    assert SeedWrites(codec, artifacts)[..|done|] == done;
    if Decodes(codec, artifacts) && Closed(codec, start) {
      ClosedAtEveryStep(codec, start, artifacts, |done|);
    }
  }

  /** Writes of the transaction, after the config blob. */
  lemma SeedPart(codec: Codec, start: Store, artifacts: seq<Artifact>, part: seq<Write>)
    requires AllValid(part) && part <= PopulateWrites(codec, artifacts)
    ensures var done := [ConfigWrite(codec)] + part;
            && AllValid(done) && done <= SeedWrites(codec, artifacts)
            && Run(start, done) == Run(Apply(start, ConfigWrite(codec)), part)
            && Run(start, done).blobRoot == start.blobRoot
            && (part == PopulateWrites(codec, artifacts) ==> done == SeedWrites(codec, artifacts))
            && (Decodes(codec, artifacts) && Closed(codec, start) ==>
                  Closed(codec, Run(start, done)) && Closed(codec, RolledBack(start, Run(start, done))))
  {
    var config := ConfigWrite(codec);
    assert [config][..0] == [];
    assert Run(start, [config]) == Apply(start, config);
    RunConcat(start, [config], part);
    RunGrows(start, [config] + part);
    StopIsClosed(codec, start, artifacts, [config] + part);
  }

  /** The whole program. Which of its operations fail decides how it ends, and nothing
      else does. If it reports the root as ready, all writes of the run have been
      made, starting from an empty index, or from the old one if the index file
      could not be removed. If it stops early, only blob files of the run have
      been added and the index holds nothing of this run. */
  method Seed(root: StorageRoot, codec: Codec, artifacts: seq<Artifact>, faults: Faults)
    returns (outcome: Outcome, removed: bool, ghost done: seq<Write>)
    requires root.Valid()
    modifies root
    ensures root.Valid() && AllValid(done)
    ensures removed <==> !faults(WriteConfig) && !faults(RemoveOldIndex)
    ensures outcome == if faults(WriteConfig) then ConfigBlobFailed
                       else if faults(OpenIndex) then OpenFailed
                       else if PopulateSucceeds(faults, artifacts) then Ready
                       else PopulateFailed
    ensures done <= SeedWrites(codec, artifacts)
    ensures var before := old(root.Model());
            var start := if removed then Store(before.blobRoot, before.files, map[], map[]) else before;
            && (outcome == Ready ==> done == SeedWrites(codec, artifacts) && root.Model() == Run(start, done))
            && (outcome != Ready ==>
                  root.Model() == Store(start.blobRoot, Run(start, done).files, start.tags, start.manifests))
            && (outcome == Ready && removed ==> root.Model() == Seeded(codec, before, artifacts))
            && (Decodes(codec, artifacts) && Closed(codec, start) ==> Closed(codec, root.Model()))
  {
    var emptyConfig := EMPTY_CONFIG;
    var emptyConfigDigest := DigestOf(codec.sha, emptyConfig);
    removed, done := false, [];
    ghost var s0 := root.Model();

    var ok := root.WriteBlob(emptyConfigDigest, emptyConfig, faults(WriteConfig));
    if !ok {
      outcome := ConfigBlobFailed;
      return;
    }
    done := [ConfigWrite(codec)];

    removed := root.RemoveIndex(faults(RemoveOldIndex));
    ghost var start := if removed then WithFreshIndex(s0) else s0;
    assert root.Model() == Apply(start, ConfigWrite(codec));
    if faults(OpenIndex) {
      SeedPart(codec, start, artifacts, []);
      assert [ConfigWrite(codec)] + [] == done;
      outcome := OpenFailed;
      return;
    }

    ghost var populated;
    ok, populated := Populate(root, codec, artifacts, faults);
    SeedPart(codec, start, artifacts, populated);
    done := [ConfigWrite(codec)] + populated;
    outcome := if ok then Ready else PopulateFailed;
  }
}
