/** The seed run (`hack/seed/main.go`) as the sequence of its single writes, and
    what holds after every one of them. */
module Seeding {
  import opened Wrappers
  import opened ByteStrings
  import opened Paths
  import opened Digests
  import opened Listings
  import opened Stores

  /******* What is seeded *******/

  datatype Layer = Layer(mediaType: Bytes, data: Bytes)

  datatype Artifact = Artifact(repo: Bytes, tags: seq<Bytes>, layers: seq<Layer>)

  datatype Descriptor = Descriptor(mediaType: Bytes, digest: Bytes, size: nat)

  datatype Manifest = Manifest(schemaVersion: int, mediaType: Bytes, config: Descriptor, layers: seq<Descriptor>)

  /** The libraries the run relies on: SHA-256, and JSON encoding together with the
      decoding a client applies to what it pulled. */
  datatype Codec = Codec(sha: HashFunction, marshal: Manifest -> Bytes, unmarshal: Bytes -> Option<Manifest>)

  const EMPTY_CONFIG: Bytes := "{}"
  const EMPTY_CONFIG_TYPE: Bytes := "application/vnd.oci.empty.v1+json"

  function Describe(codec: Codec, mediaType: Bytes, data: Bytes): Descriptor {
    Descriptor(mediaType, DigestOf(codec.sha, data), |data|)
  }

  function DescribeLayers(codec: Codec, layers: seq<Layer>): (ds: seq<Descriptor>)
    ensures |ds| == |layers|
    ensures forall i :: 0 <= i < |ds| ==> ds[i] == Describe(codec, layers[i].mediaType, layers[i].data)
  {
    if layers == [] then []
    else
      var front, last := layers[..|layers| - 1], layers[|layers| - 1];
      DescribeLayers(codec, front) + [Describe(codec, last.mediaType, last.data)]
  }

  function ManifestOf(codec: Codec, a: Artifact): Manifest {
    Manifest(2, MANIFEST_TYPE, Describe(codec, EMPTY_CONFIG_TYPE, EMPTY_CONFIG), DescribeLayers(codec, a.layers))
  }

  function ManifestBytes(codec: Codec, a: Artifact): Bytes {
    codec.marshal(ManifestOf(codec, a))
  }

  function ManifestDigest(codec: Codec, a: Artifact): Bytes {
    DigestOf(codec.sha, ManifestBytes(codec, a))
  }

  /** What a client finds in the manifest of an artifact: schema version, types,
      digests and sizes, the layers in order. */
  lemma ManifestExactly(codec: Codec, a: Artifact)
    ensures var m := ManifestOf(codec, a);
            && m.schemaVersion == 2 && m.mediaType == "application/vnd.oci.image.manifest.v1+json"
            && m.config == Descriptor("application/vnd.oci.empty.v1+json", "sha256:" + Hex(codec.sha("{}")), 2)
            && |m.layers| == |a.layers|
            && forall i :: 0 <= i < |m.layers| ==>
                 m.layers[i] == Descriptor(a.layers[i].mediaType, "sha256:" + Hex(codec.sha(a.layers[i].data)),
                                           |a.layers[i].data|)
  {
  }

  /** The client decodes what the seeder encoded. */
  ghost predicate Decodes(codec: Codec, artifacts: seq<Artifact>) {
    forall a :: a in artifacts ==> codec.unmarshal(ManifestBytes(codec, a)) == Some(ManifestOf(codec, a))
  }

  /** Any encoding that can be undone will do. */
  lemma RoundTripDecodes(codec: Codec, artifacts: seq<Artifact>)
    requires forall m :: codec.unmarshal(codec.marshal(m)) == Some(m)
    ensures Decodes(codec, artifacts)
  {
  }

  /******* Single writes *******/

  datatype Write =
    | PutBlob(digest: Bytes, data: Bytes)
    | PutManifest(digest: Bytes, data: Bytes)
    | PutTag(key: Bytes, digest: Bytes)
  {
    /** Blob files are only ever written under printed digests. */
    ghost predicate Valid() {
      PutBlob? ==> |digest| >= 9
    }
  }

  ghost predicate AllValid(ws: seq<Write>) {
    forall w :: w in ws ==> w.Valid()
  }

  function Apply(s: Store, w: Write): Store
    requires w.Valid()
  {
    match w
    case PutBlob(digest, data) => s.(files := s.files[WriteKey(s.blobRoot, digest) := data])
    case PutManifest(digest, data) => s.(manifests := s.manifests[digest := data])
    case PutTag(key, digest) => s.(tags := s.tags[key := digest])
  }

  function Run(s: Store, ws: seq<Write>): Store
    requires AllValid(ws)
  {
    if ws == [] then s else Apply(Run(s, ws[..|ws| - 1]), ws[|ws| - 1])
  }

  /******* The writes of a run, in order *******/

  function LayerWrites(codec: Codec, layers: seq<Layer>): (ws: seq<Write>)
    ensures AllValid(ws)
  {
    if layers == [] then []
    else
      var front, last := layers[..|layers| - 1], layers[|layers| - 1];
      LayerWrites(codec, front) + [PutBlob(DigestOf(codec.sha, last.data), last.data)]
  }

  function TagWrites(repo: Bytes, tags: seq<Bytes>, digest: Bytes): (ws: seq<Write>)
    ensures AllValid(ws)
  {
    if tags == [] then []
    else TagWrites(repo, tags[..|tags| - 1], digest) + [PutTag(TagKey(repo, tags[|tags| - 1]), digest)]
  }

  function ManifestWrites(codec: Codec, a: Artifact): (ws: seq<Write>)
    ensures AllValid(ws)
  {
    var bytes, digest := ManifestBytes(codec, a), ManifestDigest(codec, a);
    [PutBlob(digest, bytes), PutManifest(digest, bytes)]
  }

  function ArtifactWrites(codec: Codec, a: Artifact): (ws: seq<Write>)
    ensures AllValid(ws)
  {
    LayerWrites(codec, a.layers) + ManifestWrites(codec, a) + TagWrites(a.repo, a.tags, ManifestDigest(codec, a))
  }

  /** The writes of the transaction: artifact after artifact. */
  function PopulateWrites(codec: Codec, artifacts: seq<Artifact>): (ws: seq<Write>)
    ensures AllValid(ws)
  {
    if artifacts == [] then []
    else
      PopulateWrites(codec, artifacts[..|artifacts| - 1]) + ArtifactWrites(codec, artifacts[|artifacts| - 1])
  }

  function ConfigWrite(codec: Codec): (w: Write)
    ensures w.Valid()
  {
    PutBlob(DigestOf(codec.sha, EMPTY_CONFIG), EMPTY_CONFIG)
  }

  /** The writes of a whole run: the empty config blob, then the transaction. */
  function SeedWrites(codec: Codec, artifacts: seq<Artifact>): (ws: seq<Write>)
    ensures AllValid(ws)
  {
    [ConfigWrite(codec)] + PopulateWrites(codec, artifacts)
  }

  /** The index file removed, the blob files left alone. */
  function WithFreshIndex(s: Store): Store {
    Store(s.blobRoot, s.files, map[], map[])
  }

  /** An aborted transaction: the blob files written so far stay, the index does
      not change. */
  function RolledBack(before: Store, after: Store): Store {
    after.(tags := before.tags, manifests := before.manifests)
  }

  /** The store a completed run leaves behind. */
  function Seeded(codec: Codec, s: Store, artifacts: seq<Artifact>): Store {
    Run(WithFreshIndex(s), SeedWrites(codec, artifacts))
  }

  /******* Closure *******/

  /** Every file in the seeder's blob directory is named after the digest of its bytes. */
  ghost predicate BlobsAddressed(codec: Codec, s: Store) {
    forall k :: k in s.files && s.blobRoot + ["sha256"] <= k
                ==> k == WriteKey(s.blobRoot, DigestOf(codec.sha, s.files[k]))
  }

  ghost predicate Readable(s: Store, digest: Bytes) {
    BlobPathIn(s, digest).Success?
  }

  ghost predicate Described(codec: Codec, s: Store, bytes: Bytes) {
    match codec.unmarshal(bytes)
    case None => false
    case Some(m) => Readable(s, m.config.digest) && forall d :: d in m.layers ==> Readable(s, d.digest)
  }

  ghost predicate ManifestsAddressed(codec: Codec, s: Store) {
    forall d :: d in s.manifests ==> d == DigestOf(codec.sha, s.manifests[d])
  }

  ghost predicate ManifestsDescribed(codec: Codec, s: Store) {
    forall d :: d in s.manifests ==> Described(codec, s, s.manifests[d])
  }

  /** Every indexed manifest can also be fetched as a blob. */
  ghost predicate ManifestsStored(s: Store) {
    forall d :: d in s.manifests ==> Readable(s, d)
  }

  ghost predicate TagsResolve(s: Store) {
    forall k :: k in s.tags ==> s.tags[k] in s.manifests
  }

  /** Blobs and manifests hash to their keys, an indexed manifest and every
      descriptor in it have their blobs, every tag names an indexed manifest. */
  ghost predicate Closed(codec: Codec, s: Store) {
    && BlobsAddressed(codec, s)
    && ManifestsAddressed(codec, s)
    && ManifestsDescribed(codec, s)
    && ManifestsStored(s)
    && TagsResolve(s)
  }

  /** Whether the file a digest leads to is there. */
  ghost predicate HasFile(s: Store, digest: Bytes) {
    ReadKey(s.blobRoot, digest).Some? && ReadKey(s.blobRoot, digest).value in s.files
  }

  lemma BlobsAddressedExactly(codec: Codec, s: Store)
    ensures BlobsAddressed(codec, s) <==>
            forall k :: k in s.files && s.blobRoot + ["sha256"] <= k ==>
              var h := Hex(codec.sha(s.files[k])); k == s.blobRoot + ["sha256", h[..2], h]
  {
    forall k | k in s.files
      ensures var h := Hex(codec.sha(s.files[k]));
              WriteKey(s.blobRoot, DigestOf(codec.sha, s.files[k])) == s.blobRoot + ["sha256", h[..2], h]
    {
      PrintedDigestParses(s.blobRoot, codec.sha, s.files[k]);
    }
  }

  lemma DescribedExactly(codec: Codec, s: Store, bytes: Bytes)
    ensures Described(codec, s, bytes) <==>
            match codec.unmarshal(bytes)
            case None => false
            case Some(m) => HasFile(s, m.config.digest) && forall l :: l in m.layers ==> HasFile(s, l.digest)
  {
  }

  /** Closure in terms of paths and sums. */
  lemma ClosedExactly(codec: Codec, s: Store)
    ensures Closed(codec, s) <==>
            && (forall k :: k in s.files && s.blobRoot + ["sha256"] <= k ==>
                  var h := Hex(codec.sha(s.files[k])); k == s.blobRoot + ["sha256", h[..2], h])
            && (forall d :: d in s.manifests ==> d == "sha256:" + Hex(codec.sha(s.manifests[d])))
            && (forall d :: d in s.manifests ==>
                  match codec.unmarshal(s.manifests[d])
                  case None => false
                  case Some(m) => HasFile(s, m.config.digest) && forall l :: l in m.layers ==> HasFile(s, l.digest))
            && (forall d :: d in s.manifests ==> HasFile(s, d))
            && (forall k :: k in s.tags ==> s.tags[k] in s.manifests)
  {
    BlobsAddressedExactly(codec, s);
    forall d ensures Readable(s, d) <==> HasFile(s, d) {
    }
    forall d | d in s.manifests {
      DescribedExactly(codec, s, s.manifests[d]);
    }
  }

  /** What a single write needs in order not to break closure. */
  ghost predicate Enabled(codec: Codec, s: Store, w: Write) {
    match w
    case PutBlob(digest, data) => digest == DigestOf(codec.sha, data)
    case PutManifest(digest, data) =>
      digest == DigestOf(codec.sha, data) && Described(codec, s, data) && Readable(s, digest)
    case PutTag(_, digest) => digest in s.manifests
  }

  ghost predicate Grows(s: Store, s': Store) {
    && s'.blobRoot == s.blobRoot && s.files.Keys <= s'.files.Keys
    && s.manifests.Keys <= s'.manifests.Keys && s.tags.Keys <= s'.tags.Keys
  }

  lemma GrowingKeepsDescribed(codec: Codec, s: Store, s': Store, bytes: Bytes)
    requires s'.blobRoot == s.blobRoot && s.files.Keys <= s'.files.Keys && Described(codec, s, bytes)
    ensures Described(codec, s', bytes)
  {
  }

  lemma BlobStepKeepsClosed(codec: Codec, s: Store, digest: Bytes, data: Bytes)
    requires Closed(codec, s) && digest == DigestOf(codec.sha, data)
    ensures Closed(codec, Apply(s, PutBlob(digest, data)))
  {
    var s' := Apply(s, PutBlob(digest, data));
    forall d | d in s'.manifests ensures Described(codec, s', s'.manifests[d]) {
      GrowingKeepsDescribed(codec, s, s', s'.manifests[d]);
    }
  }

  lemma ManifestStepKeepsClosed(codec: Codec, s: Store, digest: Bytes, data: Bytes)
    requires Closed(codec, s) && Enabled(codec, s, PutManifest(digest, data))
    ensures Closed(codec, Apply(s, PutManifest(digest, data)))
  {
    var s' := Apply(s, PutManifest(digest, data));
    forall d | d in s'.manifests ensures Described(codec, s', s'.manifests[d]) {
      GrowingKeepsDescribed(codec, s, s', s'.manifests[d]);
    }
  }

  lemma TagStepKeepsClosed(codec: Codec, s: Store, key: Bytes, digest: Bytes)
    requires Closed(codec, s) && digest in s.manifests
    ensures Closed(codec, Apply(s, PutTag(key, digest)))
  {
    var s' := Apply(s, PutTag(key, digest));
    forall d | d in s'.manifests ensures Described(codec, s', s'.manifests[d]) {
      GrowingKeepsDescribed(codec, s, s', s'.manifests[d]);
    }
  }

  lemma StepKeepsClosed(codec: Codec, s: Store, w: Write)
    requires Closed(codec, s) && w.Valid() && Enabled(codec, s, w)
    ensures Closed(codec, Apply(s, w))
  {
    match w
    case PutBlob(digest, data) => BlobStepKeepsClosed(codec, s, digest, data);
    case PutManifest(digest, data) => ManifestStepKeepsClosed(codec, s, digest, data);
    case PutTag(key, digest) => TagStepKeepsClosed(codec, s, key, digest);
  }

  lemma {:induction false} RunGrows(s: Store, ws: seq<Write>)
    requires AllValid(ws)
    ensures Grows(s, Run(s, ws))
  {
    if ws != [] {
      RunGrows(s, ws[..|ws| - 1]);
    }
  }

  lemma {:induction false} RunConcat(s: Store, a: seq<Write>, b: seq<Write>)
    requires AllValid(a) && AllValid(b)
    ensures AllValid(a + b)
    ensures Run(s, a + b) == Run(Run(s, a), b)
  {
    if b == [] {
      assert a + b == a;
    } else {
      RunConcat(s, a, b[..|b| - 1]);
      assert (a + b)[..|a + b| - 1] == a + b[..|b| - 1];
    }
  }

  /** Every write finds what it needs when its turn comes. */
  ghost predicate Legal(codec: Codec, s: Store, ws: seq<Write>) {
    AllValid(ws) && forall n :: 0 <= n < |ws| ==> Enabled(codec, Run(s, ws[..n]), ws[n])
  }

  lemma {:induction false} LegalConcat(codec: Codec, s: Store, a: seq<Write>, b: seq<Write>)
    requires Legal(codec, s, a) && Legal(codec, Run(s, a), b)
    ensures Legal(codec, s, a + b)
  {
    var ws := a + b;
    forall n | 0 <= n < |ws| ensures Enabled(codec, Run(s, ws[..n]), ws[n]) {
      if n < |a| {
        assert ws[..n] == a[..n];
      } else {
        assert ws[..n] == a + b[..n - |a|];
        RunConcat(s, a, b[..n - |a|]);
      }
    }
  }

  lemma {:induction false} LegalKeepsClosed(codec: Codec, s: Store, ws: seq<Write>, n: nat)
    requires Closed(codec, s) && Legal(codec, s, ws) && n <= |ws|
    ensures Closed(codec, Run(s, ws[..n]))
  {
    if n > 0 {
      LegalKeepsClosed(codec, s, ws, n - 1);
      assert ws[..n][..n - 1] == ws[..n - 1];
      StepKeepsClosed(codec, Run(s, ws[..n - 1]), ws[n - 1]);
    }
  }

  lemma {:induction false} LayerWritesLegal(codec: Codec, s: Store, layers: seq<Layer>)
    ensures Legal(codec, s, LayerWrites(codec, layers))
  {
    if layers != [] {
      var front, last := layers[..|layers| - 1], layers[|layers| - 1];
      LayerWritesLegal(codec, s, front);
      var ws, w := LayerWrites(codec, front), PutBlob(DigestOf(codec.sha, last.data), last.data);
      assert [w][..0] == [] && Legal(codec, Run(s, ws), [w]);
      LegalConcat(codec, s, ws, [w]);
    }
  }

  lemma {:induction false} WrittenLayersReadable(codec: Codec, s: Store, layers: seq<Layer>, l: Layer)
    requires l in layers
    ensures Readable(Run(s, LayerWrites(codec, layers)), DigestOf(codec.sha, l.data))
  {
    var front, last := layers[..|layers| - 1], layers[|layers| - 1];
    var ws, w := LayerWrites(codec, front), PutBlob(DigestOf(codec.sha, last.data), last.data);
    assert (ws + [w])[..|ws|] == ws;
    if l == last {
      PrintedDigestParses(s.blobRoot, codec.sha, last.data);
    } else {
      assert layers == front + [last];
      WrittenLayersReadable(codec, s, front, l);
    }
  }

  lemma {:induction false} TagWritesLegal(codec: Codec, s: Store, repo: Bytes, tags: seq<Bytes>, digest: Bytes)
    requires digest in s.manifests
    ensures Legal(codec, s, TagWrites(repo, tags, digest))
  {
    if tags != [] {
      var ws, w := TagWrites(repo, tags[..|tags| - 1], digest), PutTag(TagKey(repo, tags[|tags| - 1]), digest);
      TagWritesLegal(codec, s, repo, tags[..|tags| - 1], digest);
      RunGrows(s, ws);
      assert [w][..0] == [] && Legal(codec, Run(s, ws), [w]);
      LegalConcat(codec, s, ws, [w]);
    }
  }

  ghost predicate ConfigReadable(codec: Codec, s: Store) {
    Readable(s, DigestOf(codec.sha, EMPTY_CONFIG))
  }

  lemma ManifestIsEnabled(codec: Codec, s: Store, a: Artifact)
    requires Described(codec, s, ManifestBytes(codec, a))
    ensures Enabled(codec, Apply(s, ManifestWrites(codec, a)[0]), ManifestWrites(codec, a)[1])
  {
    var s' := Apply(s, ManifestWrites(codec, a)[0]);
    GrowingKeepsDescribed(codec, s, s', ManifestBytes(codec, a));
    PrintedDigestParses(s.blobRoot, codec.sha, ManifestBytes(codec, a));
  }

  lemma ManifestIsDescribed(codec: Codec, s: Store, a: Artifact)
    requires codec.unmarshal(ManifestBytes(codec, a)) == Some(ManifestOf(codec, a))
    requires ConfigReadable(codec, s)
    requires forall l :: l in a.layers ==> Readable(s, DigestOf(codec.sha, l.data))
    ensures Described(codec, s, ManifestBytes(codec, a))
  {
  }

  lemma ManifestWritesLegal(codec: Codec, s: Store, a: Artifact)
    requires codec.unmarshal(ManifestBytes(codec, a)) == Some(ManifestOf(codec, a))
    requires ConfigReadable(codec, s)
    requires forall l :: l in a.layers ==> Readable(s, DigestOf(codec.sha, l.data))
    ensures Legal(codec, s, ManifestWrites(codec, a))
    ensures ManifestDigest(codec, a) in Run(s, ManifestWrites(codec, a)).manifests
  {
    var ws := ManifestWrites(codec, a);
    ManifestIsDescribed(codec, s, a);
    ManifestIsEnabled(codec, s, a);
    PairLegal(codec, s, ws[0], ws[1]);
    assert ws == [ws[0], ws[1]];
  }

  lemma PairLegal(codec: Codec, s: Store, w: Write, w': Write)
    requires w.Valid() && w'.Valid() && Enabled(codec, s, w) && Enabled(codec, Apply(s, w), w')
    ensures Legal(codec, s, [w, w']) && Run(s, [w, w']) == Apply(Apply(s, w), w')
  {
    var ws := [w, w'];
    assert ws[..0] == [] && ws[..1] == [w] && [w][..0] == [];
  }

  lemma {:induction false} ArtifactWritesLegal(codec: Codec, s: Store, a: Artifact)
    requires codec.unmarshal(ManifestBytes(codec, a)) == Some(ManifestOf(codec, a))
    requires ConfigReadable(codec, s)
    ensures Legal(codec, s, ArtifactWrites(codec, a))
  {
    var ls, ms := LayerWrites(codec, a.layers), ManifestWrites(codec, a);
    var ts := TagWrites(a.repo, a.tags, ManifestDigest(codec, a));
    LayerWritesLegal(codec, s, a.layers);
    RunGrows(s, ls);
    forall l | l in a.layers ensures Readable(Run(s, ls), DigestOf(codec.sha, l.data)) {
      WrittenLayersReadable(codec, s, a.layers, l);
    }
    ManifestWritesLegal(codec, Run(s, ls), a);
    LegalConcat(codec, s, ls, ms);
    RunConcat(s, ls, ms);
    TagWritesLegal(codec, Run(s, ls + ms), a.repo, a.tags, ManifestDigest(codec, a));
    LegalConcat(codec, s, ls + ms, ts);
  }

  lemma {:induction false} PopulateWritesLegal(codec: Codec, s: Store, artifacts: seq<Artifact>)
    requires Decodes(codec, artifacts) && ConfigReadable(codec, s)
    ensures Legal(codec, s, PopulateWrites(codec, artifacts))
  {
    if artifacts != [] {
      var front, last := artifacts[..|artifacts| - 1], artifacts[|artifacts| - 1];
      PopulateWritesLegal(codec, s, front);
      var ws := PopulateWrites(codec, front);
      RunGrows(s, ws);
      ArtifactWritesLegal(codec, Run(s, ws), last);
      LegalConcat(codec, s, ws, ArtifactWrites(codec, last));
    }
  }

  /** A blob can be read once it has been written. */
  lemma WrittenIsReadable(codec: Codec, s: Store, data: Bytes)
    ensures Readable(Apply(s, PutBlob(DigestOf(codec.sha, data), data)), DigestOf(codec.sha, data))
  {
    PrintedDigestParses(s.blobRoot, codec.sha, data);
  }

  lemma BlobWriteLegal(codec: Codec, s: Store, w: Write)
    requires w.PutBlob? && w.digest == DigestOf(codec.sha, w.data)
    ensures Legal(codec, s, [w]) && Run(s, [w]) == Apply(s, w)
  {
    assert [w][..0] == [];
  }

  lemma SeedWritesLegal(codec: Codec, s: Store, artifacts: seq<Artifact>)
    requires Decodes(codec, artifacts)
    ensures Legal(codec, s, SeedWrites(codec, artifacts))
  {
    var w := ConfigWrite(codec);
    BlobWriteLegal(codec, s, w);
    WrittenIsReadable(codec, s, EMPTY_CONFIG);
    PopulateWritesLegal(codec, Run(s, [w]), artifacts);
    LegalConcat(codec, s, [w], PopulateWrites(codec, artifacts));
  }

  lemma RollbackKeepsClosed(codec: Codec, s: Store, s': Store)
    requires Closed(codec, s) && Closed(codec, s') && Grows(s, s')
    ensures Closed(codec, RolledBack(s, s'))
  {
    forall d | d in s.manifests ensures Described(codec, RolledBack(s, s'), s.manifests[d]) {
      GrowingKeepsDescribed(codec, s, RolledBack(s, s'), s.manifests[d]);
    }
  }

  /** The store is closed after each single write of a run, wherever it started
      from a closed store; and if the transaction is aborted there, the store
      that remains is closed as well. */
  lemma ClosedAtEveryStep(codec: Codec, s: Store, artifacts: seq<Artifact>, n: nat)
    requires Closed(codec, s) && Decodes(codec, artifacts) && n <= |SeedWrites(codec, artifacts)|
    ensures var s' := Run(s, SeedWrites(codec, artifacts)[..n]);
            Closed(codec, s') && Closed(codec, RolledBack(s, s'))
  {
    var ws := SeedWrites(codec, artifacts);
    SeedWritesLegal(codec, s, artifacts);
    LegalKeepsClosed(codec, s, ws, n);
    RunGrows(s, ws[..n]);
    RollbackKeepsClosed(codec, s, Run(s, ws[..n]));
  }

  /** A fresh index over any addressed blob files is closed. */
  lemma FreshIndexIsClosed(codec: Codec, s: Store)
    requires BlobsAddressed(codec, s)
    ensures Closed(codec, WithFreshIndex(s))
  {
  }
}
