/** What a whole seed run amounts to: which write each stored value comes from,
    and why repeating or reordering a run changes nothing. */
module Effects {
  import opened Wrappers
  import opened ByteStrings
  import opened Paths
  import opened Digests
  import opened Listings
  import opened Stores
  import opened Seeding

  /******* Locations *******/

  datatype Location = BlobAt(key: FilePath) | ManifestAt(digest: Bytes) | TagAt(tagKey: Bytes)

  function At(s: Store, loc: Location): Option<Bytes> {
    match loc
    case BlobAt(k) => if k in s.files then Some(s.files[k]) else None
    case ManifestAt(d) => if d in s.manifests then Some(s.manifests[d]) else None
    case TagAt(k) => if k in s.tags then Some(s.tags[k]) else None
  }

  function Target(root: FilePath, w: Write): Location
    requires w.Valid()
  {
    match w
    case PutBlob(digest, _) => BlobAt(WriteKey(root, digest))
    case PutManifest(digest, _) => ManifestAt(digest)
    case PutTag(key, _) => TagAt(key)
  }

  function Payload(w: Write): Bytes {
    match w
    case PutBlob(_, data) => data
    case PutManifest(_, data) => data
    case PutTag(_, digest) => digest
  }

  /** What the last write to a location put there. */
  function LastAt(root: FilePath, ws: seq<Write>, loc: Location): Option<Bytes>
    requires AllValid(ws)
  {
    if ws == [] then None
    else
      var w := ws[|ws| - 1];
      if Target(root, w) == loc then Some(Payload(w)) else LastAt(root, ws[..|ws| - 1], loc)
  }

  lemma StoresEqual(s: Store, t: Store)
    requires s.blobRoot == t.blobRoot
    requires forall loc :: At(s, loc) == At(t, loc)
    ensures s == t
  {
    assert s.files == t.files by {
      forall k ensures k in s.files <==> k in t.files { assert At(s, BlobAt(k)) == At(t, BlobAt(k)); }
      forall k | k in s.files ensures s.files[k] == t.files[k] { assert At(s, BlobAt(k)) == At(t, BlobAt(k)); }
    }
    assert s.manifests == t.manifests by {
      forall d ensures d in s.manifests <==> d in t.manifests { assert At(s, ManifestAt(d)) == At(t, ManifestAt(d)); }
      forall d | d in s.manifests ensures s.manifests[d] == t.manifests[d] {
        assert At(s, ManifestAt(d)) == At(t, ManifestAt(d));
      }
    }
    assert s.tags == t.tags by {
      forall k ensures k in s.tags <==> k in t.tags { assert At(s, TagAt(k)) == At(t, TagAt(k)); }
      forall k | k in s.tags ensures s.tags[k] == t.tags[k] { assert At(s, TagAt(k)) == At(t, TagAt(k)); }
    }
  }

  lemma {:induction false} RunKeepsRoot(s: Store, ws: seq<Write>)
    requires AllValid(ws)
    ensures Run(s, ws).blobRoot == s.blobRoot
  {
    if ws != [] {
      RunKeepsRoot(s, ws[..|ws| - 1]);
    }
  }

  lemma ApplyAt(s: Store, w: Write, loc: Location)
    requires w.Valid()
    ensures At(Apply(s, w), loc) == if Target(s.blobRoot, w) == loc then Some(Payload(w)) else At(s, loc)
  {
  }

  /** After a run a location holds the last value written to it, and what it held
      before if there was none. */
  lemma {:induction false} RunAt(s: Store, ws: seq<Write>, loc: Location)
    requires AllValid(ws)
    ensures At(Run(s, ws), loc)
            == if LastAt(s.blobRoot, ws, loc).Some? then LastAt(s.blobRoot, ws, loc) else At(s, loc)
  {
    if ws != [] {
      RunAt(s, ws[..|ws| - 1], loc);
      RunKeepsRoot(s, ws[..|ws| - 1]);
      ApplyAt(Run(s, ws[..|ws| - 1]), ws[|ws| - 1], loc);
    }
  }

  lemma {:induction false} LastAtConcat(root: FilePath, a: seq<Write>, b: seq<Write>, loc: Location)
    requires AllValid(a) && AllValid(b)
    ensures AllValid(a + b)
    ensures LastAt(root, a + b, loc)
            == if LastAt(root, b, loc).Some? then LastAt(root, b, loc) else LastAt(root, a, loc)
  {
    if b == [] {
      assert a + b == a;
    } else {
      LastAtConcat(root, a, b[..|b| - 1], loc);
      assert (a + b)[..|a + b| - 1] == a + b[..|b| - 1];
    }
  }

  lemma {:induction false} LastAtIsWritten(root: FilePath, ws: seq<Write>, loc: Location)
    requires AllValid(ws)
    ensures LastAt(root, ws, loc).Some? <==> exists w :: w in ws && Target(root, w) == loc
    ensures LastAt(root, ws, loc).Some? ==>
              exists w :: w in ws && Target(root, w) == loc && Payload(w) == LastAt(root, ws, loc).value
  {
    if ws != [] {
      var front, last := ws[..|ws| - 1], ws[|ws| - 1];
      LastAtIsWritten(root, front, loc);
      assert ws == front + [last] && last in ws;
    }
  }

  /******* Repeating and reordering *******/

  /** Repeating a run of writes changes nothing. */
  lemma RunIsIdempotent(s: Store, ws: seq<Write>)
    requires AllValid(ws)
    ensures Run(Run(s, ws), ws) == Run(s, ws)
  {
    RunKeepsRoot(s, ws);
    RunKeepsRoot(Run(s, ws), ws);
    forall loc ensures At(Run(Run(s, ws), ws), loc) == At(Run(s, ws), loc) {
      RunAt(s, ws, loc);
      RunAt(Run(s, ws), ws, loc);
    }
    StoresEqual(Run(Run(s, ws), ws), Run(s, ws));
  }

  /** No location is given two different values. */
  ghost predicate Consistent(root: FilePath, ws: seq<Write>)
    requires AllValid(ws)
  {
    forall w, w' :: w in ws && w' in ws && Target(root, w) == Target(root, w') ==> Payload(w) == Payload(w')
  }

  /** Then neither the order nor the number of the writes matters. */
  lemma ConsistentRunsAgree(s: Store, a: seq<Write>, b: seq<Write>)
    requires AllValid(a) && AllValid(b) && Consistent(s.blobRoot, a)
    requires forall w :: w in a <==> w in b
    ensures Run(s, a) == Run(s, b)
  {
    RunKeepsRoot(s, a);
    RunKeepsRoot(s, b);
    forall loc ensures At(Run(s, a), loc) == At(Run(s, b), loc) {
      RunAt(s, a, loc);
      RunAt(s, b, loc);
      LastAtIsWritten(s.blobRoot, a, loc);
      LastAtIsWritten(s.blobRoot, b, loc);
    }
    StoresEqual(Run(s, a), Run(s, b));
  }

  /******* The writes of a seed run *******/

  lemma {:induction false} LayerWritesElements(codec: Codec, layers: seq<Layer>)
    ensures forall w :: w in LayerWrites(codec, layers) <==>
                        exists l :: l in layers && w == PutBlob(DigestOf(codec.sha, l.data), l.data)
  {
    if layers != [] {
      var front, last := layers[..|layers| - 1], layers[|layers| - 1];
      LayerWritesElements(codec, front);
      assert layers == front + [last];
    }
  }

  lemma {:induction false} TagWritesElements(repo: Bytes, tags: seq<Bytes>, digest: Bytes)
    ensures forall w :: w in TagWrites(repo, tags, digest) <==>
                        exists t :: t in tags && w == PutTag(TagKey(repo, t), digest)
  {
    if tags != [] {
      var front, last := tags[..|tags| - 1], tags[|tags| - 1];
      TagWritesElements(repo, front, digest);
      assert tags == front + [last];
    }
  }

  /** The byte strings an artifact has stored as blobs. */
  ghost predicate IsBlobOf(codec: Codec, a: Artifact, data: Bytes) {
    data == ManifestBytes(codec, a) || exists l :: l in a.layers && l.data == data
  }

  ghost predicate IsTagKeyOf(a: Artifact, key: Bytes) {
    exists t :: t in a.tags && TagKey(a.repo, t) == key
  }

  /** Whether an artifact asks for a write. */
  ghost predicate Writes(codec: Codec, a: Artifact, w: Write) {
    match w
    case PutBlob(digest, data) => digest == DigestOf(codec.sha, data) && IsBlobOf(codec, a, data)
    case PutManifest(digest, data) => digest == ManifestDigest(codec, a) && data == ManifestBytes(codec, a)
    case PutTag(key, digest) => digest == ManifestDigest(codec, a) && IsTagKeyOf(a, key)
  }

  lemma ArtifactWritesElements(codec: Codec, a: Artifact, w: Write)
    ensures w in ArtifactWrites(codec, a) <==> Writes(codec, a, w)
  {
    LayerWritesElements(codec, a.layers);
    TagWritesElements(a.repo, a.tags, ManifestDigest(codec, a));
    var ls, ms := LayerWrites(codec, a.layers), ManifestWrites(codec, a);
    var ts := TagWrites(a.repo, a.tags, ManifestDigest(codec, a));
    assert w in ArtifactWrites(codec, a) <==> w in ls || w in ms || w in ts;
    assert w in ms <==> w == ms[0] || w == ms[1];
  }

  lemma {:induction false} PopulateWritesElements(codec: Codec, artifacts: seq<Artifact>, w: Write)
    ensures w in PopulateWrites(codec, artifacts) <==> exists a :: a in artifacts && Writes(codec, a, w)
  {
    if artifacts != [] {
      var front, last := artifacts[..|artifacts| - 1], artifacts[|artifacts| - 1];
      PopulateWritesElements(codec, front, w);
      ArtifactWritesElements(codec, last, w);
      var ws, ws' := PopulateWrites(codec, front), ArtifactWrites(codec, last);
      assert w in PopulateWrites(codec, artifacts) <==> w in ws || w in ws';
      assert forall a :: a in artifacts <==> a in front || a == last by {
        assert artifacts == front + [last];
      }
    }
  }

  lemma SeedWritesElements(codec: Codec, artifacts: seq<Artifact>, w: Write)
    ensures w in SeedWrites(codec, artifacts) <==>
            w == ConfigWrite(codec) || exists a :: a in artifacts && Writes(codec, a, w)
  {
    PopulateWritesElements(codec, artifacts, w);
    assert w in SeedWrites(codec, artifacts) <==> w == ConfigWrite(codec) || w in PopulateWrites(codec, artifacts);
  }

  /** The byte strings a run stores as blobs. */
  ghost predicate IsSeeded(codec: Codec, artifacts: seq<Artifact>, data: Bytes) {
    data == EMPTY_CONFIG || exists a :: a in artifacts && IsBlobOf(codec, a, data)
  }

  /** No two different byte strings of this run have the same hash. */
  ghost predicate CollisionFree(codec: Codec, artifacts: seq<Artifact>) {
    forall x, y :: IsSeeded(codec, artifacts, x) && IsSeeded(codec, artifacts, y) && codec.sha(x) == codec.sha(y)
                   ==> x == y
  }

  /** No tag key is claimed for two different manifests. */
  ghost predicate TagsDisjoint(codec: Codec, artifacts: seq<Artifact>) {
    forall a, b, key :: a in artifacts && b in artifacts && IsTagKeyOf(a, key) && IsTagKeyOf(b, key)
                        ==> ManifestDigest(codec, a) == ManifestDigest(codec, b)
  }

  lemma {:induction false} SeedWritesConsistent(root: FilePath, codec: Codec, artifacts: seq<Artifact>)
    requires CollisionFree(codec, artifacts) && TagsDisjoint(codec, artifacts)
    ensures Consistent(root, SeedWrites(codec, artifacts))
  {
    var ws := SeedWrites(codec, artifacts);
    forall w, w' | w in ws && w' in ws && Target(root, w) == Target(root, w')
      ensures Payload(w) == Payload(w')
    {
      SeedWritesElements(codec, artifacts, w);
      SeedWritesElements(codec, artifacts, w');
      if w.PutBlob? || w.PutManifest? {
        SameFileIffSameSum(root, codec.sha, Payload(w), Payload(w'));
        assert IsSeeded(codec, artifacts, Payload(w)) && IsSeeded(codec, artifacts, Payload(w'));
      }
    }
  }

  /** Seeding the same artifacts again leaves index and blobs as they are. */
  lemma ReseedingChangesNothing(codec: Codec, s: Store, artifacts: seq<Artifact>)
    ensures Seeded(codec, Seeded(codec, s, artifacts), artifacts) == Seeded(codec, s, artifacts)
  {
    var ws, t := SeedWrites(codec, artifacts), Seeded(codec, s, artifacts);
    RunKeepsRoot(WithFreshIndex(s), ws);
    RunKeepsRoot(WithFreshIndex(t), ws);
    forall loc ensures At(Seeded(codec, t, artifacts), loc) == At(t, loc) {
      RunAt(WithFreshIndex(s), ws, loc);
      RunAt(WithFreshIndex(t), ws, loc);
    }
    StoresEqual(Seeded(codec, t, artifacts), t);
  }

  /** Artifact lists with the same members seed the same store, in whatever order
      and however often the members are listed. */
  lemma OrderDoesNotMatter(codec: Codec, s: Store, artifacts: seq<Artifact>, artifacts': seq<Artifact>)
    requires forall a :: a in artifacts <==> a in artifacts'
    requires CollisionFree(codec, artifacts) && TagsDisjoint(codec, artifacts)
    ensures Seeded(codec, s, artifacts) == Seeded(codec, s, artifacts')
  {
    SeedWritesConsistent(s.blobRoot, codec, artifacts);
    forall w ensures w in SeedWrites(codec, artifacts) <==> w in SeedWrites(codec, artifacts') {
      SeedWritesElements(codec, artifacts, w);
      SeedWritesElements(codec, artifacts', w);
    }
    ConsistentRunsAgree(WithFreshIndex(s), SeedWrites(codec, artifacts), SeedWrites(codec, artifacts'));
  }

  /******* The index and the blobs of a seeded store *******/

  /** The last artifact of the list that carries a tag key. */
  function Owner(artifacts: seq<Artifact>, key: Bytes): (a: Option<Artifact>)
    ensures a.None? <==> forall b :: b in artifacts ==> !IsTagKeyOf(b, key)
    ensures a.Some? ==> a.value in artifacts && IsTagKeyOf(a.value, key)
  {
    if artifacts == [] then None
    else
      var front, last := artifacts[..|artifacts| - 1], artifacts[|artifacts| - 1];
      assert artifacts == front + [last];
      if exists i :: 0 <= i < |last.tags| && TagKey(last.repo, last.tags[i]) == key then
        assert IsTagKeyOf(last, key);
        Some(last)
      else Owner(front, key)
  }

  ghost predicate CarriesLast(artifacts: seq<Artifact>, key: Bytes, a: Artifact, i: int) {
    && 0 <= i < |artifacts| && artifacts[i] == a && IsTagKeyOf(a, key)
    && forall j :: i < j < |artifacts| ==> !IsTagKeyOf(artifacts[j], key)
  }

  /** The owner of a key is the artifact that carries it after which no other does. */
  lemma {:induction false} OwnerIsLast(artifacts: seq<Artifact>, key: Bytes, a: Artifact)
    ensures Owner(artifacts, key) == Some(a) <==> exists i :: CarriesLast(artifacts, key, a, i)
  {
    if artifacts != [] {
      var n := |artifacts| - 1;
      var front, last := artifacts[..n], artifacts[n];
      OwnerIsLast(front, key, a);
      CarriesExactly(last, key);
      if IsTagKeyOf(last, key) {
        assert Owner(artifacts, key) == Some(last);
        assert CarriesLast(artifacts, key, last, n);
      } else {
        assert Owner(artifacts, key) == Owner(front, key);
        assert forall i :: CarriesLast(artifacts, key, a, i) <==> CarriesLast(front, key, a, i);
      }
    }
  }

  /** What it means to carry a key. */
  lemma CarriesExactly(a: Artifact, key: Bytes)
    ensures IsTagKeyOf(a, key) <==> exists tag :: tag in a.tags && a.repo + ":" + tag == key
    ensures IsTagKeyOf(a, key) <==> exists i :: 0 <= i < |a.tags| && TagKey(a.repo, a.tags[i]) == key
  {
    if tag :| tag in a.tags && a.repo + ":" + tag == key {
      assert TagKey(a.repo, tag) == key;
    }
  }

  lemma {:induction false} OwnedTag(root: FilePath, codec: Codec, artifacts: seq<Artifact>, key: Bytes)
    ensures LastAt(root, PopulateWrites(codec, artifacts), TagAt(key)) ==
            match Owner(artifacts, key) case None => None case Some(a) => Some(ManifestDigest(codec, a))
  {
    if artifacts != [] {
      var front, last := artifacts[..|artifacts| - 1], artifacts[|artifacts| - 1];
      OwnedTag(root, codec, front, key);
      var ws := ArtifactWrites(codec, last);
      LastAtConcat(root, PopulateWrites(codec, front), ws, TagAt(key));
      LastAtIsWritten(root, ws, TagAt(key));
      forall w | w in ws ensures Writes(codec, last, w) { ArtifactWritesElements(codec, last, w); }
      if IsTagKeyOf(last, key) {
        ArtifactWritesElements(codec, last, PutTag(key, ManifestDigest(codec, last)));
      }
    }
  }

  /** The tags after a run: a key some artifact carries leads to the manifest of the
      last artifact that does; any other key is as it was. */
  lemma RunTags(codec: Codec, s: Store, artifacts: seq<Artifact>, key: Bytes)
    ensures At(Run(s, SeedWrites(codec, artifacts)), TagAt(key)) ==
            match Owner(artifacts, key)
            case Some(a) => Some(ManifestDigest(codec, a))
            case None => At(s, TagAt(key))
  {
    OwnedTag(s.blobRoot, codec, artifacts, key);
    RunAt(s, SeedWrites(codec, artifacts), TagAt(key));
    LastAtConcat(s.blobRoot, [ConfigWrite(codec)], PopulateWrites(codec, artifacts), TagAt(key));
  }

  /** The tags of a freshly seeded index: those the artifacts carry and no others. */
  lemma {:induction false} SeededTags(codec: Codec, s: Store, artifacts: seq<Artifact>, key: Bytes)
    ensures key in Seeded(codec, s, artifacts).tags <==> Owner(artifacts, key).Some?
    ensures Owner(artifacts, key).Some? ==>
              Seeded(codec, s, artifacts).tags[key] == ManifestDigest(codec, Owner(artifacts, key).value)
  {
    RunTags(codec, WithFreshIndex(s), artifacts, key);
    assert At(WithFreshIndex(s), TagAt(key)) == None;
  }

  lemma ManifestIsWritten(codec: Codec, artifacts: seq<Artifact>, a: Artifact)
    requires a in artifacts
    ensures PutManifest(ManifestDigest(codec, a), ManifestBytes(codec, a)) in SeedWrites(codec, artifacts)
    ensures IsSeeded(codec, artifacts, ManifestBytes(codec, a))
  {
    var w := PutManifest(ManifestDigest(codec, a), ManifestBytes(codec, a));
    assert Writes(codec, a, w);
    SeedWritesElements(codec, artifacts, w);
  }

  lemma ManifestWriteIsOf(codec: Codec, artifacts: seq<Artifact>, w: Write) returns (a: Artifact)
    requires w in SeedWrites(codec, artifacts) && w.PutManifest?
    ensures a in artifacts && w == PutManifest(ManifestDigest(codec, a), ManifestBytes(codec, a))
  {
    SeedWritesElements(codec, artifacts, w);
    a :| a in artifacts && Writes(codec, a, w);
  }

  /** The manifests after a run: those of the artifacts, and those from before. */
  lemma RunManifests(codec: Codec, s: Store, artifacts: seq<Artifact>, digest: Bytes)
    ensures digest in Run(s, SeedWrites(codec, artifacts)).manifests <==>
            digest in s.manifests || exists a :: a in artifacts && ManifestDigest(codec, a) == digest
    ensures (exists a :: a in artifacts && ManifestDigest(codec, a) == digest) ==>
              LastAt(s.blobRoot, SeedWrites(codec, artifacts), ManifestAt(digest)).Some?
  {
    var root, ws, loc := s.blobRoot, SeedWrites(codec, artifacts), ManifestAt(digest);
    RunAt(s, ws, loc);
    LastAtIsWritten(root, ws, loc);
    if w :| w in ws && Target(root, w) == loc {
      var a := ManifestWriteIsOf(codec, artifacts, w);
    }
    forall a | a in artifacts && ManifestDigest(codec, a) == digest ensures LastAt(root, ws, loc).Some? {
      ManifestIsWritten(codec, artifacts, a);
      assert Target(root, PutManifest(digest, ManifestBytes(codec, a))) == loc;
    }
  }

  /** The manifests of a freshly seeded index: exactly those of the artifacts. */
  lemma SeededManifests(codec: Codec, s: Store, artifacts: seq<Artifact>, digest: Bytes)
    ensures digest in Seeded(codec, s, artifacts).manifests <==>
            exists a :: a in artifacts && ManifestDigest(codec, a) == digest
  {
    RunManifests(codec, WithFreshIndex(s), artifacts, digest);
  }

  /** Without collisions each is stored as it was encoded. */
  lemma SeededManifestBytes(codec: Codec, s: Store, artifacts: seq<Artifact>, a: Artifact)
    requires CollisionFree(codec, artifacts) && a in artifacts
    ensures var t, digest := Seeded(codec, s, artifacts), ManifestDigest(codec, a);
            digest in t.manifests && t.manifests[digest] == ManifestBytes(codec, a)
  {
    var root, ws, loc := s.blobRoot, SeedWrites(codec, artifacts), ManifestAt(ManifestDigest(codec, a));
    ManifestIsWritten(codec, artifacts, a);
    assert Target(root, PutManifest(ManifestDigest(codec, a), ManifestBytes(codec, a))) == loc;
    RunAt(WithFreshIndex(s), ws, loc);
    LastAtIsWritten(root, ws, loc);
    var w :| w in ws && Target(root, w) == loc && Payload(w) == LastAt(root, ws, loc).value;
    var b := ManifestWriteIsOf(codec, artifacts, w);
    ManifestIsWritten(codec, artifacts, b);
    SameFileIffSameSum(root, codec.sha, ManifestBytes(codec, a), ManifestBytes(codec, b));
  }

  /******* An index that could not be removed *******/

  /** Every old tag key is carried, and every old manifest encoded, by some artifact. */
  ghost predicate Supersedes(codec: Codec, artifacts: seq<Artifact>, s: Store) {
    && (forall key :: key in s.tags ==> Owner(artifacts, key).Some?)
    && (forall d :: d in s.manifests ==> exists a :: a in artifacts && ManifestDigest(codec, a) == d)
  }

  /** Laying the same entries over an old table and over none gives the same table
      exactly when all old keys are among the new. */
  lemma LaidOverExactly(stale: map<Bytes, Bytes>, clean: map<Bytes, Bytes>, old': map<Bytes, Bytes>)
    requires stale.Keys == clean.Keys + old'.Keys
    requires forall k :: k in clean ==> stale[k] == clean[k]
    ensures stale == clean <==> forall k :: k in old' ==> k in clean
  {
  }

  lemma StaleTags(codec: Codec, s: Store, artifacts: seq<Artifact>)
    ensures Run(s, SeedWrites(codec, artifacts)).tags == Seeded(codec, s, artifacts).tags <==>
            forall key :: key in s.tags ==> Owner(artifacts, key).Some?
  {
    var stale, clean := Run(s, SeedWrites(codec, artifacts)).tags, Seeded(codec, s, artifacts).tags;
    forall key
      ensures key in clean <==> Owner(artifacts, key).Some?
      ensures key in stale <==> key in clean || key in s.tags
      ensures key in clean ==> stale[key] == clean[key]
    {
      RunTags(codec, s, artifacts, key);
      SeededTags(codec, s, artifacts, key);
    }
    LaidOverExactly(stale, clean, s.tags);
  }

  lemma StaleManifest(codec: Codec, s: Store, artifacts: seq<Artifact>, d: Bytes)
    ensures var stale, clean := Run(s, SeedWrites(codec, artifacts)).manifests, Seeded(codec, s, artifacts).manifests;
            && (d in stale <==> d in clean || d in s.manifests)
            && (d in clean ==> stale[d] == clean[d])
  {
    var ws := SeedWrites(codec, artifacts);
    RunManifests(codec, s, artifacts, d);
    RunManifests(codec, WithFreshIndex(s), artifacts, d);
    RunAt(s, ws, ManifestAt(d));
    RunAt(WithFreshIndex(s), ws, ManifestAt(d));
  }

  lemma StaleManifests(codec: Codec, s: Store, artifacts: seq<Artifact>)
    ensures Run(s, SeedWrites(codec, artifacts)).manifests == Seeded(codec, s, artifacts).manifests <==>
            forall d :: d in s.manifests ==> exists a :: a in artifacts && ManifestDigest(codec, a) == d
  {
    var stale, clean := Run(s, SeedWrites(codec, artifacts)).manifests, Seeded(codec, s, artifacts).manifests;
    forall d
      ensures d in clean <==> exists a :: a in artifacts && ManifestDigest(codec, a) == d
      ensures d in stale <==> d in clean || d in s.manifests
      ensures d in clean ==> stale[d] == clean[d]
    {
      StaleManifest(codec, s, artifacts, d);
      SeededManifests(codec, s, artifacts, d);
    }
    LaidOverExactly(stale, clean, s.manifests);
  }

  /** An index file that could not be removed, which the program does not notice,
      ends up like a fresh one, tags and manifests, exactly when the artifacts
      supersede all that was in it. */
  lemma StaleIndexExactly(codec: Codec, s: Store, artifacts: seq<Artifact>)
    ensures Run(s, SeedWrites(codec, artifacts)) == Seeded(codec, s, artifacts) <==> Supersedes(codec, artifacts, s)
  {
    var ws := SeedWrites(codec, artifacts);
    var stale, clean := Run(s, ws), Seeded(codec, s, artifacts);
    StaleTags(codec, s, artifacts);
    StaleManifests(codec, s, artifacts);
    RunKeepsRoot(s, ws);
    RunKeepsRoot(WithFreshIndex(s), ws);
    assert stale.files == clean.files by {
      forall k ensures At(stale, BlobAt(k)) == At(clean, BlobAt(k)) {
        RunAt(s, ws, BlobAt(k));
        RunAt(WithFreshIndex(s), ws, BlobAt(k));
      }
      FilesEqual(stale, clean);
    }
  }

  lemma FilesEqual(s: Store, t: Store)
    requires forall k :: At(s, BlobAt(k)) == At(t, BlobAt(k))
    ensures s.files == t.files
  {
    forall k ensures k in s.files <==> k in t.files { assert At(s, BlobAt(k)) == At(t, BlobAt(k)); }
    forall k | k in s.files ensures s.files[k] == t.files[k] { assert At(s, BlobAt(k)) == At(t, BlobAt(k)); }
  }

  /******* The order of the artifacts *******/

  /** The i-th artifact moved to the end. */
  function MovedLast(artifacts: seq<Artifact>, i: nat): seq<Artifact>
    requires i < |artifacts|
  {
    artifacts[..i] + artifacts[i + 1..] + [artifacts[i]]
  }

  lemma MovedLastOwns(codec: Codec, s: Store, artifacts: seq<Artifact>, i: nat, key: Bytes)
    requires i < |artifacts| && IsTagKeyOf(artifacts[i], key)
    ensures multiset(MovedLast(artifacts, i)) == multiset(artifacts)
    ensures At(Seeded(codec, s, MovedLast(artifacts, i)), TagAt(key)) == Some(ManifestDigest(codec, artifacts[i]))
  {
    assert artifacts == artifacts[..i] + [artifacts[i]] + artifacts[i + 1..];
    var moved := MovedLast(artifacts, i);
    assert Owner(moved, key) == Some(artifacts[i]) by {
      var t :| t in artifacts[i].tags && TagKey(artifacts[i].repo, t) == key;
      var j :| 0 <= j < |artifacts[i].tags| && artifacts[i].tags[j] == t;
    }
    SeededTags(codec, s, moved, key);
  }

  ghost predicate AnyOrderSeedsTheSame(codec: Codec, s: Store, artifacts: seq<Artifact>) {
    forall artifacts' :: multiset(artifacts') == multiset(artifacts)
                         ==> Seeded(codec, s, artifacts') == Seeded(codec, s, artifacts)
  }

  /** Without collisions, the order of the artifacts makes no difference if and only
      if no tag key is claimed for two different manifests. */
  lemma OrderDoesNotMatterExactly(codec: Codec, s: Store, artifacts: seq<Artifact>)
    requires CollisionFree(codec, artifacts)
    ensures AnyOrderSeedsTheSame(codec, s, artifacts) <==> TagsDisjoint(codec, artifacts)
  {
    if TagsDisjoint(codec, artifacts) {
      forall artifacts' | multiset(artifacts') == multiset(artifacts)
        ensures Seeded(codec, s, artifacts') == Seeded(codec, s, artifacts)
      {
        assert forall a :: a in artifacts <==> a in multiset(artifacts);
        assert forall a :: a in artifacts' <==> a in multiset(artifacts');
        OrderDoesNotMatter(codec, s, artifacts, artifacts');
      }
    }
    if AnyOrderSeedsTheSame(codec, s, artifacts) {
      forall a, b, key | a in artifacts && b in artifacts && IsTagKeyOf(a, key) && IsTagKeyOf(b, key)
        ensures ManifestDigest(codec, a) == ManifestDigest(codec, b)
      {
        var i :| 0 <= i < |artifacts| && artifacts[i] == a;
        var j :| 0 <= j < |artifacts| && artifacts[j] == b;
        MovedLastOwns(codec, s, artifacts, i, key);
        MovedLastOwns(codec, s, artifacts, j, key);
      }
    }
  }

  /******* The blobs of a seeded store *******/

  /** Every byte string the run stored is found under its digest, unchanged. */
  lemma SeededBlobs(codec: Codec, s: Store, artifacts: seq<Artifact>, data: Bytes)
    requires CollisionFree(codec, artifacts) && IsSeeded(codec, artifacts, data)
    ensures var t, key := Seeded(codec, s, artifacts), WriteKey(s.blobRoot, DigestOf(codec.sha, data));
            && t.blobRoot == s.blobRoot
            && BlobPathIn(t, DigestOf(codec.sha, data)) == Success(key)
            && key in t.files && t.files[key] == data
  {
    var root, ws := s.blobRoot, SeedWrites(codec, artifacts);
    var loc := BlobAt(WriteKey(root, DigestOf(codec.sha, data)));
    RunKeepsRoot(WithFreshIndex(s), ws);
    RunAt(WithFreshIndex(s), ws, loc);
    BlobIsWritten(root, codec, artifacts, data);
    LastAtIsWritten(root, ws, loc);
    var w :| w in ws && Target(root, w) == loc && Payload(w) == LastAt(root, ws, loc).value;
    SeedWritesElements(codec, artifacts, w);
    SameFileIffSameSum(root, codec.sha, data, Payload(w));
    assert IsSeeded(codec, artifacts, Payload(w));
  }

  lemma BlobIsWritten(root: FilePath, codec: Codec, artifacts: seq<Artifact>, data: Bytes)
    requires IsSeeded(codec, artifacts, data)
    ensures var digest := DigestOf(codec.sha, data);
            && ReadKey(root, digest) == Some(WriteKey(root, digest))
            && LastAt(root, SeedWrites(codec, artifacts), BlobAt(WriteKey(root, digest))).Some?
  {
    var w := PutBlob(DigestOf(codec.sha, data), data);
    PrintedDigestParses(root, codec.sha, data);
    SeedWritesElements(codec, artifacts, w);
    LastAtIsWritten(root, SeedWrites(codec, artifacts), Target(root, w));
  }

  /** A digest that leads to the file of something the run stored: any spelling of
      the algorithm that arrives at the seeder's directory, and the printed hex. */
  ghost predicate NamesSeeded(root: FilePath, codec: Codec, artifacts: seq<Artifact>, digest: Bytes) {
    exists algo, data :: NamesSha256(root, algo) && IsSeeded(codec, artifacts, data)
                         && digest == algo + ":" + Hex(codec.sha(data))
  }

  lemma WrittenIsNamed(root: FilePath, codec: Codec, artifacts: seq<Artifact>, digest: Bytes)
    requires ReadKey(root, digest).Some?
    ensures LastAt(root, SeedWrites(codec, artifacts), BlobAt(ReadKey(root, digest).value)).Some? <==>
            NamesSeeded(root, codec, artifacts, digest)
  {
    var ws, loc := SeedWrites(codec, artifacts), BlobAt(ReadKey(root, digest).value);
    LastAtIsWritten(root, ws, loc);
    if w :| w in ws && Target(root, w) == loc {
      SeedWritesElements(codec, artifacts, w);
      assert IsSeeded(codec, artifacts, w.data);
      DigestsOfFileExactly(root, codec.sha, digest, w.data);
    }
    if algo, data :| NamesSha256(root, algo) && IsSeeded(codec, artifacts, data)
                     && digest == algo + ":" + Hex(codec.sha(data)) {
      DigestsOfFileExactly(root, codec.sha, digest, data);
      BlobIsWritten(root, codec, artifacts, data);
    }
  }

  /** Nothing else is found: a digest has a blob exactly when it leads to the file of
      something the run stored, or to a file that was there before. */
  lemma SeededBlobsOnly(codec: Codec, s: Store, artifacts: seq<Artifact>, digest: Bytes)
    ensures BlobPathIn(Seeded(codec, s, artifacts), digest).Success? <==>
            BlobPathIn(s, digest).Success? || NamesSeeded(s.blobRoot, codec, artifacts, digest)
  {
    var root, ws := s.blobRoot, SeedWrites(codec, artifacts);
    RunKeepsRoot(WithFreshIndex(s), ws);
    if ReadKey(root, digest).Some? {
      RunAt(WithFreshIndex(s), ws, BlobAt(ReadKey(root, digest).value));
      WrittenIsNamed(root, codec, artifacts, digest);
    } else {
      NamedIsReadable(root, codec, artifacts, digest);
    }
  }

  lemma NamedIsReadable(root: FilePath, codec: Codec, artifacts: seq<Artifact>, digest: Bytes)
    ensures NamesSeeded(root, codec, artifacts, digest) ==> ReadKey(root, digest).Some?
  {
    if algo, data :| NamesSha256(root, algo) && IsSeeded(codec, artifacts, data)
                     && digest == algo + ":" + Hex(codec.sha(data)) {
      DigestsOfFileExactly(root, codec.sha, digest, data);
    }
  }

  /** All byte strings the run stored can be read back unchanged if and only if no
      two different ones share a hash. */
  lemma BlobsIntactExactly(codec: Codec, s: Store, artifacts: seq<Artifact>)
    ensures (forall data :: IsSeeded(codec, artifacts, data) ==>
                            At(Seeded(codec, s, artifacts), BlobAt(WriteKey(s.blobRoot, DigestOf(codec.sha, data))))
                            == Some(data))
            <==> CollisionFree(codec, artifacts)
  {
    var t := Seeded(codec, s, artifacts);
    if CollisionFree(codec, artifacts) {
      forall data | IsSeeded(codec, artifacts, data)
        ensures At(t, BlobAt(WriteKey(s.blobRoot, DigestOf(codec.sha, data)))) == Some(data)
      {
        SeededBlobs(codec, s, artifacts, data);
      }
    }
  }

  /** Blob files of earlier runs are kept. */
  lemma SeedingKeepsBlobs(codec: Codec, s: Store, artifacts: seq<Artifact>)
    ensures s.files.Keys <= Seeded(codec, s, artifacts).files.Keys
    ensures BlobsAddressed(codec, s) && Decodes(codec, artifacts) ==> Closed(codec, Seeded(codec, s, artifacts))
  {
    var ws := SeedWrites(codec, artifacts);
    RunGrows(WithFreshIndex(s), ws);
    if BlobsAddressed(codec, s) && Decodes(codec, artifacts) {
      FreshIndexIsClosed(codec, s);
      ClosedAtEveryStep(codec, WithFreshIndex(s), artifacts, |ws|);
      assert ws[..|ws|] == ws;
    }
  }
}
