/** The path decoder of the registry (`internal/oci/routes.go`): which operation
    a path below `/v2` selects, and with which name, reference or digest. */
module Routing {
  import opened ByteStrings

  const TAGS_LIST: Bytes := "/tags/list"
  const MANIFESTS: Bytes := "/manifests/"
  const BLOBS: Bytes := "/blobs/"

  datatype Route =
    | HandshakeRoute
    | CatalogRoute
    | TagsRoute(name: Bytes)
    | ManifestRoute(name: Bytes, reference: Bytes)
    | BlobRoute(digest: Bytes)
    | NoRoute

  function Dispatch(p: Bytes): Route {
    if p == "/" || p == "" then HandshakeRoute
    else if p == "/_catalog" then CatalogRoute
    else if HasSuffix(p, TAGS_LIST) then
      var name := TrimSuffix(TrimPrefix(p, "/"), TAGS_LIST);
      if name == "" then NoRoute else TagsRoute(name)
    else
      var idx := LastIndex(p, MANIFESTS);
      if idx >= 0 then
        var name, reference := TrimPrefix(p[..idx], "/"), p[idx + |MANIFESTS|..];
        if name == "" || reference == "" then NoRoute else ManifestRoute(name, reference)
      else
        var idx := LastIndex(p, BLOBS);
        if idx >= 0 then
          var name, digest := TrimPrefix(p[..idx], "/"), p[idx + |BLOBS|..];
          if name == "" || digest == "" then NoRoute else BlobRoute(digest)
        else NoRoute
  }

  /******* The paths a client prints *******/

  function TagsPath(name: Bytes): Bytes { "/" + name + TAGS_LIST }

  function ManifestPath(name: Bytes, reference: Bytes): Bytes { "/" + name + MANIFESTS + reference }

  function BlobPath(name: Bytes, digest: Bytes): Bytes { "/" + name + BLOBS + digest }

  /** A reference whose own text cannot be taken for a later separator. */
  ghost predicate PlainReference(r: Bytes) {
    r != "" && !HasSuffix("/" + r, TAGS_LIST) && !Contains("/" + r, MANIFESTS)
  }

  /** A name none of whose path components hides a manifest separator. */
  ghost predicate PlainName(n: Bytes) {
    n != "" && !Contains("/" + n + "/", MANIFESTS)
  }

  /******* Separators do not overlap except in a slash *******/

  /** After a manifest separator in a path, a second one can start no earlier than
      at the closing slash of the first. */
  lemma ManifestsInTail(n: Bytes, r: Bytes, i: int)
    requires OccursAt(ManifestPath(n, r), MANIFESTS, i) && i > |n| + 1
    ensures OccursAt("/" + r, MANIFESTS, i - |n| - 11)
  {
    var p, t := ManifestPath(n, r), "/" + r;
    OccurrenceChar(p, MANIFESTS, i, 0);
    assert forall k :: |n| + 1 < k < |n| + 11 ==> p[k] == MANIFESTS[k - |n| - 1] != '/';
    assert p[|n| + 11..] == t;
    assert p[i..i + 11] == t[i - |n| - 11..i - |n|];
  }

  lemma ManifestsFromTail(n: Bytes, r: Bytes, j: int)
    requires OccursAt("/" + r, MANIFESTS, j)
    ensures OccursAt(ManifestPath(n, r), MANIFESTS, j + |n| + 11)
  {
    var p, t := ManifestPath(n, r), "/" + r;
    assert p[|n| + 11..] == t;
    assert p[j + |n| + 11..j + |n| + 22] == t[j..j + 11];
  }

  lemma LastManifests(n: Bytes, r: Bytes)
    ensures LastIndex(ManifestPath(n, r), MANIFESTS) == |n| + 1 <==> !Contains("/" + r, MANIFESTS)
  {
    var p := ManifestPath(n, r);
    assert p[|n| + 1..|n| + 12] == MANIFESTS;
    assert OccursAt(p, MANIFESTS, |n| + 1);
    var i := LastIndex(p, MANIFESTS);
    if i > |n| + 1 {
      ManifestsInTail(n, r, i);
    }
    if j :| OccursAt("/" + r, MANIFESTS, j) {
      ManifestsFromTail(n, r, j);
    }
  }

  lemma SuffixOfTail(front: Bytes, t: Bytes, suffix: Bytes)
    requires |t| >= |suffix|
    ensures HasSuffix(front + t, suffix) <==> HasSuffix(t, suffix)
  {
    var p := front + t;
    assert p[|p| - |suffix|..] == t[|t| - |suffix|..];
  }

  lemma SuffixOfManifestPath(n: Bytes, r: Bytes)
    requires r != ""
    ensures HasSuffix(ManifestPath(n, r), TAGS_LIST) <==> HasSuffix("/" + r, TAGS_LIST)
  {
    var p, t := ManifestPath(n, r), "/" + r;
    if |t| >= 10 {
      assert p == "/" + n + "/manifests" + t;
      SuffixOfTail("/" + n + "/manifests", t, TAGS_LIST);
    } else {
      // the suffix would start inside the separator, where no slash is
      assert p[|p| - 10..][0] == p[|p| - 10] == MANIFESTS[|p| - 10 - |n| - 1];
    }
  }

  /** Manifest requests, completely: a path selects (n, r) exactly when it is the
      printed path of a non-empty n and a plain reference r. */
  lemma ManifestRouteExactly(p: Bytes, n: Bytes, r: Bytes)
    requires "/" <= p
    ensures Dispatch(p) == ManifestRoute(n, r) <==>
            p == "/" + n + "/manifests/" + r && n != "" && PlainReference(r)
  {
    if Dispatch(p) == ManifestRoute(n, r) {
      var idx := LastIndex(p, MANIFESTS);
      assert p[idx..idx + 11] == MANIFESTS;
      assert p == p[..idx] + p[idx..idx + 11] + p[idx + 11..];
      assert p[..idx] == "/" + n;
      assert p == ManifestPath(n, r);
      LastManifests(n, r);
      SuffixOfManifestPath(n, r);
    }
    if p == ManifestPath(n, r) && n != "" && PlainReference(r) {
      LastManifests(n, r);
      SuffixOfManifestPath(n, r);
      assert p[..|n| + 1] == "/" + n;
      assert p[|n| + 12..] == r;
    }
  }

  /** Where `/manifests/` occurs in a blob path it lies wholly before or wholly
      after the word `blobs`. */
  lemma ManifestsInBlobPath(n: Bytes, d: Bytes)
    ensures Contains(BlobPath(n, d), MANIFESTS) <==>
            Contains("/" + n + "/", MANIFESTS) || Contains("/" + d, MANIFESTS)
  {
    var p, front, back := BlobPath(n, d), "/" + n + "/", "/" + d;
    assert p[..|n| + 2] == front && p[|n| + 7..] == back;
    forall i | OccursAt(p, MANIFESTS, i) ensures Contains(front, MANIFESTS) || Contains(back, MANIFESTS) {
      OccursAtChars(p, MANIFESTS, i);
      assert p[|n| + 1] == BLOBS[0] && p[|n| + 5] == BLOBS[4] && p[|n| + 7] == BLOBS[6];
      if i <= |n| - 9 {
        assert front[i..i + 11] == p[i..i + 11];
        assert OccursAt(front, MANIFESTS, i);
      } else {
        assert p[i + 10] == MANIFESTS[10] && p[i + 8] == MANIFESTS[8];
        assert forall k :: i < k < i + 10 ==> p[k] == MANIFESTS[k - i] != '/';
        assert i >= |n| + 7;
        assert back[i - |n| - 7..i - |n| + 4] == p[i..i + 11];
        assert OccursAt(back, MANIFESTS, i - |n| - 7);
      }
    }
    forall i | OccursAt(front, MANIFESTS, i) ensures OccursAt(p, MANIFESTS, i) {
      assert front[i..i + 11] == p[i..i + 11];
    }
    forall i | OccursAt(back, MANIFESTS, i) ensures OccursAt(p, MANIFESTS, i + |n| + 7) {
      assert back[i..i + 11] == p[i + |n| + 7..i + |n| + 18];
    }
  }

  lemma BlobsInTail(n: Bytes, d: Bytes, i: int)
    requires OccursAt(BlobPath(n, d), BLOBS, i) && i > |n| + 1
    ensures OccursAt("/" + d, BLOBS, i - |n| - 7)
  {
    var p, t := BlobPath(n, d), "/" + d;
    OccurrenceChar(p, BLOBS, i, 0);
    assert forall k :: |n| + 1 < k < |n| + 7 ==> p[k] == BLOBS[k - |n| - 1] != '/';
    assert p[|n| + 7..] == t;
    assert p[i..i + 7] == t[i - |n| - 7..i - |n|];
  }

  lemma BlobsFromTail(n: Bytes, d: Bytes, j: int)
    requires OccursAt("/" + d, BLOBS, j)
    ensures OccursAt(BlobPath(n, d), BLOBS, j + |n| + 7)
  {
    var p, t := BlobPath(n, d), "/" + d;
    assert p[|n| + 7..] == t;
    assert p[j + |n| + 7..j + |n| + 14] == t[j..j + 7];
  }

  lemma LastBlobs(n: Bytes, d: Bytes)
    ensures LastIndex(BlobPath(n, d), BLOBS) == |n| + 1 <==> !Contains("/" + d, BLOBS)
  {
    var p := BlobPath(n, d);
    assert p[|n| + 1..|n| + 8] == BLOBS;
    assert OccursAt(p, BLOBS, |n| + 1);
    var i := LastIndex(p, BLOBS);
    if i > |n| + 1 {
      BlobsInTail(n, d, i);
    }
    if j :| OccursAt("/" + d, BLOBS, j) {
      BlobsFromTail(n, d, j);
    }
  }

  lemma SuffixOfBlobPath(n: Bytes, d: Bytes)
    requires d != ""
    ensures HasSuffix(BlobPath(n, d), TAGS_LIST) <==> HasSuffix("/" + d, TAGS_LIST)
  {
    var p, t := BlobPath(n, d), "/" + d;
    if |t| >= 10 {
      assert p == "/" + n + "/blobs" + t;
      SuffixOfTail("/" + n + "/blobs", t, TAGS_LIST);
    } else if |p| >= 10 {
      // the suffix would start in the separator or just before, where `/ta` is not
      var q := p[|p| - 10..];
      assert q[0] == p[|p| - 10] && q[1] == p[|p| - 9] && q[2] == p[|p| - 8];
      assert forall k :: |n| < k < |n| + 8 ==> p[k] == BLOBS[k - |n| - 1];
    }
  }

  /** What a digest must look like for its blob path to be read back as that digest. */
  ghost predicate PlainDigest(d: Bytes) {
    PlainReference(d) && !Contains("/" + d, BLOBS)
  }

  /** Blob requests, completely: a path selects the blob d exactly when it is the
      printed blob path of d under some plain name. */
  lemma BlobRouteExactly(p: Bytes, d: Bytes)
    requires "/" <= p
    ensures Dispatch(p) == BlobRoute(d) <==>
            PlainDigest(d) && exists n :: PlainName(n) && p == "/" + n + "/blobs/" + d
  {
    if Dispatch(p) == BlobRoute(d) {
      var idx := LastIndex(p, BLOBS);
      var n := TrimPrefix(p[..idx], "/");
      assert p[idx..idx + 7] == BLOBS;
      assert p == p[..idx] + p[idx..idx + 7] + p[idx + 7..];
      assert p[..idx] == "/" + n;
      assert p == BlobPath(n, d);
      BlobRouteRoundTrip(n, d);
    }
    if PlainDigest(d) && exists n :: PlainName(n) && p == BlobPath(n, d) {
      var n :| PlainName(n) && p == BlobPath(n, d);
      BlobRouteRoundTrip(n, d);
    }
  }

  lemma BlobRouteRoundTrip(n: Bytes, d: Bytes)
    requires n != "" && d != ""
    ensures Dispatch("/" + n + "/blobs/" + d) == BlobRoute(d) <==> PlainName(n) && PlainDigest(d)
  {
    var p := BlobPath(n, d);
    ManifestsInBlobPath(n, d);
    LastBlobs(n, d);
    SuffixOfBlobPath(n, d);
    assert p[..|n| + 1] == "/" + n;
    assert p[|n| + 8..] == d;
    assert LastIndex(p, MANIFESTS) >= 0 <==> Contains(p, MANIFESTS);
    var idx := LastIndex(p, BLOBS);
    if Dispatch(p) == BlobRoute(d) {
      assert |p| == idx + 7 + |d|;
    }
  }

  /** A name with a path component `manifests` shadows its own blobs: whatever
      the digest, the blob path is decoded as a manifest request or not at all. */
  lemma ShadowedBlobs(n: Bytes, d: Bytes)
    requires n != "" && Contains("/" + n + "/", MANIFESTS) && !HasSuffix("/" + d, TAGS_LIST) && d != ""
    ensures Dispatch(BlobPath(n, d)).ManifestRoute? || Dispatch(BlobPath(n, d)).NoRoute?
  {
    ManifestsInBlobPath(n, d);
    SuffixOfBlobPath(n, d);
    var i :| OccursAt(BlobPath(n, d), MANIFESTS, i);
  }

  /** Tag requests, completely. The one path that is no printed tags path is
      `/tags/list`, which is taken for the name `tags/list`. */
  lemma TagsRouteExactly(p: Bytes, n: Bytes)
    requires "/" <= p
    ensures Dispatch(p) == TagsRoute(n) <==>
            (n != "" && p == "/" + n + "/tags/list") || (n == "tags/list" && p == "/tags/list")
  {
    TagsRouteSound(p, n);
    if n != "" {
      TagsRouteRoundTrip(n);
    }
  }

  lemma TagsRouteSound(p: Bytes, n: Bytes)
    requires "/" <= p
    ensures Dispatch(p) == TagsRoute(n) ==> (n != "" && p == TagsPath(n)) || (n == "tags/list" && p == TAGS_LIST)
  {
    var name := p[1..];
    assert p == "/" + name;
    if |name| >= 10 {
      SuffixOfTail("/", name, TAGS_LIST);
      if HasSuffix(name, TAGS_LIST) {
        assert name == name[..|name| - 10] + TAGS_LIST;
        assert p == "/" + name[..|name| - 10] + TAGS_LIST;
      }
    } else if HasSuffix(p, TAGS_LIST) {
      assert |p| == 10 && p[0..] == p;
      assert name == "tags/list";
    }
  }

  lemma TagsRouteRoundTrip(n: Bytes)
    requires n != ""
    ensures Dispatch(TagsPath(n)) == TagsRoute(n)
  {
    var p, name := TagsPath(n), n + TAGS_LIST;
    assert p[1..] == name;
    assert p[|p| - 10..] == TAGS_LIST && name[|n|..] == TAGS_LIST && name[..|n|] == n;
    assert |p| > |"/_catalog"|;
  }

  /******* All paths, character by character *******/

  /** What `Plain…` means for references, names and digests. */
  lemma PlainExactly(s: Bytes)
    ensures PlainReference(s) <==>
            && s != "" && !(exists a: Bytes :: "/" + s == a + "/tags/list")
            && !(exists a, b :: IsCut("/" + s, a, "/manifests/", b))
    ensures PlainName(s) <==>
            s != "" && !(exists a, b :: IsCut("/" + s + "/", a, "/manifests/", b))
    ensures PlainDigest(s) <==>
            PlainReference(s) && !(exists a, b :: IsCut("/" + s, a, "/blobs/", b))
  {
    SuffixExactly("/" + s, "/tags/list");
    ContainsExactly("/" + s, "/manifests/");
    ContainsExactly("/" + s + "/", "/manifests/");
    ContainsExactly("/" + s, "/blobs/");
  }

  /** Every path and the one request it selects. */
  lemma DispatchExactly(p: Bytes)
    requires "/" <= p
    ensures Dispatch(p) == HandshakeRoute <==> p == "/"
    ensures Dispatch(p) == CatalogRoute <==> p == "/_catalog"
    ensures forall n :: Dispatch(p) == TagsRoute(n) <==>
                        (n != "" && p == "/" + n + "/tags/list") || (n == "tags/list" && p == "/tags/list")
    ensures forall n, r :: Dispatch(p) == ManifestRoute(n, r) <==>
                           p == "/" + n + "/manifests/" + r && n != "" && PlainReference(r)
    ensures forall d :: Dispatch(p) == BlobRoute(d) <==>
                        PlainDigest(d) && exists n :: PlainName(n) && p == "/" + n + "/blobs/" + d
  {
    forall n ensures Dispatch(p) == TagsRoute(n) <==>
                     (n != "" && p == "/" + n + "/tags/list") || (n == "tags/list" && p == "/tags/list")
    {
      TagsRouteExactly(p, n);
    }
    forall n, r ensures Dispatch(p) == ManifestRoute(n, r) <==>
                        p == "/" + n + "/manifests/" + r && n != "" && PlainReference(r)
    {
      ManifestRouteExactly(p, n, r);
    }
    forall d ensures Dispatch(p) == BlobRoute(d) <==>
                     PlainDigest(d) && exists n :: PlainName(n) && p == "/" + n + "/blobs/" + d
    {
      BlobRouteExactly(p, d);
    }
  }
}
