/** What the two listings of the registry mean, as functions of the sorted keys
    of the tags bucket, and how the two agree with each other and the index. */
module Listings {
  import opened Wrappers
  import opened ByteStrings

  /******* Meaning *******/

  /** The key under which a tag of a repository is stored. */
  function TagKey(repo: Bytes, tag: Bytes): Bytes {
    repo + ":" + tag
  }

  /** Among all keys, the tags of those that start with `repo:`, in key order. */
  function TagsOf(keys: seq<Bytes>, repo: Bytes): seq<Bytes> {
    if keys == [] then []
    else
      var tags, k := TagsOf(keys[..|keys| - 1], repo), keys[|keys| - 1];
      if repo + ":" <= k then tags + [k[|repo| + 1..]] else tags
  }

  /** The repository part of a key: what stands before its last colon. */
  function RepoOf(key: Bytes): Option<Bytes> {
    var i := LastIndex(key, ":");
    if i < 0 then None else Some(key[..i])
  }

  /** The repositories of all keys, each where it first occurs. */
  function ReposOf(keys: seq<Bytes>): seq<Bytes> {
    if keys == [] then []
    else AddRepo(ReposOf(keys[..|keys| - 1]), RepoOf(keys[|keys| - 1]))
  }

  function AddRepo(repos: seq<Bytes>, repo: Option<Bytes>): seq<Bytes> {
    if repo.None? || repo.value in repos then repos else repos + [repo.value]
  }

  /** The keys that carry a tag. */
  function ColonKeys(keys: seq<Bytes>): seq<Bytes> {
    if keys == [] then []
    else
      var ks, k := ColonKeys(keys[..|keys| - 1]), keys[|keys| - 1];
      if ':' in k then ks + [k] else ks
  }

  /** No key holds two colons: neither repositories nor tags contain one. */
  ghost predicate SingleColon(keys: seq<Bytes>) {
    forall k, i, j :: k in keys && 0 <= i < |k| && 0 <= j < |k| && k[i] == ':' && k[j] == ':' ==> i == j
  }

  /******* Tag listings *******/

  lemma {:induction false} TagsOfElements(keys: seq<Bytes>, repo: Bytes, tag: Bytes)
    ensures tag in TagsOf(keys, repo) <==> TagKey(repo, tag) in keys
  {
    if keys != [] {
      var front, k := keys[..|keys| - 1], keys[|keys| - 1];
      TagsOfElements(front, repo, tag);
      assert keys == front + [k];
      if repo + ":" <= k {
        assert k == repo + ":" + k[|repo| + 1..];
        assert TagKey(repo, tag)[|repo| + 1..] == tag;
      }
    }
  }

  lemma {:induction false} TagsOfSorted(keys: seq<Bytes>, repo: Bytes)
    requires StrictlySorted(keys)
    ensures StrictlySorted(TagsOf(keys, repo))
  {
    if keys != [] {
      var front, k := keys[..|keys| - 1], keys[|keys| - 1];
      TagsOfSorted(front, repo);
      if repo + ":" <= k {
        var tags, t := TagsOf(front, repo), k[|repo| + 1..];
        assert k == repo + ":" + t;
        forall i | 0 <= i < |tags| ensures Less(tags[i], t) {
          TagsOfElements(front, repo, tags[i]);
          LessCommonPrefix(repo + ":", tags[i], t);
        }
      }
    }
  }

  /** Keys without the prefix contribute nothing. */
  lemma {:induction false} TagsOfStopsAt(keys: seq<Bytes>, repo: Bytes, n: nat)
    requires n <= |keys|
    requires forall i :: n <= i < |keys| ==> !(repo + ":" <= keys[i])
    ensures TagsOf(keys, repo) == TagsOf(keys[..n], repo)
  {
    if n < |keys| {
      TagsOfStopsAt(keys[..|keys| - 1], repo, n);
      assert keys[..|keys| - 1][..n] == keys[..n];
    } else {
      assert keys[..n] == keys;
    }
  }

  /******* Repository listings *******/

  lemma LastColon(key: Bytes)
    ensures RepoOf(key).None? <==> ':' !in key
    ensures RepoOf(key).Some? ==>
              var r := RepoOf(key).value;
              && |r| < |key| && key[|r|] == ':' && ':' !in key[|r| + 1..]
              && key == TagKey(r, key[|r| + 1..])
  {
    var i := LastIndex(key, ":");
    forall j | 0 <= j < |key| && key[j] == ':' ensures j <= i {
      assert OccursAt(key, ":", j);
    }
    if i >= 0 {
      assert key[i..i + 1][0] == ':';
      assert key == key[..i] + key[i..i + 1] + key[i + 1..];
    }
  }

  /** The repositories of an index, once each. */
  lemma {:induction false} ReposOfElements(keys: seq<Bytes>)
    ensures forall r :: r in ReposOf(keys) <==> exists k :: k in keys && RepoOf(k) == Some(r)
    ensures forall i, j :: 0 <= i < j < |ReposOf(keys)| ==> ReposOf(keys)[i] != ReposOf(keys)[j]
  {
    if keys != [] {
      var front, k := keys[..|keys| - 1], keys[|keys| - 1];
      ReposOfElements(front);
      assert keys == front + [k];
      forall r ensures r in ReposOf(keys) <==> exists k' :: k' in keys && RepoOf(k') == Some(r) {
        if r in ReposOf(keys) && r !in ReposOf(front) {
          assert RepoOf(k) == Some(r) && k in keys;
        }
      }
    }
  }

  lemma RepoOfExactly(key: Bytes, r: Bytes)
    ensures RepoOf(key) == Some(r) <==> exists tag: Bytes :: ':' !in tag && key == r + ":" + tag
  {
    LastColon(key);
    if RepoOf(key) == Some(r) {
      assert key == r + ":" + key[|r| + 1..];
    }
    if tag: Bytes :| ':' !in tag && key == r + ":" + tag {
      RepoOfTagKey(r, tag);
    }
  }

  /** The catalog, read off the keys: a name is listed exactly if some key is the name,
      a colon and a colon-free tag. */
  lemma ListedExactly(keys: seq<Bytes>, r: Bytes)
    ensures r in ReposOf(keys) <==> exists tag: Bytes :: ':' !in tag && r + ":" + tag in keys
  {
    ReposOfElements(keys);
    if r in ReposOf(keys) {
      var k :| k in keys && RepoOf(k) == Some(r);
      RepoOfExactly(k, r);
    }
    if tag: Bytes :| ':' !in tag && r + ":" + tag in keys {
      RepoOfExactly(r + ":" + tag, r);
    }
  }

  /** Some key of `r` comes before all keys of `r'`. */
  ghost predicate StartsEarlier(keys: seq<Bytes>, r: Bytes, r': Bytes) {
    exists k :: k in keys && RepoOf(k) == Some(r)
                && forall k' :: k' in keys && RepoOf(k') == Some(r') ==> Less(k, k')
  }

  /** Repositories are listed in the order of their first keys, whatever the keys
      look like. */
  lemma {:induction false} ReposInKeyOrder(keys: seq<Bytes>)
    requires StrictlySorted(keys)
    ensures forall i, j :: 0 <= i < j < |ReposOf(keys)| ==> StartsEarlier(keys, ReposOf(keys)[i], ReposOf(keys)[j])
  {
    if keys != [] {
      var front, k := keys[..|keys| - 1], keys[|keys| - 1];
      ReposInKeyOrder(front);
      ReposOfElements(front);
      assert keys == front + [k];
      var repos := ReposOf(front);
      forall i, j | 0 <= i < j < |ReposOf(keys)|
        ensures StartsEarlier(keys, ReposOf(keys)[i], ReposOf(keys)[j])
      {
        var r, r' := ReposOf(keys)[i], ReposOf(keys)[j];
        assert r == repos[i] && r in repos;
        var first: Bytes;
        if j < |repos| {
          assert StartsEarlier(front, r, r');
          first :| first in front && RepoOf(first) == Some(r)
                   && forall k' :: k' in front && RepoOf(k') == Some(r') ==> Less(first, k');
        } else {
          first :| first in front && RepoOf(first) == Some(r);
        }
        assert Less(first, k);
        assert first in keys;
      }
    }
  }

  /** Every listed repository has tags to list, whatever the keys look like. */
  lemma ListedHasTags(keys: seq<Bytes>, repo: Bytes)
    requires repo in ReposOf(keys)
    ensures TagsOf(keys, repo) != []
  {
    ReposOfElements(keys);
    var k :| k in keys && RepoOf(k) == Some(repo);
    LastColon(k);
    TagsOfElements(keys, repo, k[|repo| + 1..]);
  }

  lemma ColonEndsPrefix(r: Bytes, r': Bytes)
    requires ':' !in r' && r != r'
    ensures !(r + ":" <= r' + ":")
  {
    var a, b := r + ":", r' + ":";
    assert a[..|r|] == r && b[..|r'|] == r' && a[|r|] == ':';
    assert |r| < |r'| ==> b[|r|] == r'[|r|] != ':';
  }

  /** Keys of two different colon-free repositories are ordered like the
      repositories, each taken with its colon. */
  lemma RepoDecidesOrder(r: Bytes, t: Bytes, r': Bytes, t': Bytes)
    requires ':' !in r && ':' !in r' && r != r'
    ensures Less(TagKey(r, t), TagKey(r', t')) <==> Less(r + ":", r' + ":")
  {
    ColonEndsPrefix(r, r');
    ColonEndsPrefix(r', r);
    LessDecidedEarly(r + ":", t, r' + ":", t');
  }

  lemma RepoIsColonFree(keys: seq<Bytes>, k: Bytes)
    requires SingleColon(keys) && k in keys && RepoOf(k).Some?
    ensures ':' !in RepoOf(k).value
  {
    LastColon(k);
    var r := RepoOf(k).value;
    forall i | 0 <= i < |r| ensures r[i] != ':' {
      assert r[i] == k[i] && k[|r|] == ':';
    }
  }

  ghost predicate InColonOrder(repos: seq<Bytes>) {
    forall i, j :: 0 <= i < j < |repos| ==> Less(repos[i] + ":", repos[j] + ":")
  }

  /** Earlier keys have repositories that are the same or earlier. */
  lemma RepoOrderOfKeys(keys: seq<Bytes>, k: Bytes, k': Bytes)
    requires SingleColon(keys) && k in keys && k' in keys && Less(k, k')
    requires RepoOf(k).Some? && RepoOf(k').Some? && RepoOf(k) != RepoOf(k')
    ensures Less(RepoOf(k).value + ":", RepoOf(k').value + ":")
  {
    LastColon(k);
    LastColon(k');
    RepoIsColonFree(keys, k);
    RepoIsColonFree(keys, k');
    var r, r' := RepoOf(k).value, RepoOf(k').value;
    RepoDecidesOrder(r, k[|r| + 1..], r', k'[|r'| + 1..]);
  }

  lemma SingleColonFront(keys: seq<Bytes>)
    requires SingleColon(keys) && keys != []
    ensures SingleColon(keys[..|keys| - 1])
  {
  }

  /** Without stray colons the repositories come out strictly increasing when each
      is read with its colon. */
  lemma {:induction false} ReposInColonOrder(keys: seq<Bytes>)
    requires StrictlySorted(keys) && SingleColon(keys)
    ensures InColonOrder(ReposOf(keys))
  {
    if keys != [] {
      var front, k := keys[..|keys| - 1], keys[|keys| - 1];
      SingleColonFront(keys);
      ReposInColonOrder(front);
      ReposOfElements(front);
      var repos := ReposOf(front);
      if RepoOf(k).Some? && RepoOf(k).value !in repos {
        forall i | 0 <= i < |repos| ensures Less(repos[i] + ":", RepoOf(k).value + ":") {
          assert repos[i] in repos;
          var k' :| k' in front && RepoOf(k') == Some(repos[i]);
          RepoOrderOfKeys(keys, k', k);
        }
      }
    }
  }

  lemma ColonFreeRestIsShort(r: Bytes, rest: Bytes, repo: Bytes, tag: Bytes)
    requires TagKey(r, rest) == TagKey(repo, tag) && ':' !in rest
    ensures |r| >= |repo|
  {
    var key := TagKey(r, rest);
    assert key[|repo|] == TagKey(repo, tag)[|repo|] == ':';
    assert forall n :: |r| < n < |key| ==> key[n] == rest[n - |r| - 1] && key[n] in rest;
  }

  lemma RepoOfTagKey(repo: Bytes, tag: Bytes)
    requires ':' !in tag
    ensures RepoOf(TagKey(repo, tag)) == Some(repo)
  {
    var key := TagKey(repo, tag);
    assert key[|repo|] == ':' && ':' in key;
    LastColon(key);
    var r := RepoOf(key).value;
    ColonFreeRestIsShort(r, key[|r| + 1..], repo, tag);
    ColonFreeRestIsShort(repo, tag, r, key[|r| + 1..]);
    assert key[..|repo|] == repo;
  }

  /** Two different colon-free names are ordered alike with and without their colons,
      unless one extends the other with a character below the colon. */
  lemma ColonOrderVersusPlain(r: Bytes, r': Bytes)
    requires ':' !in r && ':' !in r' && Less(r + ":", r' + ":")
    ensures Less(r, r') <==> !(r' < r)
    ensures r < r' ==> ':' < r'[|r|]
    ensures r' < r ==> r[|r'|] < ':'
  {
    LessIrreflexive(r + ":");
    assert r != r';
    if r < r' {
      ExtensionOrder(r, r');
    } else if r' < r {
      ExtensionOrder(r', r);
      PrefixNotAfter(r', r);
      if Less(r', r) { LessAsymmetric(r', r); }
      LessAsymmetric(r + ":", r' + ":");
    } else {
      LessDecidedEarly(r, ":", r', ":");
    }
  }

  /** An extension of a name comes after it; with colons it does so exactly when it
      goes on with a character above the colon. */
  lemma ExtensionOrder(r: Bytes, r': Bytes)
    requires r < r' && r'[|r|] != ':'
    ensures Less(r, r')
    ensures Less(r + ":", r' + ":") <==> ':' < r'[|r|]
    ensures Less(r' + ":", r + ":") <==> r'[|r|] < ':'
  {
    var rest := r'[|r|..];
    assert r' == r + rest && r' + ":" == r + (rest + ":") && r + [] == r;
    LessCommonPrefix(r, [], rest);
    LessCommonPrefix(r, ":", rest + ":");
    LessCommonPrefix(r, rest + ":", ":");
  }

  /** Wherever one listed name extends another, it goes on above the colon. */
  ghost predicate ExtendsAboveColon(repos: seq<Bytes>) {
    forall r, r' :: r in repos && r' in repos && r < r' ==> ':' < r'[|r|]
  }

  /** The repositories come out in plain order exactly when no listed name extends
      another with a character below the colon, such as `/`, `-`, `.` or a digit. */
  lemma PlainOrderExactly(keys: seq<Bytes>)
    requires StrictlySorted(keys) && SingleColon(keys)
    ensures StrictlySorted(ReposOf(keys)) <==> ExtendsAboveColon(ReposOf(keys))
  {
    var repos := ReposOf(keys);
    ReposInColonOrder(keys);
    ReposOfElements(keys);
    forall r | r in repos ensures ':' !in r {
      var k :| k in keys && RepoOf(k) == Some(r);
      RepoIsColonFree(keys, k);
    }
    forall i, j | 0 <= i < j < |repos|
      ensures Less(repos[i], repos[j]) <==> !(repos[j] < repos[i])
      ensures repos[i] < repos[j] ==> ':' < repos[j][|repos[i]|]
      ensures repos[j] < repos[i] ==> repos[i][|repos[j]|] < ':'
    {
      assert repos[i] in repos && repos[j] in repos;
      ColonOrderVersusPlain(repos[i], repos[j]);
    }
    PlainOrderOfPairs(repos);
  }

  lemma PlainOrderOfPairs(repos: seq<Bytes>)
    requires forall i, j :: 0 <= i < j < |repos| ==> (Less(repos[i], repos[j]) <==> !(repos[j] < repos[i]))
    requires forall i, j :: 0 <= i < j < |repos| && repos[i] < repos[j] ==> ':' < repos[j][|repos[i]|]
    requires forall i, j :: 0 <= i < j < |repos| && repos[j] < repos[i] ==> repos[i][|repos[j]|] < ':'
    ensures StrictlySorted(repos) <==> ExtendsAboveColon(repos)
  {
    if ExtendsAboveColon(repos) {
      forall i, j | 0 <= i < j < |repos| ensures Less(repos[i], repos[j]) {
        assert repos[i] in repos && repos[j] in repos;
      }
    }
    if StrictlySorted(repos) {
      forall r, r' | r in repos && r' in repos && r < r' ensures ':' < r'[|r|] {
        var i :| 0 <= i < |repos| && repos[i] == r;
        var j :| 0 <= j < |repos| && repos[j] == r';
      }
    }
  }

  /** Any name and an extension of it below the colon make an index for which it
      fails: the extension is listed first. */
  lemma LowExtensionIsListedFirst(r: Bytes, rest: Bytes, tag: Bytes)
    requires ':' !in r && ':' !in rest && ':' !in tag && rest != "" && rest[0] < ':'
    ensures var keys := [TagKey(r + rest, tag), TagKey(r, tag)];
            StrictlySorted(keys) && ReposOf(keys) == [r + rest, r] && !StrictlySorted([r + rest, r])
  {
    var long := r + rest;
    assert r < long && long[|r|] == rest[0];
    ExtensionOrder(r, long);
    RepoDecidesOrder(long, tag, r, tag);
    RepoOfTagKey(long, tag);
    RepoOfTagKey(r, tag);
    var keys := [TagKey(long, tag), TagKey(r, tag)];
    assert keys[..1] == [keys[0]] && [keys[0]][..0] == [];
    assert ReposOf([keys[0]]) == [long];
    LessAsymmetric(r, long);
    assert [long, r][0] == long && [long, r][1] == r;
  }

  /** So `policies/cis` is listed before `policies`. */
  lemma ColonOrderIsNotPlainOrder()
    ensures ReposOf([TagKey("policies" + "/cis", "v1"), TagKey("policies", "v1")]) == ["policies" + "/cis", "policies"]
  {
    LowExtensionIsListedFirst("policies", "/cis", "v1");
  }

  /** Dropping a repository only when it repeats the one just before it. */
  function AdjacentReposOf(keys: seq<Bytes>): seq<Bytes> {
    if keys == [] then []
    else
      var repos, repo := AdjacentReposOf(keys[..|keys| - 1]), RepoOf(keys[|keys| - 1]);
      if repo.None? || (repos != [] && repos[|repos| - 1] == repo.value) then repos else repos + [repo.value]
  }

  /** The repository of a later key is among those seen only if it is the last of them. */
  lemma SeenMeansLast(keys: seq<Bytes>, k: Bytes)
    requires StrictlySorted(keys + [k]) && SingleColon(keys + [k]) && RepoOf(k).Some? && ReposOf(keys) != []
    requires SingleColon(keys) && StrictlySorted(keys)
    ensures var repos := ReposOf(keys);
            RepoOf(k).value in repos <==> repos[|repos| - 1] == RepoOf(k).value
  {
    var repos, r := ReposOf(keys), RepoOf(k).value;
    var last := repos[|repos| - 1];
    ReposInColonOrder(keys);
    ReposOfElements(keys);
    assert last in repos;
    var k' :| k' in keys && RepoOf(k') == Some(last);
    var n :| 0 <= n < |keys| && keys[n] == k';
    assert (keys + [k])[n] == k' && (keys + [k])[|keys|] == k;
    if r != last {
      RepoOrderOfKeys(keys + [k], k', k);
      forall i | 0 <= i < |repos| - 1 ensures repos[i] != r {
        LessAsymmetric(repos[i] + ":", last + ":");
      }
    }
  }

  /** Without stray colons the keys of one repository are neighbours, so that
      remembering every repository seen is as good as remembering the last one. */
  lemma {:induction false} SeenSetIsAdjacentDedupe(keys: seq<Bytes>)
    requires StrictlySorted(keys) && SingleColon(keys)
    ensures ReposOf(keys) == AdjacentReposOf(keys)
  {
    if keys != [] {
      var front, k := keys[..|keys| - 1], keys[|keys| - 1];
      SingleColonFront(keys);
      SeenSetIsAdjacentDedupe(front);
      if RepoOf(k).Some? && ReposOf(front) != [] {
        assert front + [k] == keys;
        SeenMeansLast(front, k);
      }
    }
  }

  /******* The two listings together *******/

  /** A repository's tags turned back into keys. */
  function Rejoin(repo: Bytes, tags: seq<Bytes>): (ks: seq<Bytes>)
    ensures |ks| == |tags| && forall i :: 0 <= i < |ks| ==> ks[i] == TagKey(repo, tags[i])
  {
    seq(|tags|, i requires 0 <= i < |tags| => TagKey(repo, tags[i]))
  }

  /** All tag listings of the given repositories, turned back into keys. */
  function Rejoined(keys: seq<Bytes>, repos: seq<Bytes>): seq<Bytes> {
    if repos == [] then []
    else Rejoined(keys, repos[..|repos| - 1]) + Rejoin(repos[|repos| - 1], TagsOf(keys, repos[|repos| - 1]))
  }

  lemma RejoinElements(keys: seq<Bytes>, repo: Bytes, k: Bytes)
    ensures k in Rejoin(repo, TagsOf(keys, repo)) <==> k in keys && repo + ":" <= k
  {
    var ks, tags := Rejoin(repo, TagsOf(keys, repo)), TagsOf(keys, repo);
    if k in ks {
      var i :| 0 <= i < |ks| && ks[i] == k;
      TagsOfElements(keys, repo, tags[i]);
    }
    if k in keys && repo + ":" <= k {
      var t := k[|repo| + 1..];
      assert k == TagKey(repo, t);
      TagsOfElements(keys, repo, t);
      var i :| 0 <= i < |tags| && tags[i] == t;
      assert ks[i] == k;
    }
  }

  lemma {:induction false} RejoinedElements(keys: seq<Bytes>, repos: seq<Bytes>, k: Bytes)
    ensures k in Rejoined(keys, repos) <==> k in keys && exists r :: r in repos && r + ":" <= k
  {
    if repos != [] {
      var front, r := repos[..|repos| - 1], repos[|repos| - 1];
      RejoinedElements(keys, front, k);
      RejoinElements(keys, r, k);
      assert repos == front + [r];
    }
  }

  lemma RejoinSorted(keys: seq<Bytes>, repo: Bytes)
    requires StrictlySorted(keys)
    ensures StrictlySorted(Rejoin(repo, TagsOf(keys, repo)))
  {
    var ks, tags := Rejoin(repo, TagsOf(keys, repo)), TagsOf(keys, repo);
    TagsOfSorted(keys, repo);
    forall i, j | 0 <= i < j < |ks| ensures Less(ks[i], ks[j]) {
      LessCommonPrefix(repo + ":", tags[i], tags[j]);
    }
  }

  lemma BlocksInOrder(r: Bytes, x: Bytes, r': Bytes, y: Bytes)
    requires ':' !in r && ':' !in r' && Less(r + ":", r' + ":") && r + ":" <= x && r' + ":" <= y
    ensures Less(x, y)
  {
    LessIrreflexive(r + ":");
    assert x == TagKey(r, x[|r| + 1..]) && y == TagKey(r', y[|r'| + 1..]);
    RepoDecidesOrder(r, x[|r| + 1..], r', y[|r'| + 1..]);
  }

  lemma SortedConcat(xs: seq<Bytes>, ys: seq<Bytes>)
    requires StrictlySorted(xs) && StrictlySorted(ys)
    requires forall x, y :: x in xs && y in ys ==> Less(x, y)
    ensures StrictlySorted(xs + ys)
  {
  }

  lemma {:induction false} RejoinedSorted(keys: seq<Bytes>, repos: seq<Bytes>)
    requires StrictlySorted(keys) && InColonOrder(repos)
    requires forall r :: r in repos ==> ':' !in r
    ensures StrictlySorted(Rejoined(keys, repos))
  {
    if repos != [] {
      var front, r := repos[..|repos| - 1], repos[|repos| - 1];
      RejoinedSorted(keys, front);
      RejoinSorted(keys, r);
      var xs, ys := Rejoined(keys, front), Rejoin(r, TagsOf(keys, r));
      forall x, y | x in xs && y in ys ensures Less(x, y) {
        RejoinedElements(keys, front, x);
        RejoinElements(keys, r, y);
        var r' :| r' in front && r' + ":" <= x;
        BlocksInOrder(r', x, r, y);
      }
      SortedConcat(xs, ys);
    }
  }

  lemma {:induction false} ColonKeysAreSorted(keys: seq<Bytes>)
    requires StrictlySorted(keys)
    ensures StrictlySorted(ColonKeys(keys))
    ensures forall k :: k in ColonKeys(keys) <==> k in keys && ':' in k
  {
    if keys != [] {
      var front, k := keys[..|keys| - 1], keys[|keys| - 1];
      ColonKeysAreSorted(front);
      assert keys == front + [k];
      var ks := ColonKeys(front);
      forall i | 0 <= i < |ks| ensures Less(ks[i], k) {
        assert ks[i] in front;
      }
    }
  }

  /** Walking the listed repositories and listing the tags of each gives back
      exactly the tagged keys of the index, each once and in key order. */
  lemma ListingsPartitionIndex(keys: seq<Bytes>)
    requires StrictlySorted(keys) && SingleColon(keys)
    ensures Rejoined(keys, ReposOf(keys)) == ColonKeys(keys)
  {
    var repos := ReposOf(keys);
    ReposOfElements(keys);
    ReposInColonOrder(keys);
    forall r | r in repos ensures ':' !in r {
      var k :| k in keys && RepoOf(k) == Some(r);
      RepoIsColonFree(keys, k);
    }
    RejoinedSorted(keys, repos);
    ColonKeysAreSorted(keys);
    forall k ensures k in Rejoined(keys, repos) <==> k in ColonKeys(keys) {
      RejoinedElements(keys, repos, k);
      if k in keys && ':' in k {
        LastColon(k);
        var r := RepoOf(k).value;
        assert r in repos && r + ":" <= k;
      }
      if r :| r in repos && r + ":" <= k {
        assert k[|r|] == (r + ":")[|r|] == ':';
      }
    }
    SortedIsUnique(Rejoined(keys, repos), ColonKeys(keys));
  }

  /** Every repository that has tags is also listed. */
  ghost predicate AcceptedAreListed(keys: seq<Bytes>) {
    forall r :: TagsOf(keys, r) != [] ==> r in ReposOf(keys)
  }

  lemma {:induction false} SplitRejoined(keys: seq<Bytes>, repos: seq<Bytes>, n: nat)
    requires n <= |repos|
    ensures Rejoined(keys, repos[..n]) <= Rejoined(keys, repos)
  {
    if n < |repos| {
      SplitRejoined(keys, repos[..|repos| - 1], n);
      assert repos[..|repos| - 1][..n] == repos[..n];
    } else {
      assert repos[..n] == repos;
    }
  }

  lemma IndexIn(xs: seq<Bytes>, k: Bytes) returns (i: nat)
    requires k in xs
    ensures i < |xs| && xs[i] == k
  {
    i :| 0 <= i < |xs| && xs[i] == k;
  }

  lemma InBothParts(xs: seq<Bytes>, ys: seq<Bytes>, all: seq<Bytes>, k: Bytes) returns (i: nat, j: nat)
    requires k in xs && k in ys && xs + ys <= all
    ensures i < j < |all| && all[i] == k && all[j] == k
  {
    i := IndexIn(xs, k);
    var n := IndexIn(ys, k);
    j := |xs| + n;
    assert (xs + ys)[i] == xs[i] && (xs + ys)[j] == ys[n];
  }

  /** A key claimed by two repositories comes out of the listings twice. */
  lemma ClaimedTwice(keys: seq<Bytes>, repos: seq<Bytes>, a: nat, b: nat, k: Bytes) returns (i: nat, j: nat)
    requires a < b < |repos| && k in keys && repos[a] + ":" <= k && repos[b] + ":" <= k
    ensures i < j < |Rejoined(keys, repos)| && Rejoined(keys, repos)[i] == k && Rejoined(keys, repos)[j] == k
  {
    var front, block := Rejoined(keys, repos[..b]), Rejoin(repos[b], TagsOf(keys, repos[b]));
    assert repos[..b][a] in repos[..b];
    RejoinedElements(keys, repos[..b], k);
    RejoinElements(keys, repos[b], k);
    RejoinedStep(keys, repos, b);
    SplitRejoined(keys, repos, b + 1);
    i, j := InBothParts(front, block, Rejoined(keys, repos), k);
  }

  lemma RejoinedStep(keys: seq<Bytes>, repos: seq<Bytes>, b: nat)
    requires b < |repos|
    ensures Rejoined(keys, repos[..b + 1])
            == Rejoined(keys, repos[..b]) + Rejoin(repos[b], TagsOf(keys, repos[b]))
  {
    assert repos[..b + 1][..b] == repos[..b];
  }

  /** The repositories with tags are exactly those listed, and the listings make
      up the index, if and only if no key holds two colons. */
  lemma ListingsAgreeExactly(keys: seq<Bytes>)
    requires StrictlySorted(keys)
    ensures AcceptedAreListed(keys) && Rejoined(keys, ReposOf(keys)) == ColonKeys(keys) <==> SingleColon(keys)
  {
    if SingleColon(keys) {
      ListingsPartitionIndex(keys);
      forall r | TagsOf(keys, r) != [] ensures r in ReposOf(keys) {
        TaggedIsListed(keys, r);
      }
    }
    if AcceptedAreListed(keys) && Rejoined(keys, ReposOf(keys)) == ColonKeys(keys) {
      forall k, i, j | k in keys && 0 <= i < |k| && 0 <= j < |k| && k[i] == ':' && k[j] == ':' ensures i == j {
        OneColonOnly(keys, k, i, j);
        OneColonOnly(keys, k, j, i);
      }
    }
  }

  lemma OneColonOnly(keys: seq<Bytes>, k: Bytes, i: nat, j: nat)
    requires StrictlySorted(keys) && k in keys && i < |k| && j < |k| && k[i] == ':' && k[j] == ':'
    ensures AcceptedAreListed(keys) && Rejoined(keys, ReposOf(keys)) == ColonKeys(keys) ==> i >= j
  {
    var repos := ReposOf(keys);
    if i < j && AcceptedAreListed(keys) && Rejoined(keys, repos) == ColonKeys(keys) {
      ColonPrefixHasTags(keys, k, i);
      ColonPrefixHasTags(keys, k, j);
      var a := IndexIn(repos, k[..i]);
      var b := IndexIn(repos, k[..j]);
      assert |repos[a]| != |repos[b]|;
      var x, y := ListedTwice(keys, repos, a, b, k);
      ColonKeysAreSorted(keys);
      SortedDistinct(ColonKeys(keys), x, y);
    }
  }

  lemma ListedTwice(keys: seq<Bytes>, repos: seq<Bytes>, a: nat, b: nat, k: Bytes) returns (i: nat, j: nat)
    requires a < |repos| && b < |repos| && a != b && k in keys && repos[a] + ":" <= k && repos[b] + ":" <= k
    ensures i < j < |Rejoined(keys, repos)| && Rejoined(keys, repos)[i] == k && Rejoined(keys, repos)[j] == k
  {
    if a < b {
      i, j := ClaimedTwice(keys, repos, a, b, k);
    } else {
      i, j := ClaimedTwice(keys, repos, b, a, k);
    }
  }

  lemma TaggedIsListed(keys: seq<Bytes>, r: Bytes)
    requires SingleColon(keys) && TagsOf(keys, r) != []
    ensures r in ReposOf(keys)
  {
    var t := TagsOf(keys, r)[0];
    TagsOfElements(keys, r, t);
    var k := TagKey(r, t);
    assert k[|r|] == ':' && ':' in k;
    LastColon(k);
    assert |RepoOf(k).value| == |r|;
    assert k[..|r|] == r;
    ReposOfElements(keys);
  }

  lemma ColonPrefixHasTags(keys: seq<Bytes>, k: Bytes, i: nat)
    requires k in keys && i < |k| && k[i] == ':'
    ensures TagsOf(keys, k[..i]) != [] && k[..i] + ":" <= k
  {
    assert k == TagKey(k[..i], k[i + 1..]);
    TagsOfElements(keys, k[..i], k[i + 1..]);
  }
}
