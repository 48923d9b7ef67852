/** Go strings and `[]byte` keys: prefix, suffix and substring tests, and the
    bytewise order in which the index keeps its keys.

    A byte string is written with one character per byte. Nothing below depends
    on how large a character may be, so every result holds in particular for
    characters that are bytes. */
module ByteStrings {

  type Bytes = string

  /******* Substrings *******/

  predicate HasSuffix(s: Bytes, suffix: Bytes) {
    |suffix| <= |s| && s[|s| - |suffix|..] == suffix
  }

  function TrimPrefix(s: Bytes, prefix: Bytes): Bytes {
    if prefix <= s then s[|prefix|..] else s
  }

  function TrimSuffix(s: Bytes, suffix: Bytes): Bytes {
    if HasSuffix(s, suffix) then s[..|s| - |suffix|] else s
  }

  /** The position of the first `c` in `s`, or its length. */
  function FirstIndex(s: Bytes, c: char): (i: nat)
    ensures i <= |s|
    ensures forall j :: 0 <= j < i ==> s[j] != c
    ensures i < |s| ==> s[i] == c
  {
    if s == "" || s[0] == c then 0 else 1 + FirstIndex(s[1..], c)
  }

  predicate OccursAt(s: Bytes, sub: Bytes, i: int) {
    0 <= i && i + |sub| <= |s| && s[i..i + |sub|] == sub
  }

  ghost predicate Contains(s: Bytes, sub: Bytes) {
    exists i :: OccursAt(s, sub, i)
  }

  /** The position of the last occurrence of `sub` in `s`, or -1. */
  function LastIndex(s: Bytes, sub: Bytes): (i: int)
    ensures -1 <= i
    ensures i >= 0 ==> OccursAt(s, sub, i)
    ensures forall j :: OccursAt(s, sub, j) ==> j <= i
  {
    LastIndexUpTo(s, sub, |s|)
  }

  function LastIndexUpTo(s: Bytes, sub: Bytes, n: nat): (i: int)
    ensures -1 <= i <= n
    ensures i >= 0 ==> OccursAt(s, sub, i)
    ensures forall j :: OccursAt(s, sub, j) && j <= n ==> j <= i
  {
    if OccursAt(s, sub, n) then n
    else if n == 0 then -1
    else LastIndexUpTo(s, sub, n - 1)
  }

  /** An occurrence, read character by character. */
  lemma OccursAtChars(s: Bytes, sub: Bytes, i: int)
    requires 0 <= i && i + |sub| <= |s|
    ensures OccursAt(s, sub, i) <==> forall k :: 0 <= k < |sub| ==> s[i + k] == sub[k]
  {
    if forall k :: 0 <= k < |sub| ==> s[i + k] == sub[k] {
      assert s[i..i + |sub|] == sub;
    }
    if OccursAt(s, sub, i) {
      forall k | 0 <= k < |sub| ensures s[i + k] == sub[k] {
        assert s[i..i + |sub|][k] == s[i + k];
      }
    }
  }

  lemma OccurrenceChar(s: Bytes, sub: Bytes, i: int, k: nat)
    requires OccursAt(s, sub, i) && k < |sub|
    ensures s[i + k] == sub[k]
  {
    assert s[i..i + |sub|][k] == s[i + k];
  }

  /** The substring tests, as splits of the string. */
  lemma SuffixExactly(s: Bytes, suffix: Bytes)
    ensures HasSuffix(s, suffix) <==> exists a: Bytes :: s == a + suffix
  {
    if HasSuffix(s, suffix) {
      assert s == s[..|s| - |suffix|] + suffix;
    }
  }

  /** A string cut in three. */
  ghost predicate IsCut(s: Bytes, a: Bytes, sub: Bytes, b: Bytes) {
    s == a + sub + b
  }

  lemma ContainsExactly(s: Bytes, sub: Bytes)
    ensures Contains(s, sub) <==> exists a, b :: IsCut(s, a, sub, b)
  {
    if i :| OccursAt(s, sub, i) {
      assert IsCut(s, s[..i], sub, s[i + |sub|..]);
    }
    if a, b :| IsCut(s, a, sub, b) {
      assert s[|a|..|a| + |sub|] == sub;
      assert OccursAt(s, sub, |a|);
    }
  }

  /******* Bytewise order *******/

  /** The strict lexicographic order of byte strings. */
  predicate Less(a: Bytes, b: Bytes) {
    b != [] && (a == [] || a[0] < b[0] || (a[0] == b[0] && Less(a[1..], b[1..])))
  }

  ghost predicate StrictlySorted(ks: seq<Bytes>) {
    forall i, j :: 0 <= i < j < |ks| ==> Less(ks[i], ks[j])
  }

  lemma {:induction false} FirstDifference(a: Bytes, b: Bytes) returns (n: nat)
    requires Less(a, b)
    ensures n <= |a| && n <= |b| && a[..n] == b[..n]
    ensures (n == |a| && n < |b|) || (n < |a| && n < |b| && a[n] < b[n])
  {
    if a == [] || a[0] < b[0] {
      n := 0;
    } else {
      n := FirstDifference(a[1..], b[1..]);
      assert a[..n + 1] == [a[0]] + a[1..][..n] && b[..n + 1] == [b[0]] + b[1..][..n];
      n := n + 1;
    }
  }

  lemma {:induction false} DifferenceDecides(a: Bytes, b: Bytes, n: nat)
    requires n <= |a| && n <= |b| && a[..n] == b[..n]
    requires (n == |a| && n < |b|) || (n < |a| && n < |b| && a[n] < b[n])
    ensures Less(a, b)
  {
    if n > 0 {
      assert a[0] == a[..n][0] == b[..n][0] == b[0];
      assert a[1..][..n - 1] == a[..n][1..] && b[1..][..n - 1] == b[..n][1..];
      DifferenceDecides(a[1..], b[1..], n - 1);
    }
  }

  /** The order is that of `bytes.Compare`: what comes before is a proper prefix, or
      has the smaller byte where the two first differ. */
  lemma LessExactly(a: Bytes, b: Bytes)
    ensures Less(a, b) <==>
            exists n: nat :: n <= |a| && n <= |b| && a[..n] == b[..n]
                             && ((n == |a| && n < |b|) || (n < |a| && n < |b| && a[n] < b[n]))
  {
    if Less(a, b) {
      var n := FirstDifference(a, b);
    }
    if n: nat :| n <= |a| && n <= |b| && a[..n] == b[..n]
                 && ((n == |a| && n < |b|) || (n < |a| && n < |b| && a[n] < b[n])) {
      DifferenceDecides(a, b, n);
    }
  }

  /** `bytes.Compare(a, b) < 0`: equal up to some point, where `a` ends or has the
      smaller byte. */
  ghost predicate Before(a: Bytes, b: Bytes) {
    exists n: nat :: n <= |a| && n <= |b| && a[..n] == b[..n]
                     && ((n == |a| && n < |b|) || (n < |a| && n < |b| && a[n] < b[n]))
  }

  lemma SortedExactly(ks: seq<Bytes>)
    ensures StrictlySorted(ks) <==> forall i, j :: 0 <= i < j < |ks| ==> Before(ks[i], ks[j])
  {
    forall i, j | 0 <= i < j < |ks| ensures Less(ks[i], ks[j]) <==> Before(ks[i], ks[j]) {
      LessExactly(ks[i], ks[j]);
    }
  }

  lemma {:induction false} LessIrreflexive(a: Bytes)
    ensures !Less(a, a)
  {
    if a != [] {
      LessIrreflexive(a[1..]);
    }
  }

  lemma {:induction false} LessTransitive(a: Bytes, b: Bytes, c: Bytes)
    requires Less(a, b) && Less(b, c)
    ensures Less(a, c)
  {
    if a != [] && a[0] == b[0] == c[0] {
      LessTransitive(a[1..], b[1..], c[1..]);
    }
  }

  lemma {:induction false} LessTotal(a: Bytes, b: Bytes)
    ensures a == b || Less(a, b) || Less(b, a)
  {
    if a != [] && b != [] && a[0] == b[0] {
      LessTotal(a[1..], b[1..]);
      assert a == [a[0]] + a[1..] && b == [b[0]] + b[1..];
    }
  }

  lemma LessAsymmetric(a: Bytes, b: Bytes)
    requires Less(a, b)
    ensures !Less(b, a)
  {
    if Less(b, a) {
      LessTransitive(a, b, a);
      LessIrreflexive(a);
    }
  }

  /** A common prefix does not influence the order. */
  lemma {:induction false} LessCommonPrefix(p: Bytes, a: Bytes, b: Bytes)
    ensures Less(p + a, p + b) <==> Less(a, b)
  {
    if p == [] {
      assert p + a == a && p + b == b;
    } else {
      LessCommonPrefix(p[1..], a, b);
      assert (p + a)[1..] == p[1..] + a && (p + b)[1..] == p[1..] + b;
    }
  }

  /** A string is never before its own prefix. */
  lemma {:induction false} PrefixNotAfter(p: Bytes, k: Bytes)
    requires p <= k
    ensures !Less(k, p)
  {
    if p != [] {
      PrefixNotAfter(p[1..], k[1..]);
    }
  }

  /** Once the order has passed `p` and left its prefix range, it never returns:
      strings that share a prefix form one contiguous run. */
  lemma {:induction false} PrefixRunEnds(p: Bytes, a: Bytes, b: Bytes)
    requires !Less(a, p) && !(p <= a) && Less(a, b)
    ensures !(p <= b)
  {
    if p <= b {
      if a != [] && p != [] && a[0] == p[0] {
        PrefixRunEnds(p[1..], a[1..], b[1..]);
      }
    }
  }

  /** Two strings of which neither is a prefix of the other are ordered alike
      whatever follows them. */
  lemma {:induction false} LessDecidedEarly(a: Bytes, x: Bytes, b: Bytes, y: Bytes)
    requires !(a <= b) && !(b <= a)
    ensures Less(a + x, b + y) <==> Less(a, b)
  {
    if a[0] == b[0] {
      LessDecidedEarly(a[1..], x, b[1..], y);
      assert (a + x)[1..] == a[1..] + x && (b + y)[1..] == b[1..] + y;
    }
  }

  /** A strictly sorted sequence is determined by its elements. */
  lemma {:induction false} SortedIsUnique(xs: seq<Bytes>, ys: seq<Bytes>)
    requires StrictlySorted(xs) && StrictlySorted(ys)
    requires forall k :: k in xs <==> k in ys
    ensures xs == ys
  {
    if xs == [] {
      HeadIsMember(ys);
    } else {
      assert xs[0] in xs;
      SortedHeadIsLeast(xs, ys);
      SortedHeadIsLeast(ys, xs);
      if xs[0] != ys[0] {
        LessAsymmetric(xs[0], ys[0]);
      }
      SortedTail(xs);
      SortedTail(ys);
      forall k ensures k in xs[1..] <==> k in ys[1..] {
        assert k in xs <==> k == xs[0] || k in xs[1..];
        assert k in ys <==> k == ys[0] || k in ys[1..];
      }
      SortedIsUnique(xs[1..], ys[1..]);
      assert xs == [xs[0]] + xs[1..] && ys == [ys[0]] + ys[1..];
    }
  }

  lemma HeadIsMember(ys: seq<Bytes>)
    ensures ys != [] ==> ys[0] in ys
  {
  }

  lemma SortedHeadIsLeast(xs: seq<Bytes>, ys: seq<Bytes>)
    requires StrictlySorted(xs) && xs != [] && ys != [] && ys[0] in xs
    ensures xs[0] == ys[0] || Less(xs[0], ys[0])
  {
    var i :| 0 <= i < |xs| && xs[i] == ys[0];
  }

  lemma SortedTail(xs: seq<Bytes>)
    requires StrictlySorted(xs) && xs != []
    ensures StrictlySorted(xs[1..])
    ensures xs[0] !in xs[1..]
  {
    LessIrreflexive(xs[0]);
    forall i, j | 0 <= i < j < |xs[1..]| ensures Less(xs[1..][i], xs[1..][j]) {
      assert xs[1..][i] == xs[i + 1] && xs[1..][j] == xs[j + 1];
    }
  }

  lemma SortedDistinct(xs: seq<Bytes>, i: nat, j: nat)
    requires StrictlySorted(xs) && i < |xs| && j < |xs| && xs[i] == xs[j]
    ensures i == j
  {
    LessIrreflexive(xs[i]);
  }

  /** The members of a finite set of keys in the order an index walks them. */
  ghost function SortedKeys(keys: set<Bytes>): (ks: seq<Bytes>)
    ensures StrictlySorted(ks)
    ensures forall k :: k in ks <==> k in keys
  {
    if keys == {} then []
    else
      var k :| k in keys;
      InsertSorted(SortedKeys(keys - {k}), k)
  }

  ghost function InsertSorted(ks: seq<Bytes>, k: Bytes): (r: seq<Bytes>)
    requires StrictlySorted(ks) && k !in ks
    ensures StrictlySorted(r)
    ensures forall x :: x in r <==> x == k || x in ks
  {
    if ks == [] then [k]
    else if Less(k, ks[0]) then
      InsertFront(ks, k);
      [k] + ks
    else
      SortedTail(ks);
      var r := InsertSorted(ks[1..], k);
      LessTotal(k, ks[0]);
      InsertFront(r, ks[0]);
      assert forall x :: x in ks <==> x == ks[0] || x in ks[1..];
      [ks[0]] + r
  }

  lemma InsertFront(ks: seq<Bytes>, k: Bytes)
    requires StrictlySorted(ks)
    requires ks != [] ==> Less(k, ks[0])
    ensures StrictlySorted([k] + ks)
  {
    forall j | 0 <= j < |ks| ensures Less(k, ks[j]) {
      if j > 0 { LessTransitive(k, ks[0], ks[j]); }
    }
  }
}
