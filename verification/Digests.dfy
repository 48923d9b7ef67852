/** Content digests (`sha256:` followed by lower-case hex) and the file under the
    blob root that a digest names: printing on the writing side
    (`hack/seed/main.go`), parsing on the reading side (`internal/oci/registry.go`). */
module Digests {
  import opened Wrappers
  import opened ByteStrings
  import opened Paths

  newtype Octet = x: int | 0 <= x < 256

  /** The 32 octets of a SHA-256 sum. */
  type Sum = s: seq<Octet> | |s| == 32 witness seq(32, _ => 0)

  type HashFunction = Bytes -> Sum

  const SHA256_PREFIX: Bytes := "sha256:"

  /******* Printing *******/

  const HEX_DIGITS: Bytes := "0123456789abcdef"

  function HexDigit(n: int): char
    requires 0 <= n < 16
  {
    HEX_DIGITS[n]
  }

  function HighDigit(o: Octet): char { HexDigit(o as int / 16) }

  function LowDigit(o: Octet): char { HexDigit(o as int % 16) }

  function Hex(octets: seq<Octet>): (h: Bytes)
    ensures |h| == 2 * |octets|
  {
    if octets == [] then ""
    else [HighDigit(octets[0]), LowDigit(octets[0])] + Hex(octets[1..])
  }

  function DigestOf(sha: HashFunction, data: Bytes): (digest: Bytes)
    ensures |digest| == 71
  {
    SHA256_PREFIX + Hex(sha(data))
  }

  /******* Parsing *******/

  predicate IsHexDigit(c: char) {
    '0' <= c <= '9' || 'a' <= c <= 'f' || 'A' <= c <= 'F'
  }

  predicate IsLowerHex(s: Bytes) {
    forall i :: 0 <= i < |s| ==> '0' <= s[i] <= '9' || 'a' <= s[i] <= 'f'
  }

  /** Whether `encoding/hex.DecodeString` accepts the string. */
  predicate DecodesAsHex(s: Bytes) {
    |s| % 2 == 0 && forall i :: 0 <= i < |s| ==> IsHexDigit(s[i])
  }

  datatype Parsed = Parsed(algo: Bytes, hex: Bytes)

  function ParseDigest(digest: Bytes): Option<Parsed> {
    var i := FirstIndex(digest, ':');
    if i == |digest| then None
    else
      var algo, hex := digest[..i], digest[i + 1..];
      if algo == "" || hex == "" then None
      else if !DecodesAsHex(hex) then None
      else Some(Parsed(algo, hex))
  }

  /** The file the seeder writes for a digest it printed. */
  function WriteKey(blobRoot: FilePath, digest: Bytes): FilePath
    requires |digest| >= |SHA256_PREFIX| + 2
  {
    var hex := digest[|SHA256_PREFIX|..];
    var dir := Join(Join(blobRoot, "sha256"), hex[..2]);
    Join(dir, hex)
  }

  /** The file the registry looks for, if the digest is well formed. The algorithm
      is whatever stands before the colon, slashes and dots included. */
  function ReadKey(blobRoot: FilePath, digest: Bytes): Option<FilePath> {
    match ParseDigest(digest)
    case None => None
    case Some(Parsed(algo, hex)) =>
      // a hex string that decodes and is not empty has at least two digits
      assert |hex| >= 2;
      Some(Join(Join(Join(blobRoot, algo), hex[..2]), hex))
  }

  /******* What printing and parsing agree on *******/

  /** Exactly the strings `algo:hex` with a non-empty, colon-free algorithm and a
      non-empty, even number of hex digits are accepted, and the parts returned
      are those two. */
  lemma ParseDigestExactly(digest: Bytes, algo: Bytes, hex: Bytes)
    ensures ParseDigest(digest) == Some(Parsed(algo, hex)) <==>
            && digest == algo + ":" + hex && algo != "" && ':' !in algo && |hex| >= 2 && |hex| % 2 == 0
            && forall i :: 0 <= i < |hex| ==> '0' <= hex[i] <= '9' || 'a' <= hex[i] <= 'f' || 'A' <= hex[i] <= 'F'
  {
    var i := FirstIndex(digest, ':');
    if ParseDigest(digest) == Some(Parsed(algo, hex)) {
      assert digest == digest[..i] + [digest[i]] + digest[i + 1..];
    }
    if digest == algo + ":" + hex && ':' !in algo {
      assert digest[|algo|] == ':';
      assert forall j :: 0 <= j < |algo| ==> digest[j] == algo[j] && algo[j] in algo;
      assert i == |algo|;
      assert digest[..i] == algo && digest[i + 1..] == hex;
    }
  }

  lemma {:induction false} HexIsLower(octets: seq<Octet>)
    ensures IsLowerHex(Hex(octets)) && DecodesAsHex(Hex(octets))
  {
    if octets != [] {
      HexIsLower(octets[1..]);
      var h := Hex(octets);
      forall i | 0 <= i < |h| ensures '0' <= h[i] <= '9' || 'a' <= h[i] <= 'f' {
        if i >= 2 { assert h[i] == Hex(octets[1..])[i - 2]; }
      }
    }
  }

  lemma HexDigitChar(n: int)
    requires 0 <= n < 16
    ensures HexDigit(n) as int == if n < 10 then '0' as int + n else 'a' as int + n - 10
  {
    assert forall k :: 0 <= k < 16 ==> HEX_DIGITS[k] as int == if k < 10 then 48 + k else 87 + k;
  }

  lemma {:induction false} HexOfOctet(octets: seq<Octet>, i: nat)
    requires i < |octets|
    ensures Hex(octets)[2 * i] == HighDigit(octets[i]) && Hex(octets)[2 * i + 1] == LowDigit(octets[i])
  {
    if i > 0 {
      var rest := Hex(octets[1..]);
      HexOfOctet(octets[1..], i - 1);
      assert Hex(octets)[2 * i] == rest[2 * (i - 1)] && Hex(octets)[2 * i + 1] == rest[2 * (i - 1) + 1];
    }
  }

  /** The two digits of each octet, the high one first. */
  lemma HexExactly(octets: seq<Octet>, i: nat)
    requires i < |octets|
    ensures var high, low := octets[i] as int / 16, octets[i] as int % 16;
            && Hex(octets)[2 * i] as int == (if high < 10 then '0' as int + high else 'a' as int + high - 10)
            && Hex(octets)[2 * i + 1] as int == (if low < 10 then '0' as int + low else 'a' as int + low - 10)
  {
    HexOfOctet(octets, i);
    HexDigitChar(octets[i] as int / 16);
    HexDigitChar(octets[i] as int % 16);
  }

  function HexValue(c: char): (n: int)
    requires IsHexDigit(c)
    ensures 0 <= n < 16
  {
    if '0' <= c <= '9' then c as int - '0' as int
    else if 'a' <= c <= 'f' then c as int - 'a' as int + 10
    else c as int - 'A' as int + 10
  }

  function OctetOf(high: char, low: char): Octet
    requires IsHexDigit(high) && IsHexDigit(low)
  {
    (16 * HexValue(high) + HexValue(low)) as Octet
  }

  /** What `encoding/hex.DecodeString` makes of a string it accepts. */
  function DecodeHex(s: Bytes): seq<Octet>
    requires DecodesAsHex(s)
  {
    if s == "" then [] else [OctetOf(s[0], s[1])] + DecodeHex(s[2..])
  }

  lemma HexDigitValue(n: int)
    requires 0 <= n < 16
    ensures IsHexDigit(HexDigit(n)) && HexValue(HexDigit(n)) == n
  {
    assert forall k :: 0 <= k < 16 ==> HEX_DIGITS[k] as int == if k < 10 then 48 + k else 87 + k;
  }

  lemma OctetOfDigits(o: Octet)
    ensures IsHexDigit(HighDigit(o)) && IsHexDigit(LowDigit(o)) && OctetOf(HighDigit(o), LowDigit(o)) == o
  {
    HexDigitValue(o as int / 16);
    HexDigitValue(o as int % 16);
  }

  /** Decoding gives back the octets that were printed. */
  lemma {:induction false} HexRoundTrip(octets: seq<Octet>)
    ensures DecodesAsHex(Hex(octets)) && DecodeHex(Hex(octets)) == octets
  {
    HexIsLower(octets);
    if octets != [] {
      HexRoundTrip(octets[1..]);
      OctetOfDigits(octets[0]);
      assert Hex(octets)[2..] == Hex(octets[1..]);
      assert octets == [octets[0]] + octets[1..];
    }
  }

  lemma HexIsOrdinary(hex: Bytes)
    requires |hex| >= 2 && DecodesAsHex(hex)
    ensures Ordinary(hex) && Ordinary(hex[..2])
  {
    assert forall i :: 0 <= i < |hex| ==> IsHexDigit(hex[i]);
    assert IsHexDigit(hex[0]) && hex[..2][0] == hex[0];
  }

  /** The file of an accepted digest: two levels below the directory its algorithm
      leads to. */
  lemma ReadKeyLayout(blobRoot: FilePath, algo: Bytes, hex: Bytes)
    requires algo != "" && ':' !in algo && |hex| >= 2 && DecodesAsHex(hex)
    ensures ReadKey(blobRoot, algo + ":" + hex) == Some(Join(blobRoot, algo) + [hex[..2], hex])
  {
    ParseDigestExactly(algo + ":" + hex, algo, hex);
    HexIsOrdinary(hex);
    JoinOrdinary(Join(blobRoot, algo), hex[..2]);
    JoinOrdinary(Join(blobRoot, algo) + [hex[..2]], hex);
    assert ParseDigest(algo + ":" + hex) == Some(Parsed(algo, hex));
    var dir := Join(blobRoot, algo);
    assert dir + [hex[..2]] + [hex] == dir + [hex[..2], hex];
  }

  lemma PrintedDigest(sha: HashFunction, data: Bytes)
    ensures DigestOf(sha, data) == "sha256" + ":" + Hex(sha(data))
    ensures DigestOf(sha, data)[7..] == Hex(sha(data))
  {
  }

  /** Every printed digest parses, has 64 lower-case hex digits, and names on the
      reading side the very file the writing side used: `sha256`, the first two
      digits, all digits. */
  lemma PrintedDigestParses(blobRoot: FilePath, sha: HashFunction, data: Bytes)
    ensures var d, h := DigestOf(sha, data), Hex(sha(data));
            && d == "sha256" + ":" + h && ParseDigest(d) == Some(Parsed("sha256", h))
            && |h| == 64 && IsLowerHex(h)
            && WriteKey(blobRoot, d) == blobRoot + ["sha256", h[..2], h]
            && ReadKey(blobRoot, d) == Some(WriteKey(blobRoot, d))
  {
    HexIsLower(sha(data));
    PrintedDigest(sha, data);
    DigestLayout(blobRoot, Hex(sha(data)));
  }

  lemma DigestLayout(blobRoot: FilePath, h: Bytes)
    requires |h| >= 2 && DecodesAsHex(h)
    ensures var d := "sha256" + ":" + h;
            && ParseDigest(d) == Some(Parsed("sha256", h))
            && WriteKey(blobRoot, d) == blobRoot + ["sha256", h[..2], h]
            && ReadKey(blobRoot, d) == Some(WriteKey(blobRoot, d))
  {
    ParseDigestExactly("sha256" + ":" + h, "sha256", h);
    JoinOrdinary(blobRoot, "sha256");
    ReadKeyLayout(blobRoot, "sha256", h);
    Concat3(blobRoot, "sha256", h[..2], h);
    WriteLayout(blobRoot, h);
  }

  lemma WriteLayout(blobRoot: FilePath, h: Bytes)
    requires |h| >= 2 && DecodesAsHex(h)
    ensures WriteKey(blobRoot, "sha256" + ":" + h) == blobRoot + ["sha256", h[..2], h]
  {
    assert ("sha256" + ":" + h)[7..] == h;
    JoinOrdinary(blobRoot, "sha256");
    HexIsOrdinary(h);
    JoinOrdinary(blobRoot + ["sha256"], h[..2]);
    JoinOrdinary(blobRoot + ["sha256"] + [h[..2]], h);
    assert blobRoot + ["sha256"] + [h[..2]] + [h] == blobRoot + ["sha256", h[..2], h];
  }

  lemma Concat3(base: FilePath, a: Bytes, b: Bytes, c: Bytes)
    ensures base + [a] + [b, c] == base + [a, b, c]
  {
  }

  /** Byte strings share a file exactly when they share a digest, and that is
      exactly when they share a hash sum. */
  lemma SameFileIffSameSum(blobRoot: FilePath, sha: HashFunction, a: Bytes, b: Bytes)
    ensures WriteKey(blobRoot, DigestOf(sha, a)) == WriteKey(blobRoot, DigestOf(sha, b)) <==> sha(a) == sha(b)
    ensures DigestOf(sha, a) == DigestOf(sha, b) <==> sha(a) == sha(b)
  {
    assert DigestOf(sha, a)[7..] == Hex(sha(a)) && DigestOf(sha, b)[7..] == Hex(sha(b));
    PrintedDigestParses(blobRoot, sha, a);
    PrintedDigestParses(blobRoot, sha, b);
    assert WriteKey(blobRoot, DigestOf(sha, a))[|blobRoot| + 2] == Hex(sha(a));
    assert WriteKey(blobRoot, DigestOf(sha, b))[|blobRoot| + 2] == Hex(sha(b));
    HexRoundTrip(sha(a));
    HexRoundTrip(sha(b));
  }

  /** Exactly when two accepted digests name one file: the hex parts are equal and
      the algorithms, as relative paths, lead to the same directory. */
  lemma SameFileExactly(blobRoot: FilePath, algo: Bytes, hex: Bytes, algo': Bytes, hex': Bytes)
    requires algo != "" && ':' !in algo && |hex| >= 2 && DecodesAsHex(hex)
    requires algo' != "" && ':' !in algo' && |hex'| >= 2 && DecodesAsHex(hex')
    ensures ReadKey(blobRoot, algo + ":" + hex) == ReadKey(blobRoot, algo' + ":" + hex') <==>
            var r, r' := Clean(Components(algo)), Clean(Components(algo'));
            hex == hex' && Up(blobRoot, r.ups) + r.parts == Up(blobRoot, r'.ups) + r'.parts
  {
    ReadKeyLayout(blobRoot, algo, hex);
    ReadKeyLayout(blobRoot, algo', hex');
    ResolveIsUpAndDown(blobRoot, Components(algo));
    ResolveIsUpAndDown(blobRoot, Components(algo'));
    var dir, dir' := Join(blobRoot, algo), Join(blobRoot, algo');
    var k, k' := dir + [hex[..2], hex], dir' + [hex'[..2], hex'];
    assert k[..|k| - 2] == dir && k'[..|k'| - 2] == dir' && k[|k| - 1] == hex && k'[|k'| - 1] == hex';
  }

  /** An algorithm that leads to the seeder's directory: it comes down by the names
      it went up, and then to `sha256`. Without `..` that leaves exactly the
      spellings of `sha256` with extra slashes and single dots. */
  predicate NamesSha256(blobRoot: FilePath, algo: Bytes) {
    var r := Clean(Components(algo));
    algo != "" && ':' !in algo && r.parts == Back(blobRoot, r.ups) + ["sha256"]
  }

  lemma AlgoOfFile(blobRoot: FilePath, dir: FilePath, prefix: Bytes, hex: Bytes, prefix': Bytes, hex': Bytes)
    requires dir + [prefix, hex] == blobRoot + ["sha256", prefix', hex']
    ensures dir == blobRoot + ["sha256"] && hex == hex'
  {
    var k := dir + [prefix, hex];
    assert k[|k| - 1] == hex && k[..|k| - 2] == dir;
    assert k == blobRoot + ["sha256"] + [prefix', hex'];
  }

  lemma DigestOfFile(blobRoot: FilePath, sha: HashFunction, digest: Bytes, data: Bytes) returns (algo: Bytes)
    requires ReadKey(blobRoot, digest) == Some(WriteKey(blobRoot, DigestOf(sha, data)))
    ensures NamesSha256(blobRoot, algo) && digest == algo + ":" + Hex(sha(data))
  {
    var parsed := ParseDigest(digest).value;
    algo := parsed.algo;
    var h, hex := Hex(sha(data)), parsed.hex;
    ParseDigestExactly(digest, algo, hex);
    ReadKeyLayout(blobRoot, algo, hex);
    PrintedDigestParses(blobRoot, sha, data);
    AlgoOfFile(blobRoot, Join(blobRoot, algo), hex[..2], hex, h[..2], h);
    JoinArrivesExactly(blobRoot, algo, "sha256");
  }

  /** The digests that lead to the file of given data: any such algorithm in front
      of the printed hex, and no others. */
  lemma DigestsOfFileExactly(blobRoot: FilePath, sha: HashFunction, digest: Bytes, data: Bytes)
    ensures ReadKey(blobRoot, digest) == Some(WriteKey(blobRoot, DigestOf(sha, data))) <==>
            exists algo :: NamesSha256(blobRoot, algo) && digest == algo + ":" + Hex(sha(data))
  {
    if ReadKey(blobRoot, digest) == Some(WriteKey(blobRoot, DigestOf(sha, data))) {
      var algo := DigestOfFile(blobRoot, sha, digest, data);
    }
    if algo :| NamesSha256(blobRoot, algo) && digest == algo + ":" + Hex(sha(data)) {
      var h := Hex(sha(data));
      HexIsLower(sha(data));
      PrintedDigestParses(blobRoot, sha, data);
      ReadKeyLayout(blobRoot, algo, h);
      JoinArrivesExactly(blobRoot, algo, "sha256");
      Concat3(blobRoot, "sha256", h[..2], h);
    }
  }

  /** So a slash or `./` in front of any accepted digest names the same file. */
  lemma LeadingNothingInDigest(blobRoot: FilePath, prefix: Bytes, digest: Bytes)
    requires (prefix == "/" || prefix == "./") && ParseDigest(digest).Some?
    ensures ReadKey(blobRoot, prefix + digest) == ReadKey(blobRoot, digest)
  {
    var Parsed(algo, hex) := ParseDigest(digest).value;
    ParseDigestExactly(digest, algo, hex);
    assert prefix + digest == (prefix + algo) + ":" + hex;
    ReadKeyLayout(blobRoot, algo, hex);
    ReadKeyLayout(blobRoot, prefix + algo, hex);
    LeadingNothing(blobRoot, prefix, algo);
  }
}
