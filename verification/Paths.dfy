/** File paths as `path/filepath` computes them: joining cleans the result, so that
    empty and `.` components vanish and `..` goes up. */
module Paths {
  import opened ByteStrings

  /** An absolute, cleaned path, component by component. */
  type FilePath = seq<Bytes>

  /** The parts of a string between its slashes. */
  function Components(s: Bytes): (cs: seq<Bytes>)
    ensures |cs| >= 1
  {
    var i := FirstIndex(s, '/');
    if i == |s| then [s] else [s[..i]] + Components(s[i + 1..])
  }

  /** One component further; above the top there is nothing. */
  function Step(base: FilePath, c: Bytes): FilePath {
    if c == "" || c == "." then base
    else if c == ".." then Up(base, 1)
    else base + [c]
  }

  function Resolve(base: FilePath, cs: seq<Bytes>): FilePath {
    if cs == [] then base else Step(Resolve(base, cs[..|cs| - 1]), cs[|cs| - 1])
  }

  /** What `filepath.Join` makes of a cleaned path and one more element. */
  function Join(base: FilePath, elem: Bytes): FilePath {
    Resolve(base, Components(elem))
  }

  /** `n` levels up. */
  function Up(base: FilePath, n: nat): FilePath {
    if n <= |base| then base[..|base| - n] else []
  }

  /** A string that names one file in a directory. */
  predicate Ordinary(c: Bytes) {
    c != "" && c != "." && c != ".." && '/' !in c
  }

  lemma JoinOrdinary(base: FilePath, c: Bytes)
    requires Ordinary(c)
    ensures Join(base, c) == base + [c]
  {
    assert forall j :: 0 <= j < |c| ==> c[j] in c;
    assert Components(c) == [c];
    assert [c][..0] == [] && Resolve(base, [c]) == Step(base, c);
  }

  lemma SplitAtSlash(first: Bytes, rest: Bytes)
    requires '/' !in first
    ensures Components(first) == [first]
    ensures Components(first + "/" + rest) == [first] + Components(rest)
  {
    var s := first + "/" + rest;
    assert forall j :: 0 <= j < |first| ==> s[j] == first[j] && first[j] in first;
    assert s[|first|] == '/';
    assert FirstIndex(s, '/') == |first|;
    assert FirstIndex(first, '/') == |first|;
    assert s[..|first|] == first && s[|first| + 1..] == rest;
  }

  lemma Reassociate<T>(x: seq<T>, y: seq<T>, z: seq<T>)
    ensures x + y + z == x + (y + z)
  {
  }

  lemma CutAtSlash(a: Bytes, b: Bytes) returns (first: Bytes, rest: Bytes)
    requires FirstIndex(a, '/') < |a|
    ensures '/' !in first && a == first + "/" + rest
    ensures a + "/" + b == first + "/" + (rest + "/" + b)
  {
    var i := FirstIndex(a, '/');
    first, rest := a[..i], a[i + 1..];
  }

  lemma {:induction false} ComponentsConcat(a: Bytes, b: Bytes)
    ensures Components(a + "/" + b) == Components(a) + Components(b)
    decreases |a|
  {
    if FirstIndex(a, '/') == |a| {
      SplitAtSlash(a, b);
    } else {
      var first, rest := CutAtSlash(a, b);
      ComponentsConcat(rest, b);
      SplitAtSlash(first, rest);
      SplitAtSlash(first, rest + "/" + b);
      Reassociate([first], Components(rest), Components(b));
    }
  }

  /** Joining, completely: slash by slash, where nothing and `.` stay, `..` goes up if
      it can, and anything else goes down by that name. */
  lemma JoinExactly(base: FilePath, a: Bytes, b: Bytes)
    ensures Join(base, a + "/" + b) == Join(Join(base, a), b)
    ensures '/' !in a ==>
              Join(base, a) == if a == "" || a == "." then base
                               else if a != ".." then base + [a]
                               else if base == [] then []
                               else base[..|base| - 1]
  {
    ComponentsConcat(a, b);
    ResolveConcat(base, Components(a), Components(b));
    if '/' !in a {
      assert forall j :: 0 <= j < |a| ==> a[j] in a;
      assert Components(a) == [a] && [a][..0] == [];
      assert Resolve(base, [a]) == Step(base, a);
    }
  }

  /******* What a relative path does to any base *******/

  /** A cleaned relative path: some levels up, then some names down. */
  datatype Relative = Relative(ups: nat, parts: seq<Bytes>)

  function Clean(cs: seq<Bytes>): Relative {
    if cs == [] then Relative(0, []) else CleanStep(Clean(cs[..|cs| - 1]), cs[|cs| - 1])
  }

  function CleanStep(r: Relative, c: Bytes): Relative {
    if c == "" || c == "." then r
    else if c != ".." then Relative(r.ups, r.parts + [c])
    else if r.parts == [] then Relative(r.ups + 1, [])
    else Relative(r.ups, r.parts[..|r.parts| - 1])
  }

  lemma StepIsUpAndDown(base: FilePath, r: Relative, c: Bytes)
    ensures Step(Up(base, r.ups) + r.parts, c) == Up(base, CleanStep(r, c).ups) + CleanStep(r, c).parts
  {
    var at := Up(base, r.ups) + r.parts;
    if c == ".." {
      if r.parts == [] {
        assert at == Up(base, r.ups);
      } else {
        assert Up(at, 1) == Up(base, r.ups) + r.parts[..|r.parts| - 1];
      }
    }
  }

  /** Joining goes up and down as the cleaned relative path says. */
  lemma {:induction false} ResolveIsUpAndDown(base: FilePath, cs: seq<Bytes>)
    ensures Resolve(base, cs) == Up(base, Clean(cs).ups) + Clean(cs).parts
  {
    if cs == [] {
      assert base[..|base|] == base;
    } else {
      ResolveIsUpAndDown(base, cs[..|cs| - 1]);
      StepIsUpAndDown(base, Clean(cs[..|cs| - 1]), cs[|cs| - 1]);
    }
  }

  /** The names a base would have to be entered by again after going up. */
  function Back(base: FilePath, n: nat): FilePath {
    if n <= |base| then base[|base| - n..] else base
  }

  /** Exactly when joining a string to a base arrives at the entry `name` of the base:
      however many levels it goes up, it must come down again by the same names
      and then to `name`. */
  lemma JoinArrivesExactly(base: FilePath, elem: Bytes, name: Bytes)
    ensures Join(base, elem) == base + [name] <==>
            var r := Clean(Components(elem)); r.parts == Back(base, r.ups) + [name]
  {
    var r := Clean(Components(elem));
    ResolveIsUpAndDown(base, Components(elem));
    var up, back := Up(base, r.ups), Back(base, r.ups);
    assert base == up + back;
    assert base + [name] == up + (back + [name]);
    if up + r.parts == up + (back + [name]) {
      assert (up + r.parts)[|up|..] == r.parts;
      assert (up + (back + [name]))[|up|..] == back + [name];
    }
  }

  lemma {:induction false} ResolveConcat(base: FilePath, a: seq<Bytes>, b: seq<Bytes>)
    ensures Resolve(base, a + b) == Resolve(Resolve(base, a), b)
  {
    if b == [] {
      assert a + b == a;
    } else {
      ResolveConcat(base, a, b[..|b| - 1]);
      assert (a + b)[..|a + b| - 1] == a + b[..|b| - 1];
    }
  }

  /** A leading slash or `./` makes no difference to a joined element. */
  lemma LeadingNothing(base: FilePath, prefix: Bytes, elem: Bytes)
    requires prefix == "/" || prefix == "./"
    ensures Join(base, prefix + elem) == Join(base, elem)
  {
    var s, first := prefix + elem, prefix[..|prefix| - 1];
    assert s[|prefix| - 1] == '/' && forall j :: 0 <= j < |prefix| - 1 ==> s[j] != '/';
    assert FirstIndex(s, '/') == |prefix| - 1;
    assert s[..|prefix| - 1] == first && s[|prefix|..] == elem;
    assert [first][..0] == [];
    ResolveConcat(base, [first], Components(elem));
  }

  /******* Parent components in request paths *******/

  predicate IsSeparator(c: char) {
    c == '/' || c == '\\'
  }

  /** Whether `..` stands between separators (or the ends of the string) at `i`. */
  predicate ParentAt(s: Bytes, i: int) {
    && 0 <= i && i + 2 <= |s| && s[i] == '.' && s[i + 1] == '.'
    && (i == 0 || IsSeparator(s[i - 1]))
    && (i + 2 == |s| || IsSeparator(s[i + 2]))
  }

  /** The test by which `http.ServeFile` refuses a request path. */
  predicate HasParent(s: Bytes) {
    exists i :: 0 <= i < |s| && ParentAt(s, i)
  }

  /** `..` between `a` and `b`, with a separator or an end of the string on either side. */
  ghost predicate ParentBetween(s: Bytes, a: Bytes, b: Bytes) {
    && IsCut(s, a, "..", b)
    && (a == "" || a[|a| - 1] == '/' || a[|a| - 1] == '\\')
    && (b == "" || b[0] == '/' || b[0] == '\\')
  }

  lemma ParentHere(s: Bytes, a: Bytes, b: Bytes)
    requires IsCut(s, a, "..", b)
    ensures ParentAt(s, |a|) <==> ParentBetween(s, a, b)
  {
    assert s[|a|] == '.' && s[|a| + 1] == '.';
    assert a != "" ==> s[|a| - 1] == a[|a| - 1];
    assert b != "" ==> s[|a| + 2] == b[0];
  }

  /** The test, read off the string. */
  lemma ParentExactly(s: Bytes)
    ensures HasParent(s) <==> exists a, b :: ParentBetween(s, a, b)
  {
    if i :| 0 <= i < |s| && ParentAt(s, i) {
      assert IsCut(s, s[..i], "..", s[i + 2..]);
      ParentHere(s, s[..i], s[i + 2..]);
    }
    if a, b :| ParentBetween(s, a, b) {
      ParentHere(s, a, b);
    }
  }
}
