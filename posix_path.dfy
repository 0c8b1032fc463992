/** The two pieces of Python's `posixpath` the model relies on:
    `os.path.normpath` and `os.path.join`, written out as the library does
    them, together with the facts about them that make prefix tests on
    normalised paths separator-aware. */
module PosixPath {
  import opened Text

  predicate IsAbs(p: string) { |p| > 0 && p[0] == '/' }

  /** How many leading slashes `normpath` keeps: POSIX lets exactly two leading
      slashes mean something else than one, so `//x` keeps both, while one or
      three and more collapse to one; relative paths keep none. */
  function InitialSlashes(p: string): (n: nat)
    ensures n <= 2
    ensures n > 0 <==> IsAbs(p)
  {
    if !IsAbs(p) then 0
    else if |p| >= 2 && p[1] == '/' && !(|p| >= 3 && p[2] == '/') then 2
    else 1
  }

  function Slashes(n: nat): (s: string)
    requires n <= 2
    ensures |s| == n && forall k :: 0 <= k < n ==> s[k] == '/'
  {
    if n == 0 then "" else if n == 1 then "/" else "//"
  }

  /** One turn of `normpath`'s loop over the components of `path.split('/')`:
      empty and `.` components vanish, `..` removes the previous component, and
      at the root of an absolute path `..` is dropped. */
  function Step(comp: string, absolute: bool, acc: seq<string>): seq<string> {
    if comp == "" || comp == "." then acc
    else if comp != ".." || (!absolute && acc == []) || (acc != [] && acc[|acc| - 1] == "..") then acc + [comp]
    else if acc != [] then acc[..|acc| - 1]
    else acc
  }

  function Fold(comps: seq<string>, absolute: bool, acc: seq<string>): seq<string>
    decreases |comps|
  {
    if comps == [] then acc else Fold(comps[1..], absolute, Step(comps[0], absolute, acc))
  }

  /** The components `normpath` keeps, in order. */
  function Components(p: string): seq<string> {
    Fold(SplitOn('/', p), IsAbs(p), [])
  }

  /** `os.path.normpath(p)`: never empty, and absolute when `p` is. */
  function NormPath(p: string): (r: string)
    ensures r != ""
    ensures IsAbs(p) ==> IsAbs(r)
  {
    var joined := Slashes(InitialSlashes(p)) + JoinWith("/", Components(p));
    if joined == "" then "." else joined
  }

  /** `os.path.join(a, b)` for two arguments. */
  function Join(a: string, b: string): string {
    if StartsWith(b, "/") then b
    else if a == "" || a[|a| - 1] == '/' then a + b
    else a + "/" + b
  }

  /** Joining a relative name: a separator goes in between exactly when `a`
      is non-empty and does not already end with one. */
  lemma JoinRelative(a: string, b: string)
    requires b == [] || b[0] != '/'
    ensures Join(a, b) == if a == [] || a[|a| - 1] == '/' then a + b else a + "/" + b
  {
  }

  /** `os.path.join(p, a, b, c)` for three relative names. */
  lemma JoinNames(p: string, a: string, b: string, c: string)
    requires a != [] && a[0] != '/' && a[|a| - 1] != '/'
    requires b != [] && b[0] != '/' && b[|b| - 1] != '/'
    requires c != [] && c[0] != '/'
    ensures p == [] || p[|p| - 1] == '/' ==> Join(Join(Join(p, a), b), c) == p + a + "/" + b + "/" + c
    ensures p != [] && p[|p| - 1] != '/' ==> Join(Join(Join(p, a), b), c) == p + "/" + a + "/" + b + "/" + c
  {
    var x := Join(p, a);
    JoinRelative(p, a);
    assert x[|x| - 1] == a[|a| - 1];
    JoinRelative(x, b);
    var y := Join(x, b);
    assert y[|y| - 1] == b[|b| - 1];
    JoinRelative(y, c);
  }

  /** The joined path ends with `b`; unless `b` is absolute it starts with
      `a`, and a separator is put between them exactly when `a` is non-empty
      and does not already end with one. */
  lemma JoinParts(a: string, b: string)
    ensures var r := Join(a, b);
      && |b| <= |r| && r[|r| - |b|..] == b
      && (!StartsWith(b, "/") ==> |a| <= |r| && r[..|a|] == a)
      && (!StartsWith(b, "/") ==>
            (|r| == |a| + 1 + |b| <==> a != "" && a[|a| - 1] != '/'))
      && (!StartsWith(b, "/") && |r| == |a| + 1 + |b| ==> r[|a|] == '/')
      && (!StartsWith(b, "/") ==> |r| == |a| + |b| || |r| == |a| + 1 + |b|)
  {
  }

  /** `os.path.join(p, '')`: `p` with exactly one separator added unless it already ends with one. */
  function WithTrailingSlash(p: string): string {
    Join(p, "")
  }

  // ---------------------------------------------------------------------------
  // What normalised components look like

  /** A component that survives normalisation of an absolute path. */
  predicate Segment(c: string) {
    c != "" && '/' !in c && c != "." && c != ".."
  }

  predicate Segments(cs: seq<string>) {
    forall k :: 0 <= k < |cs| ==> Segment(cs[k])
  }

  /** Components of any path are never empty and never contain a separator. */
  predicate Names(cs: seq<string>) {
    forall k :: 0 <= k < |cs| ==> cs[k] != "" && '/' !in cs[k]
  }

  lemma {:induction false} FoldAbsoluteSegments(comps: seq<string>, acc: seq<string>)
    requires Segments(acc)
    requires forall k :: 0 <= k < |comps| ==> '/' !in comps[k]
    ensures Segments(Fold(comps, true, acc))
    decreases |comps|
  {
    if comps != [] {
      FoldAbsoluteSegments(comps[1..], Step(comps[0], true, acc));
    }
  }

  lemma {:induction false} FoldNames(comps: seq<string>, absolute: bool, acc: seq<string>)
    requires Names(acc)
    requires forall k :: 0 <= k < |comps| ==> '/' !in comps[k]
    ensures Names(Fold(comps, absolute, acc))
    decreases |comps|
  {
    if comps != [] {
      FoldNames(comps[1..], absolute, Step(comps[0], absolute, acc));
    }
  }

  /** An absolute path normalises to segments only: no empty, `.` or `..` component is left. */
  lemma AbsoluteComponents(p: string)
    requires IsAbs(p)
    ensures Segments(Components(p))
  {
    FoldAbsoluteSegments(SplitOn('/', p), []);
  }

  lemma ComponentNames(p: string)
    ensures Names(Components(p))
  {
    FoldNames(SplitOn('/', p), IsAbs(p), []);
  }

  lemma {:induction false} FoldAppend(xs: seq<string>, ys: seq<string>, absolute: bool, acc: seq<string>)
    ensures Fold(xs + ys, absolute, acc) == Fold(ys, absolute, Fold(xs, absolute, acc))
    decreases |xs|
  {
    if xs == [] {
      assert xs + ys == ys;
    } else {
      assert (xs + ys)[1..] == xs[1..] + ys;
      FoldAppend(xs[1..], ys, absolute, Step(xs[0], absolute, acc));
    }
  }

  lemma {:induction false} FoldSegments(cs: seq<string>, absolute: bool, acc: seq<string>)
    requires Segments(cs)
    ensures Fold(cs, absolute, acc) == acc + cs
    decreases |cs|
  {
    if cs == [] {
      assert acc + cs == acc;
    } else {
      assert Segment(cs[0]);
      FoldSegments(cs[1..], absolute, acc + [cs[0]]);
      assert acc + [cs[0]] + cs[1..] == acc + cs;
    }
  }

  // ---------------------------------------------------------------------------
  // Paths with a trailing separator, component by component

  /** `c1/c2/.../cn/`: every component followed by a separator. */
  function JoinTrail(cs: seq<string>): string
    decreases |cs|
  {
    if cs == [] then "" else cs[0] + "/" + JoinTrail(cs[1..])
  }

  lemma {:induction false} JoinWithThenSlash(cs: seq<string>)
    requires |cs| > 0
    ensures JoinWith("/", cs) + "/" == JoinTrail(cs)
    ensures JoinWith("/", cs) == JoinTrail(cs[..|cs| - 1]) + cs[|cs| - 1]
    decreases |cs|
  {
    if |cs| > 1 {
      JoinWithThenSlash(cs[1..]);
      assert cs[1..][..|cs| - 2] == cs[1..|cs| - 1];
      assert cs[..|cs| - 1] == [cs[0]] + cs[1..|cs| - 1];
      assert cs[..|cs| - 1][1..] == cs[1..|cs| - 1];
    } else {
      assert cs[..0] == [];
    }
  }

  lemma NormalisedWithTrailingSlash(p: string)
    requires IsAbs(p)
    ensures WithTrailingSlash(NormPath(p)) == Slashes(InitialSlashes(p)) + JoinTrail(Components(p))
  {
    var cs := Components(p);
    AbsoluteComponents(p);
    var lead := Slashes(InitialSlashes(p));
    if cs == [] {
      assert NormPath(p) == lead;
    } else {
      JoinWithThenSlash(cs);
      var last := cs[|cs| - 1];
      assert Segment(last);
      var n := NormPath(p);
      assert n == lead + JoinTrail(cs[..|cs| - 1]) + last;
      assert n[|n| - 1] == last[|last| - 1];
      assert last[|last| - 1] in last;
      assert lead + JoinWith("/", cs) + "/" == lead + (JoinWith("/", cs) + "/");
    }
  }

  /** Two distinct separator-free names differ no later than one past the shorter. */
  lemma {:induction false} FirstDifference(x: string, y: string) returns (i: nat)
    requires '/' !in x && '/' !in y && x != y
    ensures i <= |x| && i <= |y| && (x + "/")[i] != (y + "/")[i]
    decreases |x|
  {
    if x == [] {
      assert y[0] in y;
      i := 0;
    } else if y == [] {
      assert x[0] in x;
      i := 0;
    } else if x[0] != y[0] {
      i := 0;
    } else {
      assert x == [x[0]] + x[1..] && y == [y[0]] + y[1..];
      assert forall c :: c in x[1..] ==> c in x;
      assert forall c :: c in y[1..] ==> c in y;
      var j := FirstDifference(x[1..], y[1..]);
      assert (x + "/")[j + 1] == (x[1..] + "/")[j];
      assert (y + "/")[j + 1] == (y[1..] + "/")[j];
      i := j + 1;
    }
  }

  /** The boundary rule: with a separator after every component, one path is a
      string prefix of the other exactly when its components are a prefix of
      the other's components. So `mnt/x/` is not a prefix of `mnt/xy/`. */
  lemma {:induction false} JoinTrailPrefix(a: seq<string>, b: seq<string>)
    requires Names(a) && Names(b)
    ensures JoinTrail(a) <= JoinTrail(b) <==> a <= b
    decreases |a|
  {
    if a == [] {
    } else if b == [] {
      assert |JoinTrail(a)| > 0;
    } else if a[0] == b[0] {
      JoinTrailPrefix(a[1..], b[1..]);
      SameHead(a, b);
    } else {
      DifferentHead(a, b);
    }
  }

  lemma SameHead(a: seq<string>, b: seq<string>)
    requires a != [] && b != [] && a[0] == b[0]
    ensures JoinTrail(a) <= JoinTrail(b) <==> JoinTrail(a[1..]) <= JoinTrail(b[1..])
    ensures a <= b <==> a[1..] <= b[1..]
  {
    var h := a[0] + "/";
    assert JoinTrail(a) == h + JoinTrail(a[1..]);
    assert JoinTrail(b) == h + JoinTrail(b[1..]);
    PrefixCancel(h, JoinTrail(a[1..]), JoinTrail(b[1..]));
    assert a == [a[0]] + a[1..] && b == [b[0]] + b[1..];
    PrefixCancel([a[0]], a[1..], b[1..]);
  }

  lemma DifferentHead(a: seq<string>, b: seq<string>)
    requires a != [] && b != [] && a[0] != b[0]
    requires '/' !in a[0] && '/' !in b[0]
    ensures !(JoinTrail(a) <= JoinTrail(b))
  {
    var i := FirstDifference(a[0], b[0]);
    var ha, hb := a[0] + "/", b[0] + "/";
    var ja, jb := JoinTrail(a), JoinTrail(b);
    assert ja == ha + JoinTrail(a[1..]);
    assert jb == hb + JoinTrail(b[1..]);
    assert ja[i] == ha[i];
    assert jb[i] == hb[i];
  }

  lemma PrefixCancel<T>(h: seq<T>, x: seq<T>, y: seq<T>)
    ensures h + x <= h + y <==> x <= y
  {
    if h + x <= h + y {
      assert (h + y)[..|h + x|] == h + x;
      assert forall k :: 0 <= k < |x| ==> x[k] == (h + x)[|h| + k] == (h + y)[|h| + k] == y[k];
    }
  }

  lemma JoinTrailFirst(cs: seq<string>)
    requires Names(cs) && cs != []
    ensures JoinTrail(cs)[0] != '/'
  {
    assert cs[0][0] in cs[0];
    assert JoinTrail(cs) == cs[0] + ("/" + JoinTrail(cs[1..]));
  }

  /** `WithTrailingSlash(NormPath(c))` starts with `WithTrailingSlash(NormPath(p))`,
      the test `MountFinder.below` applies to a candidate `c` and a query `p`. */
  predicate NormalisedPrefix(p: string, c: string) {
    StartsWith(WithTrailingSlash(NormPath(c)), WithTrailingSlash(NormPath(p)))
  }

  /** For absolute paths the prefix test on normalised, slash-terminated strings
      compares components: it holds exactly when both keep the same leading
      slashes and the components of `p` are a prefix of those of `c` (the one
      other case is the root `/` against a path starting with exactly `//`). */
  lemma NormalisedPrefixComponents(p: string, c: string)
    requires IsAbs(p) && IsAbs(c)
    ensures NormalisedPrefix(p, c) <==>
      (InitialSlashes(p) == InitialSlashes(c) && Components(p) <= Components(c))
      || (InitialSlashes(p) == 1 && InitialSlashes(c) == 2 && Components(p) == [])
  {
    NormalisedWithTrailingSlash(p);
    NormalisedWithTrailingSlash(c);
    AbsoluteComponents(p);
    AbsoluteComponents(c);
    LeadPrefix(InitialSlashes(p), Components(p), InitialSlashes(c), Components(c));
  }

  lemma LeadPrefix(lp: nat, pc: seq<string>, lc: nat, cc: seq<string>)
    requires 1 <= lp <= 2 && 1 <= lc <= 2
    requires Names(pc) && Names(cc)
    ensures Slashes(lp) + JoinTrail(pc) <= Slashes(lc) + JoinTrail(cc) <==>
      (lp == lc && pc <= cc) || (lp == 1 && lc == 2 && pc == [])
  {
    JoinTrailPrefix(pc, cc);
    if lp == lc {
      PrefixCancel(Slashes(lp), JoinTrail(pc), JoinTrail(cc));
    } else if lp == 1 {
      LeadPrefixOneTwo(pc, cc);
    } else {
      LeadPrefixTwoOne(pc, cc);
    }
  }

  /** One leading slash against two: only the bare root `/` is a prefix. */
  lemma LeadPrefixOneTwo(pc: seq<string>, cc: seq<string>)
    requires Names(pc)
    ensures "/" + JoinTrail(pc) <= "//" + JoinTrail(cc) <==> pc == []
  {
    assert "//" + JoinTrail(cc) == "/" + ("/" + JoinTrail(cc));
    PrefixCancel("/", JoinTrail(pc), "/" + JoinTrail(cc));
    if pc != [] { JoinTrailFirst(pc); }
  }

  /** Two leading slashes are never a prefix of a path with one. */
  lemma LeadPrefixTwoOne(pc: seq<string>, cc: seq<string>)
    requires Names(cc)
    ensures !("//" + JoinTrail(pc) <= "/" + JoinTrail(cc))
  {
    assert "//" + JoinTrail(pc) == "/" + ("/" + JoinTrail(pc));
    PrefixCancel("/", "/" + JoinTrail(pc), JoinTrail(cc));
    if cc != [] { JoinTrailFirst(cc); }
  }

  /** ... and the two normalised, slash-terminated strings are equal exactly
      when the leading slashes and the components agree. */
  lemma NormalisedEqualComponents(p: string, c: string)
    requires IsAbs(p) && IsAbs(c)
    ensures WithTrailingSlash(NormPath(c)) == WithTrailingSlash(NormPath(p)) <==>
      InitialSlashes(p) == InitialSlashes(c) && Components(p) == Components(c)
  {
    NormalisedPrefixComponents(p, c);
    NormalisedPrefixComponents(c, p);
    var wp, wc := WithTrailingSlash(NormPath(p)), WithTrailingSlash(NormPath(c));
    assert wp == wc <==> wp <= wc && wc <= wp;
  }

  /** A relative query normalises to something that does not start with a
      separator, so no absolute path is ever below it. */
  lemma RelativeNeverPrefix(p: string, c: string)
    requires !IsAbs(p) && IsAbs(c)
    ensures !NormalisedPrefix(p, c)
  {
    var cs := Components(p);
    ComponentNames(p);
    var n := NormPath(p);
    if cs == [] {
      assert n == ".";
    } else {
      assert cs[0][0] in cs[0];
      if |cs| == 1 {
        assert n == cs[0];
      } else {
        assert n == cs[0] + ("/" + JoinWith("/", cs[1..]));
      }
      assert n[0] == cs[0][0];
    }
    var w := WithTrailingSlash(n);
    assert w[0] == n[0];
    NormalisedWithTrailingSlash(c);
    var wc := WithTrailingSlash(NormPath(c));
    assert wc[0] == '/';
  }

  // ---------------------------------------------------------------------------
  // Normalising again

  lemma {:induction false} SplitJoinTrail(cs: seq<string>)
    requires Names(cs)
    ensures SplitOn('/', JoinTrail(cs)) == cs + [""]
    decreases |cs|
  {
    if cs != [] {
      SplitJoinTrail(cs[1..]);
      SplitOnAppend('/', cs[0], JoinTrail(cs[1..]));
      assert [cs[0]] + (cs[1..] + [""]) == cs + [""];
    }
  }

  /** `/c1/.../cn`. */
  function AbsolutePath(cs: seq<string>): string {
    "/" + JoinWith("/", cs)
  }

  /** A path already in normal form is its own normal form: `/c1/.../cn` keeps
      one leading slash and exactly the components `c1`, ..., `cn`. */
  lemma NormalForm(cs: seq<string>)
    requires Segments(cs)
    ensures var p := AbsolutePath(cs);
      IsAbs(p) && InitialSlashes(p) == 1 && Components(p) == cs && NormPath(p) == p
  {
    var j := JoinWith("/", cs);
    var p := "/" + j;
    assert p[0] == '/' && p[1..] == j;
    if cs == [] {
      assert SplitOn('/', j) == [""];
    } else {
      assert Segment(cs[0]) && cs[0][0] in cs[0];
      if |cs| > 1 {
        assert j == cs[0] + ("/" + JoinWith("/", cs[1..]));
      }
      assert p[1] == j[0] == cs[0][0];
      SplitJoin('/', cs);
    }
    assert SplitOn('/', p) == [""] + SplitOn('/', j);
    FoldAppend([""], SplitOn('/', j), true, []);
    FoldSegments(cs, true, []);
  }

  /** What `below` yields: normalising the slash-terminated normal form of an
      absolute path gives back its normal form, without the trailing separator. */
  lemma NormPathOfWithTrailingSlash(c: string)
    requires IsAbs(c)
    ensures NormPath(WithTrailingSlash(NormPath(c))) == NormPath(c)
  {
    NormalisedWithTrailingSlash(c);
    AbsoluteComponents(c);
    RenormaliseLead(InitialSlashes(c), Components(c));
  }

  lemma RenormaliseLead(l: nat, cs: seq<string>)
    requires 1 <= l <= 2 && Segments(cs)
    ensures InitialSlashes(Slashes(l) + JoinTrail(cs)) == l
    ensures Components(Slashes(l) + JoinTrail(cs)) == cs
  {
    var w := Slashes(l) + JoinTrail(cs);
    if cs != [] { JoinTrailFirst(cs); assert w[l] == JoinTrail(cs)[0]; }
    SplitLead(l, cs);
    var empties := if l == 1 then [""] else ["", ""];
    FoldAppend(empties, cs + [""], true, []);
    FoldAppend(cs, [""], true, []);
    FoldSegments(cs, true, []);
    assert Fold(empties, true, []) == [];
  }

  lemma SplitLead(l: nat, cs: seq<string>)
    requires 1 <= l <= 2 && Names(cs)
    ensures SplitOn('/', Slashes(l) + JoinTrail(cs)) == (if l == 1 then [""] else ["", ""]) + (cs + [""])
  {
    var t := JoinTrail(cs);
    var parts := cs + [""];
    SplitJoinTrail(cs);
    SplitOnLeadingSep('/', t);
    assert SplitOn('/', ['/'] + t) == [""] + parts;
    if l == 2 {
      SplitOnLeadingSep('/', ['/'] + t);
      assert Slashes(l) + t == ['/'] + (['/'] + t);
      assert [""] + ([""] + parts) == ["", ""] + parts;
    } else {
      assert Slashes(l) + t == ['/'] + t;
    }
  }
}
