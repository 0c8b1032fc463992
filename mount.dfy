/** The mount-table resolver of `image_bootstrap/mount.py`: a parser for lines
    of the kernel's `/proc/<pid>/mountinfo` table, a `MountFinder` that
    collects the mount path of every line, and `below`, which lists the
    collected mount points at or under a directory, comparing normalised paths
    at separator boundaries. */
module Mount {
  import opened Wrappers
  import opened Text
  import opened PosixPath
  import opened Sequences

  // ---------------------------------------------------------------------------
  // The line grammar `_PROC_PID_MOUNTINFO_LINE`:
  //   mount_id ' ' parent_id ' ' major ':' minor ' ' root ' ' mount ' ' rest
  // numbers are `[0-9]+`, root and mount are `/[^ ]*` (a space inside a path is
  // written `\040`), and rest is `.+` up to the end of the line.

  /** The groups the grammar captures, and the remainder `.+` matches. */
  datatype MountInfoLine = MountInfoLine(
    mountId: string, parentId: string, major: string, minor: string,
    root: string, mount: string, rest: string)

  datatype FieldKind = Number | PathField

  /** A character that may continue a field: a digit in `[0-9]+`, a non-space in `/[^ ]*`. */
  predicate InField(kind: FieldKind, c: char) {
    match kind
    case Number => IsDigit(c)
    case PathField => c != ' '
  }

  /** A character that may begin a field. */
  predicate BeginsField(kind: FieldKind, c: char) {
    match kind
    case Number => IsDigit(c)
    case PathField => c == '/'
  }

  predicate AllInField(kind: FieldKind, s: string) {
    forall k :: 0 <= k < |s| ==> InField(kind, s[k])
  }

  /** A well-formed value of one field: non-empty, with a proper first character. */
  predicate FieldValue(kind: FieldKind, s: string) {
    s != [] && BeginsField(kind, s[0]) && AllInField(kind, s)
  }

  /** How many leading characters of `s` the field's greedy repetition consumes. */
  function RunLength(s: string, kind: FieldKind): (n: nat)
    ensures n <= |s|
    ensures forall k :: 0 <= k < n ==> InField(kind, s[k])
    ensures n == |s| || !InField(kind, s[n])
    decreases |s|
  {
    if s == [] || !InField(kind, s[0]) then 0 else 1 + RunLength(s[1..], kind)
  }

  lemma {:induction false} RunLengthOf(x: string, y: string, kind: FieldKind)
    requires AllInField(kind, x)
    requires y == [] || !InField(kind, y[0])
    ensures RunLength(x + y, kind) == |x|
    decreases |x|
  {
    if x == [] {
      assert x + y == y;
    } else {
      assert (x + y)[1..] == x[1..] + y;
      RunLengthOf(x[1..], y, kind);
    }
  }

  /** One captured group followed by its separator character: the value of the
      group and the rest of the line after the separator. The greedy
      repetition cannot stop anywhere but at the separator, so the match, when
      there is one, is unique. */
  function Field(s: string, kind: FieldKind, sep: char): Option<(string, string)> {
    var n := RunLength(s, kind);
    if n > 0 && BeginsField(kind, s[0]) && n < |s| && s[n] == sep then Some((s[..n], s[n + 1..]))
    else None
  }

  lemma FieldOf(x: string, sep: char, y: string, kind: FieldKind)
    requires FieldValue(kind, x) && !InField(kind, sep)
    ensures Field(x + ([sep] + y), kind, sep) == Some((x, y))
  {
    RunLengthOf(x, [sep] + y, kind);
    var s := x + ([sep] + y);
    assert s[..|x|] == x && s[|x| + 1..] == y;
  }

  lemma FieldSound(s: string, kind: FieldKind, sep: char)
    requires Field(s, kind, sep).Some?
    ensures FieldValue(kind, Field(s, kind, sep).value.0)
    ensures s == Field(s, kind, sep).value.0 + ([sep] + Field(s, kind, sep).value.1)
  {
    var n := RunLength(s, kind);
    assert s == s[..n] + ([s[n]] + s[n + 1..]);
  }

  /** `.+$` on what is left: at least one character and no newline, except that
      `$` also matches just before a newline that ends the string. */
  function Remainder(t: string): Option<string> {
    if t != [] && '\n' !in t then Some(t)
    else if |t| >= 2 && t[|t| - 1] == '\n' && '\n' !in t[..|t| - 1] then Some(t[..|t| - 1])
    else None
  }

  type FieldSpec = (FieldKind, char)

  /** The groups before the remainder, each with the character that ends it. */
  const LineFields: seq<FieldSpec> :=
    [(Number, ' '), (Number, ' '), (Number, ':'), (Number, ' '), (PathField, ' '), (PathField, ' ')]

  /** The groups the specs describe, matched one after the other from the
      start of `s`, and what follows the last separator. */
  function ParseFields(s: string, specs: seq<FieldSpec>): (r: Option<(seq<string>, string)>)
    ensures r.Some? ==> |r.value.0| == |specs|
    decreases |specs|
  {
    if specs == [] then Some(([], s))
    else match Field(s, specs[0].0, specs[0].1)
      case None => None
      case Some(f) =>
        match ParseFields(f.1, specs[1..])
        case None => None
        case Some(g) => Some(([f.0] + g.0, g.1))
  }

  /** The values `vs`, each followed by its separator, then `tail`. */
  function FormatFields(vs: seq<string>, specs: seq<FieldSpec>, tail: string): string
    requires |vs| == |specs|
    decreases |specs|
  {
    if specs == [] then tail else vs[0] + ([specs[0].1] + FormatFields(vs[1..], specs[1..], tail))
  }

  predicate FieldValues(vs: seq<string>, specs: seq<FieldSpec>)
    requires |vs| == |specs|
  {
    forall k :: 0 <= k < |specs| ==> FieldValue(specs[k].0, vs[k]) && !InField(specs[k].0, specs[k].1)
  }

  lemma {:induction false} ParseFormatFields(vs: seq<string>, specs: seq<FieldSpec>, tail: string)
    requires |vs| == |specs| && FieldValues(vs, specs)
    ensures ParseFields(FormatFields(vs, specs, tail), specs) == Some((vs, tail))
    decreases |specs|
  {
    if specs != [] {
      assert FieldValue(specs[0].0, vs[0]) && !InField(specs[0].0, specs[0].1);
      FieldOf(vs[0], specs[0].1, FormatFields(vs[1..], specs[1..], tail), specs[0].0);
      assert FieldValues(vs[1..], specs[1..]) by {
        forall k | 0 <= k < |specs[1..]|
          ensures FieldValue(specs[1..][k].0, vs[1..][k]) && !InField(specs[1..][k].0, specs[1..][k].1)
        {
          assert specs[1..][k] == specs[k + 1] && vs[1..][k] == vs[k + 1];
        }
      }
      ParseFormatFields(vs[1..], specs[1..], tail);
      assert [vs[0]] + vs[1..] == vs;
    }
  }

  lemma {:induction false} ParseFieldsSound(s: string, specs: seq<FieldSpec>)
    requires ParseFields(s, specs).Some?
    ensures var r := ParseFields(s, specs).value;
      FieldValues(r.0, specs) && s == FormatFields(r.0, specs, r.1)
    decreases |specs|
  {
    if specs != [] {
      var f := Field(s, specs[0].0, specs[0].1).value;
      FieldSound(s, specs[0].0, specs[0].1);
      var g := ParseFields(f.1, specs[1..]).value;
      ParseFieldsSound(f.1, specs[1..]);
      var vs := [f.0] + g.0;
      assert vs[0] == f.0 && vs[1..] == g.0;
      assert s == f.0 + ([specs[0].1] + f.1);
      assert !InField(specs[0].0, specs[0].1) by {
        var n := RunLength(s, specs[0].0);
        assert s[n] == specs[0].1;
      }
      forall k | 0 <= k < |specs| ensures FieldValue(specs[k].0, vs[k]) && !InField(specs[k].0, specs[k].1) {
        if k > 0 {
          assert specs[1..][k - 1] == specs[k] && g.0[k - 1] == vs[k];
        }
      }
    }
  }

  /** `.+$` accepts nothing but a non-empty newline-free rest, possibly followed by one newline. */
  lemma RemainderSound(t: string)
    requires Remainder(t).Some?
    ensures var r := Remainder(t).value; r != [] && '\n' !in r && (t == r || t == r + "\n")
  {
    if !(t != [] && '\n' !in t) {
      assert t == t[..|t| - 1] + "\n";
    }
  }

  /** `_PROC_PID_MOUNTINFO_LINE.match(line)`, with its groups. */
  function ParseMountInfoLine(line: string): Option<MountInfoLine> {
    match ParseFields(line, LineFields)
    case None => None
    case Some(r) =>
      match Remainder(r.1)
      case None => None
      case Some(rest) =>
        var vs := r.0;
        Some(MountInfoLine(vs[0], vs[1], vs[2], vs[3], vs[4], vs[5], rest))
  }

  function FieldsOf(m: MountInfoLine): seq<string> {
    [m.mountId, m.parentId, m.major, m.minor, m.root, m.mount]
  }

  /** The values the grammar can capture. */
  predicate WellFormed(m: MountInfoLine) {
    FieldValues(FieldsOf(m), LineFields) && m.rest != [] && '\n' !in m.rest
  }

  /** The line that holds exactly the fields of `m`, separated as the grammar requires. */
  function FormatMountInfoLine(m: MountInfoLine): string {
    FormatFields(FieldsOf(m), LineFields, m.rest)
  }

  /** Every well-formed record is recognised in the line that spells it out. */
  lemma ParseFormat(m: MountInfoLine)
    requires WellFormed(m)
    ensures ParseMountInfoLine(FormatMountInfoLine(m)) == Some(m)
  {
    ParseFormatFields(FieldsOf(m), LineFields, m.rest);
  }

  /** Conversely, a line the grammar accepts is exactly the spelling of the
      fields it captured, possibly followed by one newline. */
  lemma ParseSound(line: string)
    requires ParseMountInfoLine(line).Some?
    ensures WellFormed(ParseMountInfoLine(line).value)
    ensures var m := ParseMountInfoLine(line).value;
      line == FormatMountInfoLine(m) || line == FormatMountInfoLine(m) + "\n"
  {
    var r := ParseFields(line, LineFields).value;
    ParseFieldsSound(line, LineFields);
    RemainderSound(r.1);
    var m := ParseMountInfoLine(line).value;
    assert FieldsOf(m) == r.0;
    FormatFieldsTail(r.0, LineFields, m.rest);
  }

  /** The formatted text ends as its tail does. */
  lemma {:induction false} FormatFieldsLast(vs: seq<string>, specs: seq<FieldSpec>, tail: string)
    requires |vs| == |specs| && tail != []
    ensures var t := FormatFields(vs, specs, tail); |t| >= |tail| && t[|t| - 1] == tail[|tail| - 1]
    decreases |specs|
  {
    if specs != [] {
      FormatFieldsLast(vs[1..], specs[1..], tail);
    }
  }

  /** Appending to the tail appends to the formatted text. */
  lemma {:induction false} FormatFieldsTail(vs: seq<string>, specs: seq<FieldSpec>, tail: string)
    requires |vs| == |specs|
    ensures FormatFields(vs, specs, tail + "\n") == FormatFields(vs, specs, tail) + "\n"
    decreases |specs|
  {
    if specs != [] {
      FormatFieldsTail(vs[1..], specs[1..], tail);
    }
  }

  /** The mount path of an accepted line starts with `/` and holds no space:
      a space in a path stays escaped as `\040`. */
  lemma MountFieldShape(line: string)
    requires ParseMountInfoLine(line).Some?
    ensures var mount := ParseMountInfoLine(line).value.mount;
      IsAbs(mount) && ' ' !in mount
  {
    ParseSound(line);
    var mount := ParseMountInfoLine(line).value.mount;
    assert FieldValue(PathField, mount);
    assert forall k :: 0 <= k < |mount| ==> mount[k] != ' ';
  }

  // ---------------------------------------------------------------------------
  // `MountFinder.load`

  /** The mount path `load` takes from one line of the file (as the file
      iterator yields it, newline included): `rstrip()` removes trailing
      whitespace, then the grammar must match. */
  function MountOf(line: string): Option<string> {
    match ParseMountInfoLine(RStrip(line))
    case None => None
    case Some(m) => Some(m.mount)
  }

  predicate Accepted(line: string) {
    MountOf(line).Some?
  }

  /** The mount paths `load` appends for `lines`, in file order, up to the first
      line that does not match the grammar. */
  function MountsUpToFailure(lines: seq<string>): seq<string> {
    CollectUntilNone(lines, MountOf)
  }

  /** `load` keeps one mount path per line: when every line is accepted, the
      appended paths are the lines' mount fields, one for one, in file order;
      otherwise one path is appended for each line before the first rejected
      one, and that line is the one after them. */
  lemma MountsOnePerLine(lines: seq<string>)
    ensures |MountsUpToFailure(lines)| <= |lines|
    ensures |MountsUpToFailure(lines)| == |lines| <==> forall k :: 0 <= k < |lines| ==> Accepted(lines[k])
    ensures |MountsUpToFailure(lines)| < |lines| ==> !Accepted(lines[|MountsUpToFailure(lines)|])
    ensures forall k :: 0 <= k < |MountsUpToFailure(lines)| ==>
      ParseMountInfoLine(RStrip(lines[k])).Some?
      && MountsUpToFailure(lines)[k] == ParseMountInfoLine(RStrip(lines[k])).value.mount
  {
    CollectUntilNoneItems(lines, MountOf);
  }

  /** A mount path for every line means that every line was accepted. */
  lemma AllAccepted(lines: seq<string>)
    requires |MountsUpToFailure(lines)| == |lines|
    ensures forall k :: 0 <= k < |lines| ==> Accepted(lines[k])
  {
    CollectUntilNoneItems(lines, MountOf);
  }

  /** Every path `load` stores starts with `/` and contains no space. */
  lemma MountsAreAbsolute(lines: seq<string>)
    ensures forall x :: x in MountsUpToFailure(lines) ==> IsAbs(x) && ' ' !in x
  {
    MountsOnePerLine(lines);
    var ms := MountsUpToFailure(lines);
    forall x | x in ms ensures IsAbs(x) && ' ' !in x {
      var k :| 0 <= k < |ms| && ms[k] == x;
      MountFieldShape(RStrip(lines[k]));
    }
  }

  /** The exception `load` raises: for a line the grammar rejects, `match`
      returns `None` and `m.groupdict()` fails. */
  datatype LoadError = LineDoesNotMatch(index: nat)

  // ---------------------------------------------------------------------------
  // `MountFinder.below`

  /** What `below` yields for one stored candidate `c` and the query `p`. */
  function BelowOne(p: string, c: string, inclusive: bool): seq<string> {
    var prefix := WithTrailingSlash(NormPath(p));
    var normed := WithTrailingSlash(NormPath(c));
    if StartsWith(normed, prefix) && !(normed == prefix && !inclusive) then [NormPath(normed)] else []
  }

  /** What `below` yields over the candidates `cs`, in their order. */
  function BelowAll(cs: seq<string>, p: string, inclusive: bool): seq<string> {
    ConcatMap(cs, Selector(p, inclusive))
  }

  /** `BelowOne` for a fixed query, as a function of the candidate. */
  function Selector(p: string, inclusive: bool): string -> seq<string> {
    c => BelowOne(p, c, inclusive)
  }

  /** The selection rule stated on components: `c` is below `p` when the
      components of `p` are a prefix of those of `c` (with the same leading
      slashes, or `p` the root and `c` starting with exactly `//`), and `c`
      names `p` itself only if `inclusive`. */
  predicate SelectedBelow(p: string, c: string, inclusive: bool) {
    || (InitialSlashes(p) == InitialSlashes(c) && Components(p) <= Components(c)
        && (inclusive || Components(p) != Components(c)))
    || (InitialSlashes(p) == 1 && InitialSlashes(c) == 2 && Components(p) == [])
  }

  /** For absolute paths, `below` yields a candidate exactly when it is
      selected by components, and then yields its normal form (no trailing
      separator, no `.`, `..` or empty component). So `/mnt/xy` is never below
      `/mnt/x`, and the query path itself comes out only when `inclusive`. */
  lemma BelowOneSelects(p: string, c: string, inclusive: bool)
    requires IsAbs(p) && IsAbs(c)
    ensures BelowOne(p, c, inclusive) == if SelectedBelow(p, c, inclusive) then [NormPath(c)] else []
  {
    NormalisedPrefixComponents(p, c);
    NormalisedEqualComponents(p, c);
    NormPathOfWithTrailingSlash(c);
  }

  /** `below` keeps the stored order: the results for two lists one after the
      other are the results for the first, then those for the second. */
  lemma BelowAllAppend(xs: seq<string>, ys: seq<string>, p: string, inclusive: bool)
    ensures BelowAll(xs + ys, p, inclusive) == BelowAll(xs, p, inclusive) + BelowAll(ys, p, inclusive)
  {
    ConcatMapAppend(xs, ys, Selector(p, inclusive));
  }

  /** `below` over a single candidate. */
  lemma BelowAllSingle(c: string, p: string, inclusive: bool)
    ensures BelowAll([c], p, inclusive) == BelowOne(p, c, inclusive)
  {
    var f := Selector(p, inclusive);
    assert ConcatMap([c], f) == ConcatMap([c][..0], f) + f([c][0]);
    assert [c][..0] == [] && [c][0] == c;
    assert f(c) == BelowOne(p, c, inclusive);
  }

  /** A query with nothing below it yields the empty sequence, and only then. */
  lemma BelowAllEmpty(cs: seq<string>, p: string, inclusive: bool)
    requires IsAbs(p) && forall k :: 0 <= k < |cs| ==> IsAbs(cs[k])
    ensures BelowAll(cs, p, inclusive) == [] <==> forall k :: 0 <= k < |cs| ==> !SelectedBelow(p, cs[k], inclusive)
  {
    var f := Selector(p, inclusive);
    ConcatMapEmpty(cs, f);
    forall k | 0 <= k < |cs| ensures f(cs[k]) == [] <==> !SelectedBelow(p, cs[k], inclusive) {
      BelowOneSelects(p, cs[k], inclusive);
    }
  }

  /** A relative query yields nothing from absolute mount points. */
  lemma BelowRelative(cs: seq<string>, p: string, inclusive: bool)
    requires !IsAbs(p) && forall k :: 0 <= k < |cs| ==> IsAbs(cs[k])
    ensures BelowAll(cs, p, inclusive) == []
  {
    var f := Selector(p, inclusive);
    ConcatMapEmpty(cs, f);
    forall k | 0 <= k < |cs| ensures f(cs[k]) == [] {
      RelativeNeverPrefix(p, cs[k]);
    }
  }

  /** The situation the resolver exists for: a mount point whose last name
      merely starts with the query's last name (`/mnt/xy` against `/mnt/x`) is
      not below the query, a mount point inside it (`/mnt/x/boot`) is, and
      the query itself is added exactly when `inclusive`. */
  lemma SiblingSharingAPrefix(dir: seq<string>, name: string, child: string, suffix: string)
    requires Segments(dir) && Segment(name) && Segment(child) && suffix != [] && '/' !in suffix
    ensures var x, inside, sibling := AbsolutePath(dir + [name]), AbsolutePath(dir + [name, child]), AbsolutePath(dir + [name + suffix]);
      && BelowAll([x, inside, sibling], x, false) == [inside]
      && BelowAll([x, inside, sibling], x, true) == [x, inside]
  {
    var x, inside, sibling := AbsolutePath(dir + [name]), AbsolutePath(dir + [name, child]), AbsolutePath(dir + [name + suffix]);
    SiblingSelection(dir, name, child, suffix);
    BelowAllThree(x, inside, sibling, x, false);
    BelowAllThree(x, inside, sibling, x, true);
    BelowOneSelects(x, x, false);
    BelowOneSelects(x, inside, false);
    BelowOneSelects(x, sibling, false);
    BelowOneSelects(x, x, true);
    BelowOneSelects(x, inside, true);
    BelowOneSelects(x, sibling, true);
  }

  lemma SiblingSelection(dir: seq<string>, name: string, child: string, suffix: string)
    requires Segments(dir) && Segment(name) && Segment(child) && suffix != [] && '/' !in suffix
    ensures var x, inside, sibling := AbsolutePath(dir + [name]), AbsolutePath(dir + [name, child]), AbsolutePath(dir + [name + suffix]);
      && IsAbs(x) && IsAbs(inside) && IsAbs(sibling)
      && NormPath(x) == x && NormPath(inside) == inside
      && !SelectedBelow(x, x, false) && SelectedBelow(x, x, true)
      && SelectedBelow(x, inside, false) && SelectedBelow(x, inside, true)
      && !SelectedBelow(x, sibling, false) && !SelectedBelow(x, sibling, true)
  {
    var sib := name + suffix;
    assert Segment(sib) by {
      assert sib[0] == name[0];
      if |sib| <= 2 {
        assert |name| == 1 && name == [sib[0]];
      }
      assert forall c :: c in sib ==> c in name || c in suffix;
    }
    var cx, ci, cs := dir + [name], dir + [name, child], dir + [sib];
    assert Segments(cx) && Segments(ci) && Segments(cs);
    NormalForm(cx);
    NormalForm(ci);
    NormalForm(cs);
    assert cx <= ci && cx != ci;
    assert cx[|dir|] == name && cs[|dir|] == sib && |name| < |sib|;
  }

  lemma BelowAllThree(a: string, b: string, c: string, p: string, inclusive: bool)
    ensures BelowAll([a, b, c], p, inclusive) == BelowOne(p, a, inclusive) + BelowOne(p, b, inclusive) + BelowOne(p, c, inclusive)
  {
    BelowAllAppend([a, b], [c], p, inclusive);
    BelowAllAppend([a], [b], p, inclusive);
    BelowAllSingle(a, p, inclusive);
    BelowAllSingle(b, p, inclusive);
    BelowAllSingle(c, p, inclusive);
    assert [a, b] + [c] == [a, b, c] && [a] + [b] == [a, b];
  }

  /** A line as the kernel writes it, newline included, is loaded as its
      mount field (when its last field does not end in whitespace, which
      `rstrip()` would remove along with the newline). */
  lemma LoadsWrittenLine(m: MountInfoLine)
    requires WellFormed(m) && !IsWhitespace(m.rest[|m.rest| - 1])
    ensures MountOf(FormatMountInfoLine(m) + "\n") == Some(m.mount)
  {
    var line := FormatMountInfoLine(m);
    FormatFieldsLast(FieldsOf(m), LineFields, m.rest);
    assert (line + "\n")[..|line|] == line;
    assert RStrip(line + "\n") == line;
    ParseFormat(m);
  }

  /** `MountFinder`: the mount points read so far, in the order they were read. */
  class MountFinder {
    var mountPoints: seq<string>

    constructor ()
      ensures mountPoints == []
    {
      mountPoints := [];
    }

    /** `load(filename)` on the lines `for l in f` yields. Each accepted line
        appends its mount field to what is already stored; the first line the
        grammar rejects stops the loop with an error, keeping what was appended
        before it. Opening the file is not modelled: the lines are the input. */
    method Load(lines: seq<string>) returns (error: Option<LoadError>)
      modifies this
      ensures mountPoints == old(mountPoints) + MountsUpToFailure(lines)
      ensures error.None? <==> forall k :: 0 <= k < |lines| ==> Accepted(lines[k])
      ensures error.Some? ==>
        var k := error.value.index;
        k == |MountsUpToFailure(lines)| && k < |lines| && !Accepted(lines[k])
    {
      var i := 0;
      while i < |lines|
        invariant 0 <= i <= |lines|
        invariant |MountsUpToFailure(lines[..i])| == i
        invariant mountPoints == old(mountPoints) + MountsUpToFailure(lines[..i])
      {
        var m := MountOf(lines[i]);
        if m.None? {
          assert !Accepted(lines[i]);
          CollectUntilNoneStop(lines, i, MountOf);
          return Some(LineDoesNotMatch(i));
        }
        CollectUntilNoneStep(lines, i, MountOf);
        mountPoints := mountPoints + [m.value];
        i := i + 1;
      }
      assert lines[..i] == lines;
      AllAccepted(lines);
      return None;
    }

    /** `below(abs_path, inclusive)`: the stored mount points at or under
        `absPath`, normalised, in stored order. The stored list is only read. */
    method Below(absPath: string, inclusive: bool) returns (ys: seq<string>)
      ensures ys == BelowAll(mountPoints, absPath, inclusive)
    {
      var prefix := WithTrailingSlash(NormPath(absPath));
      ys := [];
      for i := 0 to |mountPoints|
        invariant ys == ConcatMap(mountPoints[..i], Selector(absPath, inclusive))
      {
        var normed := WithTrailingSlash(NormPath(mountPoints[i]));
        ConcatMapStep(mountPoints, i, Selector(absPath, inclusive));
        assert Selector(absPath, inclusive)(mountPoints[i]) == BelowOne(absPath, mountPoints[i], inclusive);
        if StartsWith(normed, prefix) {
          if normed == prefix && !inclusive {
            continue;
          }
          ys := ys + [NormPath(normed)];
        }
      }
      assert mountPoints[..|mountPoints|] == mountPoints;
    }
  }
}
