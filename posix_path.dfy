/**
 * The POSIX path operations the page-link resolver relies on: `dirname`,
 * `join` and the normalisation `join` ends with (`.` and empty segments
 * dropped, `..` folded into its parent).
 */
module PosixPath {

  const SEP := '/'

  /** `s.split('/')`: always at least one segment. */
  function Split(s: string): (r: seq<string>)
    ensures |r| >= 1
    decreases |s|
  {
    if |s| == 0 then [""]
    else
      var t := Split(s[1..]);
      if s[0] == SEP then [""] + t else [[s[0]] + t[0]] + t[1..]
  }

  /** No segment of a split contains the separator. */
  lemma {:induction false} SplitNoSep(s: string)
    ensures forall i :: 0 <= i < |Split(s)| ==> SEP !in Split(s)[i]
    decreases |s|
  {
    if |s| > 0 {
      SplitNoSep(s[1..]);
      var t := Split(s[1..]);
      if s[0] != SEP {
        assert SEP !in [s[0]] + t[0];
        assert forall i :: 1 <= i < |t| ==> SEP !in t[i];
      }
    }
  }

  /** `segs.join('/')`. */
  function JoinSegs(segs: seq<string>): string
    decreases |segs|
  {
    if |segs| == 0 then ""
    else if |segs| == 1 then segs[0]
    else segs[0] + [SEP] + JoinSegs(segs[1..])
  }

  /** A segment that normalisation keeps as it is. */
  predicate Plain(seg: string)
  {
    seg != "" && seg != "." && seg != ".." && SEP !in seg
  }

  /**
   * The segments of a normalised path: plain names, and for a relative path
   * leading `..`s that climb above its start.
   */
  ghost predicate Normal(segs: seq<string>, absolute: bool)
  {
    && (forall i :: 0 <= i < |segs| ==> Plain(segs[i]) || (!absolute && segs[i] == ".."))
    && (forall i, j :: 0 <= i < j < |segs| && segs[j] == ".." ==> segs[i] == "..")
  }

  /** One segment of the normalising scan over the segments kept so far. */
  function Step(kept: seq<string>, seg: string, absolute: bool): seq<string>
  {
    if seg == "" || seg == "." then kept
    else if seg == ".." then
      if |kept| > 0 && kept[|kept| - 1] != ".." then kept[..|kept| - 1]
      else if absolute then kept   // nothing lies above the root
      else kept + [".."]
    else kept + [seg]
  }

  function NormFrom(kept: seq<string>, segs: seq<string>, absolute: bool): seq<string>
    decreases |segs|
  {
    if segs == [] then kept else NormFrom(Step(kept, segs[0], absolute), segs[1..], absolute)
  }

  /** `path.normalize(p)`: never empty, and absolute exactly when `p` is. */
  function Normalize(p: string): (r: string)
    ensures r != ""
    ensures p != "" ==> (r[0] == SEP <==> p[0] == SEP)
  {
    if p == "" then "."
    else
      var absolute := p[0] == SEP;
      var trailing := p[|p| - 1] == SEP;
      var segs := NormFrom([], Split(p), absolute);
      if segs == [] then (if absolute then "/" else if trailing then "./" else ".")
      else
        ScannedNormal(p, absolute);
        FramedEnds(segs, absolute, trailing);
        (if absolute then "/" else "") + JoinSegs(segs) + (if trailing then "/" else "")
  }

  /** The segments the scan keeps from any path are in normal form. */
  lemma ScannedNormal(p: string, absolute: bool)
    ensures Normal(NormFrom([], Split(p), absolute), absolute)
  {
    SplitNoSep(p);
    NormFromNormal([], Split(p), absolute);
  }

  /**
   * `path.join(a, b)`: the non-empty arguments joined with `/`, then
   * normalised. The result is never empty, and it is absolute exactly when
   * its first non-empty argument is.
   */
  function Join(a: string, b: string): (r: string)
    ensures r != ""
    ensures a != "" ==> (r[0] == SEP <==> a[0] == SEP)
    ensures a == "" && b != "" ==> (r[0] == SEP <==> b[0] == SEP)
  {
    if a == "" && b == "" then "."
    else if a == "" then Normalize(b)
    else if b == "" then Normalize(a)
    else Normalize(a + [SEP] + b)
  }

  /**
   * Scanning down from index `i` towards 1: the index of the separator that
   * ends the directory part, or -1. `matchedSlash` holds while only
   * separators (the trailing ones) have been seen.
   */
  function DirEnd(p: string, i: int, matchedSlash: bool): (r: int)
    requires i < |p|
    ensures r == -1 || 1 <= r <= i
    decreases i
  {
    if i < 1 then -1
    else if p[i] == SEP then (if !matchedSlash then i else DirEnd(p, i - 1, matchedSlash))
    else DirEnd(p, i - 1, false)
  }

  /**
   * `path.dirname(p)`: never empty, absolute exactly when `p` is, and either
   * one of the fixed answers `.`, `/`, `//` or a proper prefix of `p`.
   */
  function Dirname(p: string): (r: string)
    ensures r != ""
    ensures p != "" ==> (r[0] == SEP <==> p[0] == SEP)
    ensures r == "." || r == "/" || r == "//" || (|r| < |p| && r == p[..|r|])
  {
    if |p| == 0 then "."
    else
      var hasRoot := p[0] == SEP;
      var end := DirEnd(p, |p| - 1, true);
      if end == -1 then (if hasRoot then "/" else ".")
      else if hasRoot && end == 1 then "//"
      else p[..end]
  }

  // ---------------------------------------------------------------------
  // Splitting and joining

  lemma {:induction false} SplitConcat(x: string, y: string)
    ensures Split(x + [SEP] + y) == Split(x) + Split(y)
    decreases |x|
  {
    if x == [] {
      assert x + [SEP] + y == [SEP] + y;
      assert ([SEP] + y)[1..] == y;
    } else {
      assert (x + [SEP] + y)[1..] == x[1..] + [SEP] + y;
      SplitConcat(x[1..], y);
    }
  }

  lemma {:induction false} SplitPlain(x: string)
    requires SEP !in x
    ensures Split(x) == [x]
    decreases |x|
  {
    if x != [] {
      SplitPlain(x[1..]);
      assert x == [x[0]] + x[1..];
    }
  }

  /** Splitting undoes joining, for segments without separators. */
  lemma {:induction false} SplitJoin(segs: seq<string>)
    requires |segs| >= 1 && forall i :: 0 <= i < |segs| ==> SEP !in segs[i]
    ensures Split(JoinSegs(segs)) == segs
    decreases |segs|
  {
    if |segs| == 1 {
      SplitPlain(segs[0]);
    } else {
      SplitPlain(segs[0]);
      SplitJoin(segs[1..]);
      SplitConcat(segs[0], JoinSegs(segs[1..]));
    }
  }

  /** Joining non-empty segments gives a string that starts and ends inside the first and last segment. */
  lemma {:induction false} JoinSegsEnds(segs: seq<string>)
    requires |segs| >= 1 && forall i :: 0 <= i < |segs| ==> segs[i] != ""
    ensures var s := JoinSegs(segs); var l := segs[|segs| - 1];
      |s| > 0 && s[0] == segs[0][0] && s[|s| - 1] == l[|l| - 1]
    decreases |segs|
  {
    if |segs| > 1 {
      JoinSegsEnds(segs[1..]);
    }
  }

  lemma {:induction false} JoinSegsAppend(segs: seq<string>, last: string)
    requires |segs| >= 1
    ensures JoinSegs(segs + [last]) == JoinSegs(segs) + [SEP] + last
    decreases |segs|
  {
    if |segs| == 1 {
      assert segs + [last] == [segs[0], last];
    } else {
      assert (segs + [last])[1..] == segs[1..] + [last];
      JoinSegsAppend(segs[1..], last);
    }
  }

  // ---------------------------------------------------------------------
  // The normalising scan

  lemma {:induction false} NormFromConcat(kept: seq<string>, a: seq<string>, b: seq<string>, absolute: bool)
    ensures NormFrom(kept, a + b, absolute) == NormFrom(NormFrom(kept, a, absolute), b, absolute)
    decreases |a|
  {
    if a == [] {
      assert a + b == b;
    } else {
      assert (a + b)[1..] == a[1..] + b;
      NormFromConcat(Step(kept, a[0], absolute), a[1..], b, absolute);
    }
  }

  /** Each step keeps the segments kept so far in normal form. */
  lemma StepNormal(kept: seq<string>, seg: string, absolute: bool)
    requires Normal(kept, absolute) && SEP !in seg
    ensures Normal(Step(kept, seg, absolute), absolute)
  {
    if seg == ".." && !(|kept| > 0 && kept[|kept| - 1] != "..") && !absolute {
      var r := kept + [".."];
      forall i, j | 0 <= i < j < |r| && r[j] == ".." ensures r[i] == ".." {
        if j < |kept| {
        } else if |kept| > 0 {
          assert kept[|kept| - 1] == "..";
        }
      }
    }
  }

  /** The scan produces normal segments. */
  lemma {:induction false} NormFromNormal(kept: seq<string>, segs: seq<string>, absolute: bool)
    requires Normal(kept, absolute) && forall i :: 0 <= i < |segs| ==> SEP !in segs[i]
    ensures Normal(NormFrom(kept, segs, absolute), absolute)
    decreases |segs|
  {
    if segs != [] {
      StepNormal(kept, segs[0], absolute);
      NormFromNormal(Step(kept, segs[0], absolute), segs[1..], absolute);
    }
  }

  /** Segments already in normal form pass through the scan unchanged. */
  lemma {:induction false} NormFromIdentity(kept: seq<string>, segs: seq<string>, absolute: bool)
    requires Normal(kept + segs, absolute)
    ensures NormFrom(kept, segs, absolute) == kept + segs
    decreases |segs|
  {
    if segs != [] {
      var seg := segs[0];
      assert (kept + segs)[|kept|] == seg;
      if seg == ".." {
        assert !absolute;
        forall i | 0 <= i < |kept| ensures kept[i] == ".." {
          assert (kept + segs)[i] == kept[i];
        }
      }
      assert Step(kept, seg, absolute) == kept + [seg];
      assert kept + segs == (kept + [seg]) + segs[1..];
      NormFromIdentity(kept + [seg], segs[1..], absolute);
    }
  }

  // ---------------------------------------------------------------------
  // Normalisation

  /** Normalising a path that is already normalised gives it back. */
  lemma NormalizeIdempotent(p: string)
    ensures Normalize(Normalize(p)) == Normalize(p)
  {
    if p != "" {
      var absolute := p[0] == SEP;
      var trailing := p[|p| - 1] == SEP;
      var segs := NormFrom([], Split(p), absolute);
      SplitNoSep(p);
      NormFromNormal([], Split(p), absolute);
      if segs == [] {
        NormalizeShortForms();
      } else {
        RenderedNormalizes(segs, absolute, trailing);
      }
    } else {
      NormalizeShortForms();
    }
  }

  lemma NormalizeShortForms()
    ensures Normalize(".") == "."
    ensures Normalize("./") == "./"
    ensures Normalize("/") == "/"
  {
    SplitPlain(".");
    SplitConcat("", "");
    assert "" + [SEP] + "" == "/";
    SplitConcat(".", "");
    assert "." + [SEP] + "" == "./";
  }

  /** A trailing separator adds an empty last segment. */
  lemma SplitTrailing(body: string, trailing: bool)
    ensures Split(body + (if trailing then "/" else "")) == Split(body) + (if trailing then [""] else [])
  {
    if trailing {
      SplitConcat(body, "");
      assert body + "/" == body + [SEP] + "";
    } else {
      assert body + "" == body;
    }
  }

  /** A leading separator adds an empty first segment. */
  lemma SplitLeading(tail: string)
    ensures Split("/" + tail) == [""] + Split(tail)
  {
    SplitConcat("", tail);
    assert "/" + tail == "" + [SEP] + tail;
  }

  /** A non-empty normal segment list, written out with its root and trailing separator, normalises to itself. */
  lemma RenderedNormalizes(segs: seq<string>, absolute: bool, trailing: bool)
    requires segs != [] && Normal(segs, absolute)
    ensures var q := (if absolute then "/" else "") + JoinSegs(segs) + (if trailing then "/" else "");
      Normalize(q) == q
  {
    var q := (if absolute then "/" else "") + JoinSegs(segs) + (if trailing then "/" else "");
    FramedEnds(segs, absolute, trailing);
    FramedSegments(segs, absolute, trailing);
    assert q != "" && (q[0] == SEP <==> absolute) && (q[|q| - 1] == SEP <==> trailing);
    assert NormFrom([], Split(q), absolute) == segs;
  }

  /** The written-out path starts with a separator exactly when absolute and ends with one exactly when trailing. */
  lemma FramedEnds(segs: seq<string>, absolute: bool, trailing: bool)
    requires segs != [] && Normal(segs, absolute)
    ensures var q := (if absolute then "/" else "") + JoinSegs(segs) + (if trailing then "/" else "");
      q != "" && (q[0] == SEP <==> absolute) && (q[|q| - 1] == SEP <==> trailing)
  {
    var body := JoinSegs(segs);
    JoinSegsEnds(segs);
    assert SEP !in segs[0] && SEP !in segs[|segs| - 1];
    assert body[0] in segs[0];
    assert body[|body| - 1] in segs[|segs| - 1];
  }

  /** Normalising the written-out path recovers the segment list. */
  lemma FramedSegments(segs: seq<string>, absolute: bool, trailing: bool)
    requires segs != [] && Normal(segs, absolute)
    ensures var q := (if absolute then "/" else "") + JoinSegs(segs) + (if trailing then "/" else "");
      NormFrom([], Split(q), absolute) == segs
  {
    var front: seq<string> := if absolute then [""] else [];
    var back: seq<string> := if trailing then [""] else [];
    FramedSplit(segs, absolute, trailing);
    NormFromConcat([], front + segs, back, absolute);
    NormFromConcat([], front, segs, absolute);
    assert NormFrom([], front, absolute) == [];
    NormFromIdentity([], segs, absolute);
    assert [] + segs == segs;
  }

  /** The path without its root splits into the segments, and one empty segment more if it is trailing. */
  lemma BodySplit(segs: seq<string>, trailing: bool)
    requires |segs| >= 1 && forall i :: 0 <= i < |segs| ==> SEP !in segs[i]
    ensures Split(JoinSegs(segs) + (if trailing then "/" else "")) == segs + (if trailing then [""] else [])
  {
    SplitJoin(segs);
    SplitTrailing(JoinSegs(segs), trailing);
  }

  /** The written-out path splits into its segments, framed by an empty one per separator at either end. */
  lemma FramedSplit(segs: seq<string>, absolute: bool, trailing: bool)
    requires segs != [] && Normal(segs, absolute)
    ensures var q := (if absolute then "/" else "") + JoinSegs(segs) + (if trailing then "/" else "");
      Split(q) == (if absolute then [""] else []) + segs + (if trailing then [""] else [])
  {
    var body := JoinSegs(segs);
    var tail := body + (if trailing then "/" else "");
    BodySplit(segs, trailing);
    if absolute {
      SplitLeading(tail);
      assert "/" + body + (if trailing then "/" else "") == "/" + tail;
    } else {
      assert "" + body + (if trailing then "/" else "") == tail;
    }
  }

  // ---------------------------------------------------------------------
  // dirname and join on ordinary relative paths

  lemma {:induction false} DirEndScan(p: string, m: int, i: int)
    requires 1 <= m <= i < |p| && p[m] == SEP
    requires forall k :: m < k <= i ==> p[k] != SEP
    ensures DirEnd(p, i, false) == m
    decreases i
  {
    if i > m {
      DirEndScan(p, m, i - 1);
    }
  }

  /** The directory of `dir/name` is `dir`, for a file name without separators. */
  lemma DirnameOfChild(dir: string, name: string)
    requires dir != "" && dir[|dir| - 1] != SEP
    requires name != "" && SEP !in name
    ensures Dirname(dir + [SEP] + name) == dir
  {
    var p := dir + [SEP] + name;
    var m := |dir|;
    forall k | m < k < |p| ensures p[k] != SEP {
      assert p[k] == name[k - m - 1];
    }
    if m == 1 {
      assert p[0] == dir[0];
    }
    DirEndScan(p, m, |p| - 2);
    assert DirEnd(p, |p| - 1, true) == DirEnd(p, |p| - 2, false);
    assert p[..m] == dir;
  }

  lemma {:induction false} DirEndNoSep(p: string, i: int, matchedSlash: bool)
    requires i < |p| && SEP !in p
    ensures DirEnd(p, i, matchedSlash) == -1
    decreases i
  {
    if i >= 1 {
      assert p[i] != SEP;
      DirEndNoSep(p, i - 1, false);
    }
  }

  /** A file at the top level, with no separator in its name, lies in the directory `.`. */
  lemma DirnameOfPlain(file: string)
    requires Plain(file)
    ensures Dirname(file) == "."
  {
    DirEndNoSep(file, |file| - 1, true);
  }

  /** A plain name is already normalised. */
  lemma PlainNormalizes(name: string)
    requires Plain(name)
    ensures Normalize(name) == name
  {
    SplitPlain(name);
    assert NormFrom([], [name], false) == [name];
  }

  /** `seg/name` splits into the two segments `seg` and `name`, as in `./name` and `../name`. */
  lemma SplitTwo(seg: string, name: string)
    requires SEP !in seg && Plain(name)
    ensures Split(seg + [SEP] + name) == [seg, name]
  {
    SplitPlain(seg);
    SplitPlain(name);
    SplitConcat(seg, name);
  }

  /** Two paths with the same root, the same trailing separator and the same scanned segments normalise alike. */
  lemma NormalizeAlike(p: string, q: string)
    requires p != "" && q != "" && (p[0] == SEP <==> q[0] == SEP) && (p[|p| - 1] == SEP <==> q[|q| - 1] == SEP)
    requires NormFrom([], Split(p), p[0] == SEP) == NormFrom([], Split(q), p[0] == SEP)
    ensures Normalize(p) == Normalize(q)
  {
  }

  lemma DotNameSegments(name: string)
    requires Plain(name)
    ensures NormFrom([], Split("." + [SEP] + name), false) == NormFrom([], Split(name), false)
  {
    SplitTwo(".", name);
    SplitPlain(name);
    assert [".", name][1..] == [name];
    assert NormFrom([], [".", name], false) == NormFrom([], [name], false);
  }

  /** Joining `.` with a plain name gives the name alone: the `.` segment is dropped. */
  lemma JoinDotName(name: string)
    requires Plain(name)
    ensures Join(".", name) == name
  {
    var p := "." + [SEP] + name;
    assert Join(".", name) == Normalize(p);
    DotNameSegments(name);
    assert p[0] != SEP && name[0] != SEP && p[|p| - 1] == name[|name| - 1];
    NormalizeAlike(p, name);
    PlainNormalizes(name);
  }

  /** A leading `./` on a plain name makes no difference to a join. */
  lemma JoinDotSlash(d: string, name: string)
    requires Plain(name)
    ensures Join(d, "./" + name) == Join(d, name)
  {
    var arg := "." + [SEP] + name;
    assert "./" + name == arg;
    if d == "" {
      JoinDotName(name);
      PlainNormalizes(name);
    } else {
      var p := d + [SEP] + arg;
      var q := d + [SEP] + name;
      DotSegmentDropped(d, name, d[0] == SEP);
      assert p[0] == d[0] && q[0] == d[0];
      assert p[|p| - 1] == name[|name| - 1] && q[|q| - 1] == name[|name| - 1];
      NormalizeAlike(p, q);
    }
  }

  /** After any directory, the scan drops a `.` segment in front of a plain name. */
  lemma DotSegmentDropped(d: string, name: string, absolute: bool)
    requires Plain(name)
    ensures NormFrom([], Split(d + [SEP] + ("." + [SEP] + name)), absolute)
         == NormFrom([], Split(d + [SEP] + name), absolute)
  {
    SplitTwo(".", name);
    SplitPlain(name);
    SplitConcat(d, "." + [SEP] + name);
    SplitConcat(d, name);
    NormFromConcat([], Split(d), [".", name], absolute);
    NormFromConcat([], Split(d), [name], absolute);
    var kept := NormFrom([], Split(d), absolute);
    assert [".", name][1..] == [name];
    assert NormFrom(kept, [".", name], absolute) == NormFrom(kept, [name], absolute);
  }

  /** Joining a normalised relative directory with a plain file name just puts a separator between them. */
  lemma JoinPlainName(segs: seq<string>, name: string)
    requires segs != [] && Normal(segs, false) && Plain(name)
    ensures Join(JoinSegs(segs), name) == JoinSegs(segs) + [SEP] + name
  {
    JoinSegsEnds(segs);
    JoinSegsAppend(segs, name);
    var all := segs + [name];
    assert Normal(all, false) by {
      forall i, j | 0 <= i < j < |all| && all[j] == ".." ensures all[i] == ".." {
        assert j < |segs|;
      }
    }
    RenderedNormalizes(all, false, false);
    assert "" + JoinSegs(all) + "" == JoinSegs(all);
  }

  /** `../name` from inside `dir/sub` is `dir/name`: the `..` cancels the last plain segment. */
  lemma JoinParentName(segs: seq<string>, sub: string, name: string)
    requires Normal(segs + [sub], false) && Plain(sub) && Plain(name)
    ensures Join(JoinSegs(segs + [sub]), ".." + [SEP] + name) == JoinSegs(segs + [name])
  {
    var dir := JoinSegs(segs + [sub]);
    var p := dir + [SEP] + (".." + [SEP] + name);
    ParentPathShape(segs, sub, name);
    ParentSegments(segs, sub, name);
    var all := segs + [name];
    assert Normal(all, false) by {
      forall i | 0 <= i < |segs| ensures Plain(all[i]) || all[i] == ".." {
        assert all[i] == (segs + [sub])[i];
      }
      forall i, j | 0 <= i < j < |all| && all[j] == ".." ensures all[i] == ".." {
        assert all[i] == (segs + [sub])[i];
        assert (segs + [sub])[j] == "..";
      }
    }
    RenderedNormalizes(all, false, false);
    assert "" + JoinSegs(all) + "" == JoinSegs(all);
  }

  lemma ParentPathShape(segs: seq<string>, sub: string, name: string)
    requires Normal(segs + [sub], false) && Plain(sub) && Plain(name)
    ensures var dir := JoinSegs(segs + [sub]);
      var p := dir + [SEP] + (".." + [SEP] + name);
      dir != "" && p[0] != SEP && p[|p| - 1] != SEP && Join(dir, ".." + [SEP] + name) == Normalize(p)
  {
    var dirSegs := segs + [sub];
    JoinSegsEnds(dirSegs);
    var dir := JoinSegs(dirSegs);
    assert SEP !in dirSegs[0];
    assert dir[0] in dirSegs[0];
    var p := dir + [SEP] + (".." + [SEP] + name);
    assert p[0] == dir[0];
    assert p[|p| - 1] == name[|name| - 1];
  }

  /** Normalising the directory's segments followed by `..` and `name` replaces the last one by `name`. */
  lemma ParentFolds(segs: seq<string>, sub: string, name: string)
    requires Normal(segs + [sub], false) && Plain(sub) && Plain(name)
    ensures NormFrom([], segs + [sub] + ["..", name], false) == segs + [name]
  {
    var dirSegs := segs + [sub];
    NormFromConcat([], dirSegs, ["..", name], false);
    NormFromIdentity([], dirSegs, false);
    assert [] + dirSegs == dirSegs;
    assert dirSegs[..|dirSegs| - 1] == segs;
    assert Step(dirSegs, "..", false) == segs;
    assert NormFrom(dirSegs, ["..", name], false) == NormFrom(segs, [name], false);
    assert NormFrom(segs, [name], false) == NormFrom(segs + [name], [], false);
  }

  lemma ParentSegments(segs: seq<string>, sub: string, name: string)
    requires Normal(segs + [sub], false) && Plain(sub) && Plain(name)
    ensures var p := JoinSegs(segs + [sub]) + [SEP] + (".." + [SEP] + name);
      NormFrom([], Split(p), false) == segs + [name]
  {
    var dirSegs := segs + [sub];
    var dir := JoinSegs(dirSegs);
    var arg := ".." + [SEP] + name;
    SplitJoin(dirSegs);
    SplitTwo("..", name);
    SplitConcat(dir, arg);
    ParentFolds(segs, sub, name);
  }
}
