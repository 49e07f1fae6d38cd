/**
 * POSIX path strings as Node's `path` module and `String.prototype.split("/")` treat them.
 * An absolute location is a sequence of segments; `[]` is the filesystem root "/".
 */
module Paths {

  type Path = seq<string>

  /** A segment that can name a directory entry: non-empty, not "." or "..", no separator. */
  predicate ValidName(s: string)
  {
    s != "" && s != "." && s != ".." && '/' !in s
  }

  /** A name a file system can store: a proper name without the NUL character. */
  predicate EntryName(s: string)
  {
    ValidName(s) && '\0' !in s
  }

  /** No segment of `p` holds a NUL character, which every `fs` call that validates its path refuses. */
  predicate NulFree(p: Path)
  {
    forall i :: 0 <= i < |p| ==> '\0' !in p[i]
  }

  /** Every segment of `p` is a real entry name: no ".", "..", or empty segments. */
  predicate Normal(p: Path)
  {
    forall i :: 0 <= i < |p| ==> ValidName(p[i])
  }

  predicate NoSlash(segs: seq<string>)
  {
    forall i :: 0 <= i < |segs| ==> '/' !in segs[i]
  }

  /** `s.split("/")`: the pieces between separators, empty pieces included. */
  function Split(s: string): (r: seq<string>)
    ensures |r| >= 1 && NoSlash(r)
  {
    if s == [] then [""]
    else
      var rest := Split(s[1..]);
      if s[0] == '/' then [""] + rest
      else
        assert '/' !in rest[0];
        [[s[0]] + rest[0]] + rest[1..]
  }

  /** `segs.join("/")`. */
  function JoinSlash(segs: seq<string>): string
  {
    if segs == [] then ""
    else if |segs| == 1 then segs[0]
    else segs[0] + "/" + JoinSlash(segs[1..])
  }

  /** `s.split("/").pop()`: the text after the last separator. */
  function LastSegment(s: string): (r: string)
    ensures '/' !in r
  {
    var parts := Split(s);
    assert NoSlash(parts);
    parts[|parts| - 1]
  }

  lemma {:induction false} SplitNoSlash(s: string)
    requires '/' !in s
    ensures Split(s) == [s]
  {
    if s != [] {
      SplitNoSlash(s[1..]);
      assert [s[0]] + s[1..] == s;
    }
  }

  /** Splitting at a separator splits the two sides independently. */
  lemma {:induction false} SplitAtSlash(a: string, b: string)
    ensures Split(a + "/" + b) == Split(a) + Split(b)
  {
    if a == [] {
      assert a + "/" + b == "/" + b;
      assert ("/" + b)[1..] == b;
    } else {
      assert (a + "/" + b)[1..] == a[1..] + "/" + b;
      SplitAtSlash(a[1..], b);
    }
  }

  /** Joining the pieces of a split gives back the string. */
  lemma {:induction false} JoinSplit(s: string)
    ensures JoinSlash(Split(s)) == s
  {
    if s != [] {
      JoinSplit(s[1..]);
      var rest := Split(s[1..]);
      if s[0] == '/' {
        assert Split(s) == [""] + rest;
        assert (Split(s))[1..] == rest;
      } else {
        var parts := [[s[0]] + rest[0]] + rest[1..];
        assert Split(s) == parts;
        if |rest| > 1 {
          assert parts[1..] == rest[1..];
        }
      }
    }
  }

  /** Splitting the join of separator-free pieces gives back the pieces. */
  lemma {:induction false} SplitJoin(segs: seq<string>)
    requires |segs| >= 1 && NoSlash(segs)
    ensures Split(JoinSlash(segs)) == segs
  {
    if |segs| == 1 {
      SplitNoSlash(segs[0]);
    } else {
      SplitNoSlash(segs[0]);
      SplitJoin(segs[1..]);
      SplitAtSlash(segs[0], JoinSlash(segs[1..]));
      assert [segs[0]] + segs[1..] == segs;
    }
  }

  /** Past a separator, or before one still to come, the last segment is that of the tail. */
  lemma LastSegmentOfTail(s: string)
    requires s != [] && (s[0] == '/' || |Split(s[1..])| > 1)
    ensures LastSegment(s) == LastSegment(s[1..])
  {
  }

  /** Without a later separator the whole string is its last segment. */
  lemma LastSegmentWhole(s: string)
    requires s != [] && s[0] != '/' && |Split(s[1..])| == 1
    ensures LastSegment(s) == s
  {
    JoinSplit(s[1..]);
    assert [s[0]] + s[1..] == s;
  }

  /** The last segment is a suffix of `s` that starts `s` or follows a separator. */
  lemma {:induction false} LastSegmentIsSuffix(s: string)
    ensures |LastSegment(s)| <= |s|
    ensures s[|s| - |LastSegment(s)|..] == LastSegment(s)
    ensures |LastSegment(s)| == |s| || s[|s| - |LastSegment(s)| - 1] == '/'
  {
    if s != [] {
      var t := s[1..];
      LastSegmentIsSuffix(t);
      var l := LastSegment(s);
      if s[0] == '/' || |Split(t)| > 1 {
        LastSegmentOfTail(s);
        assert s[|s| - |l|..] == t[|t| - |l|..];
        if |l| == |t| && s[0] != '/' {
          SplitNoSlash(t);
        }
        assert s[|s| - |l| - 1] == (if |l| == |t| then s[0] else t[|t| - |l| - 1]);
      } else {
        LastSegmentWhole(s);
      }
    }
  }

  /** One step of `path.normalize` on an absolute location. */
  function Step(acc: Path, seg: string): Path
  {
    if seg == "" || seg == "." then acc
    else if seg == ".." then (if acc == [] then [] else acc[..|acc| - 1])
    else acc + [seg]
  }

  /** Fold the segments onto `acc`: "" and "." stay, ".." climbs (never above "/"), a name descends. */
  function Normalize(acc: Path, segs: seq<string>): (r: Path)
    ensures Normal(acc) && NoSlash(segs) ==> Normal(r)
    decreases |segs|
  {
    if segs == [] then acc
    else
      assert Normal(acc) && NoSlash(segs) ==> Normal(Step(acc, segs[0]));
      Normalize(Step(acc, segs[0]), segs[1..])
  }

  lemma {:induction false} NormalizeAppend(acc: Path, a: seq<string>, b: seq<string>)
    ensures Normalize(acc, a + b) == Normalize(Normalize(acc, a), b)
    decreases |a|
  {
    if a == [] {
      assert a + b == b;
    } else {
      assert (a + b)[1..] == a[1..] + b;
      NormalizeAppend(Step(acc, a[0]), a[1..], b);
    }
  }

  /** `path.resolve(base, rel)` for an absolute, normal `base`; an absolute `rel` discards `base`. */
  function Resolve(base: Path, rel: string): (r: Path)
    ensures Normal(base) ==> Normal(r)
  {
    Normalize(if |rel| > 0 && rel[0] == '/' then [] else base, Split(rel))
  }

  /** The string Node prints for an absolute location: "/" for the root, "/a/b" otherwise. */
  function Render(p: Path): (r: string)
    ensures |r| > 0 && r[0] == '/'
    ensures p != [] ==> r == "/" + JoinSlash(p)
  {
    if p == [] then "/"
    else
      RenderSegsJoin(p);
      RenderSegs(p)
  }

  function RenderSegs(p: Path): string
  {
    if p == [] then "" else "/" + p[0] + RenderSegs(p[1..])
  }

  /** The segment-by-segment rendering is "/" followed by the segments joined with "/". */
  lemma {:induction false} RenderSegsJoin(p: Path)
    requires p != []
    ensures RenderSegs(p) == "/" + JoinSlash(p)
    decreases |p|
  {
    if |p| > 1 {
      RenderSegsJoin(p[1..]);
    } else {
      assert p[1..] == [];
    }
  }

  /** Normalising proper names descends into each in turn. */
  lemma {:induction false} NormalizeNames(acc: Path, p: Path)
    requires Normal(p)
    ensures Normalize(acc, p) == acc + p
    decreases |p|
  {
    if p != [] {
      NormalizeNames(acc + [p[0]], p[1..]);
      assert acc + [p[0]] + p[1..] == acc + p;
    }
  }

  /** `path.resolve` of a rendered location is that location, whatever it is resolved against. */
  lemma {:induction false} RenderResolves(base: Path, p: Path)
    requires Normal(p)
    ensures Resolve(base, Render(p)) == p
  {
    if p == [] {
      assert "/" == "" + "/" + "";
      SplitAtSlash("", "");
      assert Split("/") == ["", ""];
      assert Normalize([], ["", ""]) == Normalize([], [""]);
    } else {
      var joined := JoinSlash(p);
      assert Render(p) == "" + "/" + joined;
      SplitAtSlash("", joined);
      assert NoSlash(p);
      SplitJoin(p);
      assert Split(Render(p)) == [""] + p;
      assert ([""] + p)[1..] == p;
      NormalizeNames([], p);
    }
  }

  /**
   * The segment-level reading of "the rendering of `root` is a string prefix of the rendering of `p`":
   * `p` agrees with `root` on every segment but the last one of `root`, and there it merely STARTS with
   * `root`'s last segment. So "/srv/content" admits "/srv/content/a" and also "/srv/content-x".
   */
  predicate Admitted(root: Path, p: Path)
    requires root != []
  {
    |root| <= |p| && p[..|root| - 1] == root[..|root| - 1] && root[|root| - 1] <= p[|root| - 1]
  }

  /** `p` is `root` or lies below it, segment-wise. */
  predicate Contained(root: Path, p: Path)
  {
    root <= p
  }

  lemma ContainedIsAdmitted(root: Path, p: Path)
    requires root != [] && Contained(root, p)
    ensures Admitted(root, p)
  {
    assert p[..|root|] == root;
  }

  lemma RenderSegsHead(p: Path)
    requires p != []
    ensures RenderSegs(p) != [] && RenderSegs(p)[0] == '/'
  {
  }

  lemma PrefixAt(a: string, b: string, i: int)
    requires a <= b && 0 <= i < |a|
    ensures a[i] == b[i]
  {
  }

  /** A separator-free `x` that is a prefix of `y + rb`, where `rb` is empty or starts a new segment, is a prefix of `y`. */
  lemma PrefixBeforeSlash(x: string, y: string, rb: string)
    requires '/' !in x
    requires rb == [] || rb[0] == '/'
    requires x <= y + rb
    ensures x <= y
  {
    if |x| > |y| {
      PrefixAt(x, y + rb, |y|);
      assert false;
    }
    assert x == (y + rb)[..|x|] == y[..|x|];
  }

  /** Two separator-free segments each followed by a separator-led rest: prefix forces equal segments. */
  lemma SegmentsAgree(x: string, ra: string, y: string, rb: string)
    requires '/' !in x && '/' !in y
    requires ra != [] && ra[0] == '/'
    requires rb == [] || rb[0] == '/'
    requires x + ra <= y + rb
    ensures x == y && ra <= rb
  {
    if |x| < |y| {
      PrefixAt(x + ra, y + rb, |x|);
      assert false;
    }
    if |x| > |y| {
      PrefixAt(x + ra, y + rb, |y|);
      assert false;
    }
    assert x == (x + ra)[..|x|] == (y + rb)[..|x|] == y;
    assert ra == (x + ra)[|x|..];
    assert forall i :: 0 <= i < |ra| ==> ra[i] == (x + ra)[|x| + i] == (y + rb)[|x| + i] == rb[i];
  }

  /** A common leading separator does not change the prefix test. */
  lemma SlashPrefix(u: string, v: string)
    ensures "/" + u <= "/" + v <==> u <= v
  {
    if "/" + u <= "/" + v {
      assert u == ("/" + u)[1..] == ("/" + v)[1..|u| + 1] == v[..|u|];
    }
    if u <= v {
      assert ("/" + v)[..|u| + 1] == "/" + v[..|u|];
    }
  }

  /** Segment by segment: a prefix of `y + rb` that is followed by a separator-led rest is `y` itself followed by a prefix of `rb`. */
  lemma SegmentsPrefixIff(x: string, ra: string, y: string, rb: string)
    requires '/' !in x && '/' !in y
    requires ra != [] && ra[0] == '/'
    requires rb == [] || rb[0] == '/'
    ensures x + ra <= y + rb <==> x == y && ra <= rb
  {
    if x + ra <= y + rb {
      SegmentsAgree(x, ra, y, rb);
    }
    if x == y && ra <= rb {
      assert (y + rb)[..|x + ra|] == x + rb[..|ra|];
    }
  }

  /** A last segment is a string prefix of `y + rb` exactly when it is one of `y`. */
  lemma LastSegmentPrefixIff(x: string, y: string, rb: string)
    requires '/' !in x
    requires rb == [] || rb[0] == '/'
    ensures x <= y + rb <==> x <= y
  {
    if x <= y + rb {
      PrefixBeforeSlash(x, y, rb);
    }
    if x <= y {
      assert (y + rb)[..|x|] == y[..|x|];
    }
  }

  /** `Admitted` for a one-segment root compares the first segments only. */
  lemma AdmittedSingle(a: Path, b: Path)
    requires |a| == 1 && b != []
    ensures Admitted(a, b) <==> a[0] <= b[0]
  {
    assert a[..0] == b[..0];
  }

  /** `Admitted` for a longer root: equal first segments, then `Admitted` on the rest. */
  lemma AdmittedStep(a: Path, b: Path)
    requires |a| > 1 && b != []
    ensures Admitted(a, b) <==> a[0] == b[0] && Admitted(a[1..], b[1..])
  {
    var a', b' := a[1..], b[1..];
    if |a| <= |b| {
      assert a[..|a| - 1] == [a[0]] + a'[..|a'| - 1];
      assert b[..|a| - 1] == [b[0]] + b'[..|a'| - 1];
      assert a[|a| - 1] == a'[|a'| - 1] && b[|a| - 1] == b'[|a'| - 1];
      assert ([a[0]] + a'[..|a'| - 1] == [b[0]] + b'[..|a'| - 1]) <==>
        (a[0] == b[0] && a'[..|a'| - 1] == b'[..|a'| - 1]) by {
        if [a[0]] + a'[..|a'| - 1] == [b[0]] + b'[..|a'| - 1] {
          assert a'[..|a'| - 1] == ([a[0]] + a'[..|a'| - 1])[1..];
          assert b'[..|a'| - 1] == ([b[0]] + b'[..|a'| - 1])[1..];
        }
      }
    }
  }

  /** The string prefix test on rendered locations is exactly `Admitted`. */
  lemma {:induction false} RenderPrefixIsAdmitted(a: Path, b: Path)
    requires a != [] && Normal(a) && Normal(b)
    ensures RenderSegs(a) <= RenderSegs(b) <==> Admitted(a, b)
  {
    if b != [] {
      var x, y := a[0], b[0];
      var ra, rb := RenderSegs(a[1..]), RenderSegs(b[1..]);
      assert RenderSegs(a) == "/" + (x + ra);
      assert RenderSegs(b) == "/" + (y + rb);
      SlashPrefix(x + ra, y + rb);
      assert ValidName(x) && ValidName(y);
      assert rb == [] || rb[0] == '/' by {
        if b[1..] != [] { RenderSegsHead(b[1..]); }
      }
      if |a| == 1 {
        assert x + ra == x;
        LastSegmentPrefixIff(x, y, rb);
        AdmittedSingle(a, b);
      } else {
        RenderSegsHead(a[1..]);
        assert Normal(a[1..]) && Normal(b[1..]);
        RenderPrefixIsAdmitted(a[1..], b[1..]);
        SegmentsPrefixIff(x, ra, y, rb);
        AdmittedStep(a, b);
      }
    }
  }

  /** `path.join(dir, name)` for a `dir` that is "" or already normal: the name appended with "/". */
  function Join(dir: string, name: string): (r: string)
    ensures '/' !in name ==> Split(r) == (if dir == "" then [] else Split(dir)) + [name]
    ensures '/' !in name ==> LastSegment(r) == name
  {
    var r := if dir == "" then name else dir + "/" + name;
    assert '/' !in name ==> Split(r) == (if dir == "" then [] else Split(dir)) + [name] by {
      if '/' !in name {
        SplitNoSlash(name);
        if dir != "" {
          SplitAtSlash(dir, name);
        }
      }
    }
    r
  }

  /** Normalising a single proper name descends into it. */
  lemma NormalizeName(acc: Path, n: string)
    requires ValidName(n)
    ensures Normalize(acc, [n]) == acc + [n]
  {
    assert [n][1..] == [];
  }

  /** Resolving `dir` joined with an entry name descends one level from where `dir` resolves. */
  lemma ResolveJoin(base: Path, dir: string, name: string)
    requires ValidName(name)
    ensures Resolve(base, Join(dir, name)) == Resolve(base, dir) + [name]
  {
    SplitNoSlash(name);
    if dir == "" {
      ResolveEmpty(base);
      NormalizeName(base, name);
    } else {
      var joined := dir + "/" + name;
      SplitAtSlash(dir, name);
      assert joined[0] == dir[0];
      var acc := if dir[0] == '/' then [] else base;
      NormalizeAppend(acc, Split(dir), [name]);
      NormalizeName(Normalize(acc, Split(dir)), name);
    }
  }

  /** Resolving "" stays where it is. */
  lemma ResolveEmpty(base: Path)
    ensures Resolve(base, "") == base
  {
    assert Split("") == [""];
    assert Normalize(base, [""]) == Normalize(Step(base, ""), []);
  }

  /** Resolving `"../" + rest` climbs one level first. */
  lemma {:induction false} ResolveUp(base: Path, rest: string)
    requires !(|rest| > 0 && rest[0] == '/')
    ensures Resolve(base, "../" + rest) == Resolve(Step(base, ".."), rest)
  {
    SplitNoSlash("..");
    assert "../" + rest == ".." + "/" + rest;
    SplitAtSlash("..", rest);
    NormalizeAppend(base, [".."], Split(rest));
  }

  /** Resolving `n + "/" + rest` descends into `n` first. */
  lemma {:induction false} ResolveDown(base: Path, n: string, rest: string)
    requires ValidName(n) && !(|rest| > 0 && rest[0] == '/')
    ensures Resolve(base, n + "/" + rest) == Resolve(base + [n], rest)
  {
    SplitNoSlash(n);
    SplitAtSlash(n, rest);
    assert (n + "/" + rest)[0] == n[0];
    NormalizeAppend(base, [n], Split(rest));
  }

  /** Resolving a bare name descends into it. */
  lemma ResolveName(base: Path, n: string)
    requires ValidName(n)
    ensures Resolve(base, n) == base + [n]
  {
    ResolveJoin(base, "", n);
    ResolveEmpty(base);
  }

  /** JavaScript's `s.replace(/\\/g, "/")`. */
  function ForwardSlashes(s: string): (r: string)
    ensures |r| == |s|
    ensures '\\' !in r
    ensures forall i :: 0 <= i < |s| && s[i] != '\\' ==> r[i] == s[i]
    ensures forall i :: 0 <= i < |s| && s[i] == '\\' ==> r[i] == '/'
  {
    if s == [] then [] else [if s[0] == '\\' then '/' else s[0]] + ForwardSlashes(s[1..])
  }

  /** A string without backslashes is left as it is. */
  lemma {:induction false} ForwardSlashesIdentity(s: string)
    requires '\\' !in s
    ensures ForwardSlashes(s) == s
  {
    if s != [] {
      ForwardSlashesIdentity(s[1..]);
    }
  }
}
