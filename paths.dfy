/** The lexical path helpers of the Emscripten file system: splitting a
    path on "/", normalizeArray's backward collapse of "." and "..",
    normalize, basename, dirname and resolve.  Nothing here touches the
    file system; every operation works on the text of the path alone. */
module Paths {
  import opened Base

  const Slash: Unit := 0x2F
  const Dot: Unit := 0x2E

  /** The segments "." and "..". */
  const DotSeg: JsString := [Dot]
  const DotDotSeg: JsString := [Dot, Dot]

  /** A segment that survives `filter(d => !!d)` after a split on "/". */
  predicate IsSegment(x: JsString)
  {
    |x| > 0 && Slash !in x
  }

  predicate AllSegments(parts: seq<JsString>)
  {
    forall x :: x in parts ==> IsSegment(x)
  }

  predicate IsAbs(a: JsString)
  {
    |a| > 0 && a[0] == Slash
  }

  predicate EndsWithSlash(a: JsString)
  {
    |a| > 0 && a[|a| - 1] == Slash
  }

  // ---------------------------------------------------------------------
  // split("/"), join("/") and filter(nonempty)
  // ---------------------------------------------------------------------

  /** `s.split("/")`: the pieces between the slashes, always at least one,
      none of them holding a slash. */
  function Split(s: JsString): (r: seq<JsString>)
    ensures |r| >= 1
    ensures forall x :: x in r ==> Slash !in x
    decreases |s|
  {
    if |s| == 0 then [[]]
    else if s[0] == Slash then [[]] + Split(s[1..])
    else
      var t := Split(s[1..]);
      [[s[0]] + t[0]] + t[1..]
  }

  /** `parts.join("/")`. */
  function Join(parts: seq<JsString>): JsString
  {
    if |parts| == 0 then []
    else if |parts| == 1 then parts[0]
    else parts[0] + [Slash] + Join(parts[1..])
  }

  /** `parts.filter(d => !!d)`: the non-empty pieces, in order. */
  function NonEmpty(parts: seq<JsString>): (r: seq<JsString>)
    ensures forall x :: x in r ==> x in parts && |x| > 0
  {
    if |parts| == 0 then []
    else (if |parts[0]| > 0 then [parts[0]] else []) + NonEmpty(parts[1..])
  }

  /** The segments of a path: `a.split("/").filter(d => !!d)`. */
  function Segments(a: JsString): (r: seq<JsString>)
    ensures AllSegments(r)
  {
    NonEmpty(Split(a))
  }

  /** Joining the pieces of a split gives the string back. */
  lemma {:induction false} JoinSplit(s: JsString)
    ensures Join(Split(s)) == s
    decreases |s|
  {
    if |s| == 0 {
    } else if s[0] == Slash {
      JoinSplit(s[1..]);
      var r := [[]] + Split(s[1..]);
      assert Split(s) == r;
      assert r[1..] == Split(s[1..]);
      assert s == [Slash] + s[1..];
    } else {
      JoinSplit(s[1..]);
      var t := Split(s[1..]);
      var r := [[s[0]] + t[0]] + t[1..];
      assert Split(s) == r;
      if |t| == 1 {
        assert Join(r) == [s[0]] + t[0];
      } else {
        assert r[1..] == t[1..];
        assert Join(r) == ([s[0]] + t[0]) + [Slash] + Join(t[1..]);
        assert Join(t) == t[0] + [Slash] + Join(t[1..]);
      }
      assert s == [s[0]] + s[1..];
    }
  }

  lemma {:induction false} SplitSlashFree(x: JsString)
    requires Slash !in x
    ensures Split(x) == [x]
    decreases |x|
  {
    if |x| > 0 {
      SplitSlashFree(x[1..]);
      assert x == [x[0]] + x[1..];
    }
  }

  lemma {:induction false} SplitPrefix(x: JsString, y: JsString)
    requires Slash !in x
    ensures Split(x + [Slash] + y) == [x] + Split(y)
    decreases |x|
  {
    var s := x + [Slash] + y;
    if |x| == 0 {
      assert s[1..] == y;
    } else {
      assert s[1..] == x[1..] + [Slash] + y;
      SplitPrefix(x[1..], y);
      assert x == [x[0]] + x[1..];
    }
  }

  /** Splitting the join of slash-free pieces gives the pieces back. */
  lemma {:induction false} SplitJoin(q: seq<JsString>)
    requires |q| >= 1
    requires forall x :: x in q ==> Slash !in x
    ensures Split(Join(q)) == q
    decreases |q|
  {
    if |q| == 1 {
      SplitSlashFree(q[0]);
    } else {
      SplitPrefix(q[0], Join(q[1..]));
      SplitJoin(q[1..]);
      assert q == [q[0]] + q[1..];
    }
  }

  lemma {:induction false} SplitSlashEnd(s: JsString)
    ensures Split(s + [Slash]) == Split(s) + [[]]
    decreases |s|
  {
    var e := s + [Slash];
    if |s| == 0 {
      assert e[1..] == [];
    } else {
      assert e[1..] == s[1..] + [Slash];
      SplitSlashEnd(s[1..]);
      if s[0] != Slash {
        var t := Split(s[1..]);
        var t' := Split(s[1..] + [Slash]);
        assert t'[0] == t[0];
        assert t'[1..] == t[1..] + [[]];
      }
    }
  }

  lemma {:induction false} NonEmptyAppend(x: seq<JsString>, y: seq<JsString>)
    ensures NonEmpty(x + y) == NonEmpty(x) + NonEmpty(y)
    decreases |x|
  {
    if |x| > 0 {
      var h: seq<JsString> := if |x[0]| > 0 then [x[0]] else [];
      assert (x + y)[0] == x[0];
      assert (x + y)[1..] == x[1..] + y;
      assert NonEmpty(x + y) == h + NonEmpty(x[1..] + y);
      NonEmptyAppend(x[1..], y);
      AppendAssoc(h, NonEmpty(x[1..]), NonEmpty(y));
    } else {
      assert x + y == y;
    }
  }

  lemma {:induction false} NonEmptyAll(q: seq<JsString>)
    requires forall x :: x in q ==> |x| > 0
    ensures NonEmpty(q) == q
    decreases |q|
  {
    if |q| > 0 {
      NonEmptyAll(q[1..]);
      assert q == [q[0]] + q[1..];
    }
  }

  /** The segments of joined segments are those segments. */
  lemma SegmentsJoin(q: seq<JsString>)
    requires AllSegments(q)
    ensures Segments(Join(q)) == q
  {
    if |q| > 0 {
      SplitJoin(q);
      NonEmptyAll(q);
    }
  }

  /** A leading slash adds only an empty piece, which the filter drops. */
  lemma SegmentsLeadSlash(s: JsString)
    ensures Segments([Slash] + s) == Segments(s)
  {
    assert ([Slash] + s)[1..] == s;
    var p := Split([Slash] + s);
    assert p == [[]] + Split(s);
    assert p[1..] == Split(s);
  }

  /** So does a trailing slash. */
  lemma SegmentsTrailSlash(s: JsString)
    ensures Segments(s + [Slash]) == Segments(s)
  {
    SplitSlashEnd(s);
    NonEmptyAppend(Split(s), [[]]);
    assert NonEmpty([[]]) == [];
  }

  /** Facts about the join of a non-empty list of segments used by the
      rendering lemmas: it is non-empty, starts with the first segment's
      first unit and ends with the last segment's last unit. */
  lemma {:induction false} JoinEnds(q: seq<JsString>)
    requires |q| >= 1 && AllSegments(q)
    ensures |Join(q)| > 0
    ensures Join(q)[0] != Slash
    ensures Join(q)[|Join(q)| - 1] != Slash
    decreases |q|
  {
    var x := q[0];
    assert x in q;
    assert |x| > 0 && x[0] != Slash && x[|x| - 1] != Slash;
    if |q| > 1 {
      var t := q[1..];
      forall y | y in t ensures IsSegment(y)
      {
        assert y in q;
      }
      JoinEnds(t);
      var jt := Join(t);
      var j := x + [Slash] + jt;
      assert Join(q) == j;
      assert j[0] == x[0];
      assert j[|j| - 1] == jt[|jt| - 1];
    } else {
      assert Join(q) == x;
    }
  }

  /** The join of two or more segments splits before the last one. */
  lemma {:induction false} JoinLast(q: seq<JsString>)
    requires |q| >= 2
    ensures Join(q) == Join(q[..|q| - 1]) + [Slash] + q[|q| - 1]
    decreases |q|
  {
    if |q| > 2 {
      var t := q[1..];
      JoinLast(t);
      assert t[..|t| - 1] == q[..|q| - 1][1..];
      assert t[|t| - 1] == q[|q| - 1];
    } else {
      assert q[..1] == [q[0]];
      assert q[1..] == [q[1]];
    }
  }

  // ---------------------------------------------------------------------
  // normalizeArray
  // ---------------------------------------------------------------------

  /** State of normalizeArray's backward loop once it has visited every
      element of a list: the elements it kept, in order, and the number of
      ".." still waiting to cancel an element further left. */
  datatype Collapsed = Collapsed(kept: seq<JsString>, up: nat)

  /** The backward loop over `parts`, as a recursion: the elements to the
      right of `parts[0]` are visited first.  Every kept element comes from
      `parts` and is neither "." nor "..". */
  function Collapse(parts: seq<JsString>): (r: Collapsed)
    ensures forall x :: x in r.kept ==> x in parts && x != DotSeg && x != DotDotSeg
  {
    if |parts| == 0 then Collapsed([], 0)
    else
      var rest := Collapse(parts[1..]);
      var x := parts[0];
      if x == DotSeg then rest
      else if x == DotDotSeg then Collapsed(rest.kept, rest.up + 1)
      else if rest.up > 0 then Collapsed(rest.kept, rest.up - 1)
      else Collapsed([x] + rest.kept, 0)
  }

  /** `n` copies of "..". */
  function Ups(n: nat): (u: seq<JsString>)
    ensures |u| == n
    ensures forall x :: x in u ==> x == DotDotSeg
  {
    if n == 0 then [] else [DotDotSeg] + Ups(n - 1)
  }

  /** What normalizeArray(parts, allowAboveRoot) leaves in its array. */
  function NormalizeParts(parts: seq<JsString>, allowAboveRoot: bool): seq<JsString>
  {
    var c := Collapse(parts);
    if allowAboveRoot then Ups(c.up) + c.kept else c.kept
  }

  /** A list in normal form: segments only, no ".", ".." only as a leading
      run, and none at all when the path may not climb above its root. */
  predicate Normal(q: seq<JsString>, allowAboveRoot: bool)
  {
    AllSegments(q)
    && DotSeg !in q
    && UpsLead(q)
    && (!allowAboveRoot ==> DotDotSeg !in q)
  }

  lemma CollapseAt(parts: seq<JsString>, d: int)
    requires 0 <= d < |parts|
    ensures var rest := Collapse(parts[d + 1..]);
            Collapse(parts[d..]) ==
              if parts[d] == DotSeg then rest
              else if parts[d] == DotDotSeg then Collapsed(rest.kept, rest.up + 1)
              else if rest.up > 0 then Collapsed(rest.kept, rest.up - 1)
              else Collapsed([parts[d]] + rest.kept, 0)
  {
    assert parts[d..][1..] == parts[d + 1..];
  }

  /** normalizeArray: walks the array from the end, splicing out every ".",
      every "..", and every other element that a ".." to its right cancels;
      then, when allowed, puts the uncancelled ".." back at the front. */
  method NormalizeArray(parts: seq<JsString>, allowAboveRoot: bool) returns (a: seq<JsString>)
    ensures a == NormalizeParts(parts, allowAboveRoot)
  {
    var c;
    a, c := CollapseBackward(parts);
    if allowAboveRoot {
      ghost var kept := a;
      ghost var up := c;
      while c > 0
        invariant 0 <= c <= up
        invariant a == Ups(up - c) + kept
      {
        a := [DotDotSeg] + a;
        c := c - 1;
      }
    }
  }

  /** The state of the splice loop of normalizeArray once it has visited
      the elements from index d + 1 to the end. */
  predicate Visited(parts: seq<JsString>, d: int, a: seq<JsString>, c: nat)
    requires -1 <= d < |parts|
  {
    a == parts[..d + 1] + Collapse(parts[d + 1..]).kept && c == Collapse(parts[d + 1..]).up
  }

  /** The splice loop of normalizeArray: `a` is the array, `c` the count of
      pending "..". */
  method CollapseBackward(parts: seq<JsString>) returns (a: seq<JsString>, c: nat)
    ensures a == Collapse(parts).kept && c == Collapse(parts).up
  {
    a := parts;
    c := 0;
    var d := |a| - 1;
    assert parts[..d + 1] == parts && parts[d + 1..] == [];
    while 0 <= d
      invariant -1 <= d < |parts|
      invariant Visited(parts, d, a, c)
      decreases d
    {
      a, c := Visit(parts, a, c, d);
      d := d - 1;
    }
    assert parts[..0] == [] && parts[0..] == parts;
  }

  /** One turn of the splice loop, at index `d`. */
  method Visit(ghost parts: seq<JsString>, a: seq<JsString>, c: nat, d: nat)
    returns (a': seq<JsString>, c': nat)
    requires d < |parts|
    requires Visited(parts, d, a, c)
    ensures Visited(parts, d - 1, a', c')
  {
    ghost var kept := Collapse(parts[d + 1..]).kept;
    CollapseAt(parts, d);
    assert a[..d] == parts[..d] && a[d] == parts[d] && a[d + 1..] == kept;
    var f := a[d];
    a', c' := a, c;
    if f == DotSeg {
      a' := a[..d] + a[d + 1..];
    } else if f == DotDotSeg {
      a' := a[..d] + a[d + 1..];
      c' := c + 1;
    } else if c > 0 {
      a' := a[..d] + a[d + 1..];
      c' := c - 1;
    } else {
      assert parts[..d + 1] == parts[..d] + [parts[d]];
    }
  }

  /** The output of normalizeArray on segments is in normal form. */
  lemma NormalizePartsNormal(parts: seq<JsString>, allowAboveRoot: bool)
    requires AllSegments(parts)
    ensures Normal(NormalizeParts(parts, allowAboveRoot), allowAboveRoot)
  {
    var c := Collapse(parts);
    var q := NormalizeParts(parts, allowAboveRoot);
    if allowAboveRoot {
      var u := Ups(c.up);
      assert q == u + c.kept;
      forall k | 0 <= k < |c.kept| ensures c.kept[k] != DotDotSeg
      {
        assert c.kept[k] in c.kept;
      }
      forall i, j | 0 <= i < j < |q| && q[j] == DotDotSeg
        ensures q[i] == DotDotSeg
      {
        assert j < |u|;
        assert q[i] == u[i];
        assert u[i] in u;
      }
      forall x | x in q ensures IsSegment(x) && x != DotSeg
      {
        if x in u { assert x == DotDotSeg; } else { assert x in c.kept; }
      }
    } else {
      assert q == c.kept;
      forall j | 0 <= j < |q| ensures q[j] != DotDotSeg
      {
        assert q[j] in c.kept;
      }
      assert UpsLead(q);
    }
  }

  /** The number of ".." at the front of a list. */
  function LeadingUps(q: seq<JsString>): (n: nat)
    ensures n <= |q|
  {
    if |q| > 0 && q[0] == DotDotSeg then 1 + LeadingUps(q[1..]) else 0
  }

  /** Leading-run property of ".." in a list. */
  predicate UpsLead(q: seq<JsString>)
  {
    forall i, j :: 0 <= i < j < |q| && q[j] == DotDotSeg ==> q[i] == DotDotSeg
  }

  lemma {:induction false} CollapseNormal(q: seq<JsString>)
    requires DotSeg !in q
    requires UpsLead(q)
    ensures Collapse(q) == Collapsed(q[LeadingUps(q)..], LeadingUps(q))
    ensures q[..LeadingUps(q)] == Ups(LeadingUps(q))
    decreases |q|
  {
    if |q| > 0 {
      var t := q[1..];
      assert forall x :: x in t ==> x in q;
      forall i, j | 0 <= i < j < |t| && t[j] == DotDotSeg ensures t[i] == DotDotSeg
      {
        assert q[j + 1] == t[j] && q[i + 1] == t[i];
      }
      CollapseNormal(t);
      if q[0] == DotDotSeg {
        CollapseConsUp(q);
      } else {
        CollapseConsKeep(q);
      }
    }
  }

  lemma CollapseConsUp(q: seq<JsString>)
    requires |q| > 0 && q[0] == DotDotSeg
    requires Collapse(q[1..]) == Collapsed(q[1..][LeadingUps(q[1..])..], LeadingUps(q[1..]))
    requires q[1..][..LeadingUps(q[1..])] == Ups(LeadingUps(q[1..]))
    ensures Collapse(q) == Collapsed(q[LeadingUps(q)..], LeadingUps(q))
    ensures q[..LeadingUps(q)] == Ups(LeadingUps(q))
  {
    var t := q[1..];
    var l := LeadingUps(t);
    var rest := Collapse(t);
    assert Collapse(q) == Collapsed(rest.kept, rest.up + 1);
    assert LeadingUps(q) == 1 + l;
    assert q[1 + l..] == t[l..];
    assert q[..1 + l] == [DotDotSeg] + t[..l];
    assert Ups(1 + l) == [DotDotSeg] + Ups(l);
  }

  lemma CollapseConsKeep(q: seq<JsString>)
    requires |q| > 0 && q[0] != DotDotSeg && DotSeg !in q && UpsLead(q)
    requires Collapse(q[1..]) == Collapsed(q[1..][LeadingUps(q[1..])..], LeadingUps(q[1..]))
    ensures Collapse(q) == Collapsed(q[LeadingUps(q)..], LeadingUps(q))
    ensures q[..LeadingUps(q)] == Ups(LeadingUps(q))
  {
    var t := q[1..];
    if |t| > 0 {
      assert q[1] == t[0];
    }
    assert LeadingUps(t) == 0;
    assert t[0..] == t;
    assert q[0] in q;
    assert LeadingUps(q) == 0;
    assert Collapse(q) == Collapsed([q[0]] + t, 0);
    assert q == [q[0]] + t;
    assert q[0..] == q && q[..0] == [];
  }

  /** normalizeArray leaves a list already in normal form unchanged. */
  lemma NormalizePartsFixed(q: seq<JsString>, allowAboveRoot: bool)
    requires Normal(q, allowAboveRoot)
    ensures NormalizeParts(q, allowAboveRoot) == q
  {
    CollapseNormal(q);
    var l := LeadingUps(q);
    if allowAboveRoot {
      assert q == q[..l] + q[l..];
    } else if |q| > 0 {
      assert q[0] in q;
    }
  }

  /** Hence normalizing a list of segments twice is normalizing it once. */
  lemma NormalizePartsIdempotent(parts: seq<JsString>, allowAboveRoot: bool)
    requires AllSegments(parts)
    ensures NormalizeParts(NormalizeParts(parts, allowAboveRoot), allowAboveRoot)
         == NormalizeParts(parts, allowAboveRoot)
  {
    NormalizePartsNormal(parts, allowAboveRoot);
    NormalizePartsFixed(NormalizeParts(parts, allowAboveRoot), allowAboveRoot);
  }

  // ---------------------------------------------------------------------
  // normalize
  // ---------------------------------------------------------------------

  /** How normalize writes a list back as a path: a leading "/" for an
      absolute path, "." for an empty relative one, and a trailing "/"
      after a non-empty body when the input had one. */
  function Render(abs: bool, q: seq<JsString>, trail: bool): JsString
  {
    var j := Join(q);
    var j1 := if j == [] && !abs then DotSeg else j;
    var j2 := if j1 != [] && trail then j1 + [Slash] else j1;
    (if abs then [Slash] else []) + j2
  }

  /** normalize(a). */
  function Normalize(a: JsString): JsString
  {
    Render(IsAbs(a), NormalizeParts(Segments(a), !IsAbs(a)), EndsWithSlash(a))
  }

  /** What a rendered normal list looks like from outside: its kind
      (absolute or not), its segments and its trailing slash. */
  lemma RenderShape(abs: bool, q: seq<JsString>, trail: bool)
    requires AllSegments(q)
    ensures Render(abs, q, trail) != []
    ensures IsAbs(Render(abs, q, trail)) == abs
    ensures Segments(Render(abs, q, trail)) == if q == [] && !abs then [DotSeg] else q
    ensures Render(abs, q, trail) == [Slash] <==> abs && q == []
    ensures EndsWithSlash(Render(abs, q, trail)) == (trail || Render(abs, q, trail) == [Slash])
  {
    if q != [] {
      RenderBody(abs, q, trail);
    } else if abs {
      assert Render(abs, q, trail) == [Slash];
      SegmentsLeadSlash([]);
    } else {
      SplitSlashFree(DotSeg);
      NonEmptyAll([DotSeg]);
      assert Segments(DotSeg) == [DotSeg];
      if trail {
        assert Render(abs, q, trail) == DotSeg + [Slash];
        SegmentsTrailSlash(DotSeg);
      } else {
        assert Render(abs, q, trail) == DotSeg;
      }
    }
  }

  lemma RenderBody(abs: bool, q: seq<JsString>, trail: bool)
    requires AllSegments(q) && q != []
    ensures var body := if trail then Join(q) + [Slash] else Join(q);
            Render(abs, q, trail) == (if abs then [Slash] else []) + body
    ensures IsAbs(Render(abs, q, trail)) == abs
    ensures Segments(Render(abs, q, trail)) == q
    ensures Render(abs, q, trail) != [Slash]
    ensures EndsWithSlash(Render(abs, q, trail)) == trail
  {
    var j := Join(q);
    JoinEnds(q);
    SegmentsJoin(q);
    var body := if trail then j + [Slash] else j;
    if trail {
      SegmentsTrailSlash(j);
    }
    assert Segments(body) == q;
    if abs {
      SegmentsLeadSlash(body);
      assert Render(abs, q, trail) == [Slash] + body;
    } else {
      assert Render(abs, q, trail) == body;
    }
  }

  /** The rules normalize's result follows: it is never empty, it is
      absolute exactly when the input is, its segments are the input's
      segments after normalizeArray (a normal list: no empty or "."
      segments, ".." only as a leading run and never for an absolute
      path) or the single "." for an empty relative result, and it ends
      with "/" when the input did (or when it is the root). */
  lemma NormalizeRules(a: JsString)
    ensures var n := Normalize(a);
            var q := NormalizeParts(Segments(a), !IsAbs(a));
            && Normal(q, !IsAbs(a))
            && n != []
            && IsAbs(n) == IsAbs(a)
            && Segments(n) == (if q == [] && !IsAbs(a) then [DotSeg] else q)
            && EndsWithSlash(n) == (EndsWithSlash(a) || n == [Slash])
  {
    NormalizePartsNormal(Segments(a), !IsAbs(a));
    RenderShape(IsAbs(a), NormalizeParts(Segments(a), !IsAbs(a)), EndsWithSlash(a));
  }

  /** A rendered normal list is a fixed point of normalize. */
  lemma NormalizeRender(abs: bool, q: seq<JsString>, trail: bool)
    requires Normal(q, !abs)
    ensures Normalize(Render(abs, q, trail)) == Render(abs, q, trail)
  {
    var n := Render(abs, q, trail);
    RenderShape(abs, q, trail);
    if q == [] && !abs {
      assert Collapse([DotSeg]) == Collapse([]);
      assert NormalizeParts(Segments(n), true) == [];
    } else {
      NormalizePartsFixed(q, !abs);
    }
  }

  /** normalize is idempotent. */
  lemma NormalizeIdempotent(a: JsString)
    ensures Normalize(Normalize(a)) == Normalize(a)
  {
    NormalizePartsNormal(Segments(a), !IsAbs(a));
    NormalizeRender(IsAbs(a), NormalizeParts(Segments(a), !IsAbs(a)), EndsWithSlash(a));
  }

  // ---------------------------------------------------------------------
  // basename
  // ---------------------------------------------------------------------

  /** `m.lastIndexOf("/")`: the position of the last slash, or -1. */
  function LastSlash(m: JsString): (i: int)
    ensures -1 <= i < |m|
    ensures 0 <= i ==> m[i] == Slash
    ensures forall k :: i < k < |m| ==> m[k] != Slash
  {
    if |m| == 0 then -1
    else if m[|m| - 1] == Slash then |m| - 1
    else LastSlash(m[..|m| - 1])
  }

  /** The text after the last slash of `m` (all of `m` when it has none). */
  function AfterLastSlash(m: JsString): JsString
  {
    var i := LastSlash(m);
    if i == -1 then m else m[i + 1..]
  }

  /** `n.replace(/\/$/, "")`: drops one trailing slash. */
  function DropTrailingSlash(n: JsString): JsString
  {
    if EndsWithSlash(n) then n[..|n| - 1] else n
  }

  /** basename(a): "/" for "/" itself; otherwise the text after the last
      slash of the normalized path, once one trailing slash is removed. */
  function Basename(a: JsString): JsString
  {
    if a == [Slash] then [Slash]
    else AfterLastSlash(DropTrailingSlash(Normalize(a)))
  }

  lemma AfterSlash(pre: JsString, x: JsString, y: JsString)
    requires Slash !in y
    ensures AfterLastSlash(pre + (x + [Slash] + y)) == y
  {
    var w := pre + x;
    var m := w + [Slash] + y;
    assert pre + (x + [Slash] + y) == m;
    LastSlashAfter(w, y);
    assert m[|w| + 1..] == y;
  }

  /** After the last slash of a joined list of segments, with or without a
      leading slash, comes the last segment. */
  lemma AfterLastSlashJoin(pre: JsString, q: seq<JsString>)
    requires pre == [] || pre == [Slash]
    requires AllSegments(q) && q != []
    ensures AfterLastSlash(pre + Join(q)) == q[|q| - 1]
  {
    var y := q[|q| - 1];
    assert y in q;
    if |q| >= 2 {
      var j0 := Join(q[..|q| - 1]);
      JoinLast(q);
      assert pre + Join(q) == pre + (j0 + [Slash] + y);
      AfterSlash(pre, j0, y);
    } else if pre == [Slash] {
      assert Join(q) == y;
      assert pre + Join(q) == [] + ([] + [Slash] + y);
      AfterSlash([], [], y);
    } else {
      assert Join(q) == y;
      assert pre + Join(q) == y;
    }
  }

  /** The basename a list of normalized segments stands for: its last
      segment, or "" for the root and "." for an empty relative path. */
  function LastSegment(q: seq<JsString>, abs: bool): JsString
  {
    if q != [] then q[|q| - 1] else if abs then [] else DotSeg
  }

  /** The basename of a rendered list of segments. */
  lemma AfterLastSlashRender(abs: bool, q: seq<JsString>, trail: bool)
    requires AllSegments(q)
    ensures AfterLastSlash(DropTrailingSlash(Render(abs, q, trail))) == LastSegment(q, abs)
  {
    var n := Render(abs, q, trail);
    var pre: JsString := if abs then [Slash] else [];
    if q != [] {
      RenderBody(abs, q, trail);
      assert DropTrailingSlash(n) == pre + Join(q);
      AfterLastSlashJoin(pre, q);
    } else if abs {
      assert n == [Slash];
      assert DropTrailingSlash(n) == [];
    } else {
      assert DropTrailingSlash(n) == DotSeg;
    }
  }

  /** The list normalizeArray returns for segments is made of segments. */
  lemma NormalizePartsSegments(parts: seq<JsString>, allowAboveRoot: bool)
    requires AllSegments(parts)
    ensures AllSegments(NormalizeParts(parts, allowAboveRoot))
  {
    NormalizePartsNormal(parts, allowAboveRoot);
  }

  /** basename is the last normalized segment; an empty normalized path
      has basename "" when absolute and "." when relative. */
  lemma BasenameLast(a: JsString)
    requires a != [Slash]
    ensures Basename(a) == LastSegment(NormalizeParts(Segments(a), !IsAbs(a)), IsAbs(a))
  {
    var abs := IsAbs(a);
    var q := NormalizeParts(Segments(a), !abs);
    var t := EndsWithSlash(a);
    NormalizePartsSegments(Segments(a), !abs);
    AfterLastSlashRender(abs, q, t);
    assert Basename(a) == AfterLastSlash(DropTrailingSlash(Render(abs, q, t)));
  }

  // ---------------------------------------------------------------------
  // dirname
  // ---------------------------------------------------------------------

  /** Length of `t` once its trailing slashes are removed. */
  function Trimmed(t: JsString): (n: nat)
    ensures n <= |t|
    ensures forall k :: n <= k < |t| ==> t[k] == Slash
    ensures n > 0 ==> t[n - 1] != Slash
  {
    if |t| > 0 && t[|t| - 1] == Slash then Trimmed(t[..|t| - 1]) else |t|
  }

  /** The language of the regular expression's tail
      `((?:\.{1,2}|[^\/]+?|)(\.[^.\/]*|))(?:[\/]*)$`: the two groups
      together match exactly the slash-free strings, so the tail is a run
      without slashes followed by slashes only. */
  predicate TailMatches(x: JsString)
  {
    forall i, j :: 0 <= i < j < |x| && x[i] == Slash ==> x[j] == Slash
  }

  /** Length of what the lazy group `([\s\S]*?)` takes from `t`: up to and
      including the last slash before the final slash-free run. */
  function DirLength(t: JsString): nat
  {
    LastSlash(t[..Trimmed(t)]) + 1
  }

  /** dirname(a): the regular expression splits the path into a root
      (`\/?`, greedy, so "/" exactly when the path is absolute), the lazy
      directory group and the tail; with no root and no directory the
      result is ".", otherwise the root and the directory without its last
      unit. */
  function Dirname(a: JsString): JsString
  {
    var root: JsString := if IsAbs(a) then [Slash] else [];
    var t := a[|root|..];
    RootAndDir(root, t[..DirLength(t)])
  }

  /** What dirname returns for the matched root and directory groups. */
  function RootAndDir(root: JsString, dir: JsString): JsString
  {
    if root == [] && dir == [] then DotSeg
    else root + (if dir != [] then dir[..|dir| - 1] else [])
  }

  /** The directory group is the shortest prefix after which the tail of
      the expression matches, as a lazy quantifier demands. */
  lemma DirLengthLazy(t: JsString)
    ensures DirLength(t) <= |t|
    ensures TailMatches(t[DirLength(t)..])
    ensures forall k :: 0 <= k < DirLength(t) ==> !TailMatches(t[k..])
  {
    var n := Trimmed(t);
    var u := t[..n];
    var i := LastSlash(u);
    var l := i + 1;
    var x := t[l..];
    forall k | i < k < n ensures t[k] != Slash
    {
      assert u[k] == t[k];
    }
    forall p, r | 0 <= p < r < |x| && x[p] == Slash ensures x[r] == Slash
    {
      assert x[p] == t[l + p];
      assert x[r] == t[l + r];
    }
    forall k | 0 <= k < l ensures !TailMatches(t[k..])
    {
      var y := t[k..];
      assert u[i] == Slash;
      assert n - 1 > i;
      assert y[i - k] == Slash && y[n - 1 - k] != Slash;
    }
  }

  /** The list without its last element (empty for the empty list). */
  function AllButLast(q: seq<JsString>): seq<JsString>
  {
    if q == [] then [] else q[..|q| - 1]
  }

  /** Dirname of a path made of an optional root and a relative part. */
  lemma DirnameSplit(pre: JsString, t: JsString)
    requires pre == [] || pre == [Slash]
    requires !IsAbs(t)
    ensures Dirname(pre + t) == RootAndDir(pre, t[..DirLength(t)])
  {
    assert IsAbs(pre + t) == (pre == [Slash]);
    assert (pre + t)[|pre|..] == t;
  }

  /** On a normalized path dirname drops the last segment: the result is
      the rendering of the remaining segments, "/" or "." when none is
      left. */
  lemma DirnameRender(abs: bool, q: seq<JsString>, trail: bool)
    requires AllSegments(q)
    ensures Dirname(Render(abs, q, trail)) == Render(abs, AllButLast(q), false)
  {
    if q == [] {
      DirnameRoot(abs, trail);
    } else {
      DirnameBody(abs, q, trail);
    }
  }

  lemma DirnameRoot(abs: bool, trail: bool)
    ensures Dirname(Render(abs, [], trail)) == Render(abs, [], false)
  {
    var n := Render(abs, [], trail);
    if abs {
      assert n == [Slash] + [];
      DirnameSplit([Slash], []);
    } else {
      var t := if trail then DotSeg + [Slash] else DotSeg;
      assert n == [] + t;
      assert Trimmed(t) == 1 by {
        if trail {
          assert t[..1] == DotSeg;
        }
      }
      assert t[..1] == DotSeg;
      DirnameSplit([], t);
    }
  }

  lemma DirnameBody(abs: bool, q: seq<JsString>, trail: bool)
    requires AllSegments(q) && q != []
    ensures Dirname(Render(abs, q, trail)) == Render(abs, AllButLast(q), false)
  {
    var pre: JsString := if abs then [Slash] else [];
    var j := Join(q);
    DirnameOfRender(abs, pre, q, j, trail);
    if |q| >= 2 {
      DirnameMany(abs, pre, q, j);
    } else {
      DirnameOne(abs, pre, q, j);
    }
  }

  lemma DirnameOfRender(abs: bool, pre: JsString, q: seq<JsString>, j: JsString, trail: bool)
    requires AllSegments(q) && q != []
    requires pre == if abs then [Slash] else []
    requires j == Join(q)
    ensures Dirname(Render(abs, q, trail)) == RootAndDir(pre, j[..LastSlash(j) + 1])
  {
    var tail: JsString := if trail then [Slash] else [];
    JoinEnds(q);
    RenderJoin(abs, q, trail);
    assert Render(abs, q, trail) == pre + (j + tail);
    DirnameJoined(pre, j, tail);
  }

  lemma DirnameMany(abs: bool, pre: JsString, q: seq<JsString>, j: JsString)
    requires pre == if abs then [Slash] else []
    requires j == Join(q)
    requires AllSegments(q) && |q| >= 2
    ensures RootAndDir(pre, j[..LastSlash(j) + 1]) == Render(abs, AllButLast(q), false)
  {
    var init := q[..|q| - 1];
    LastDir(q);
    assert forall x :: x in init ==> x in q;
    JoinEnds(init);
    RootAndDirSlash(pre, Join(init));
    assert AllButLast(q) == init;
  }

  lemma DirnameOne(abs: bool, pre: JsString, q: seq<JsString>, j: JsString)
    requires pre == if abs then [Slash] else []
    requires j == Join(q)
    requires AllSegments(q) && |q| == 1
    ensures RootAndDir(pre, j[..LastSlash(j) + 1]) == Render(abs, AllButLast(q), false)
  {
    var y := q[0];
    assert y in q;
    assert Join(q) == y;
    assert LastSlash(y) == -1;
    assert y[..0] == [];
    assert AllButLast(q) == [];
  }

  /** The directory part of a join of two or more segments. */
  lemma LastDir(q: seq<JsString>)
    requires AllSegments(q) && |q| >= 2
    ensures Join(q)[..LastSlash(Join(q)) + 1] == Join(q[..|q| - 1]) + [Slash]
  {
    var y := q[|q| - 1];
    assert y in q;
    var j0 := Join(q[..|q| - 1]);
    JoinLast(q);
    LastSlashAfter(j0, y);
    TakePrefix(j0 + [Slash], y);
  }

  /** Dirname of a root, a text that starts and ends with a unit other than
      a slash, and an optional trailing slash. */
  lemma DirnameJoined(pre: JsString, j: JsString, tail: JsString)
    requires pre == [] || pre == [Slash]
    requires |j| > 0 && j[0] != Slash && j[|j| - 1] != Slash
    requires tail == [] || tail == [Slash]
    ensures Dirname(pre + (j + tail)) == RootAndDir(pre, j[..LastSlash(j) + 1])
  {
    assert (j + tail)[0] == j[0];
    DirnameSplit(pre, j + tail);
    DirOfJoin(j, tail);
  }

  /** The directory group of a slash-free-ended text with an optional
      trailing slash. */
  lemma DirOfJoin(j: JsString, tail: JsString)
    requires |j| > 0 && j[|j| - 1] != Slash
    requires tail == [] || tail == [Slash]
    ensures (j + tail)[..DirLength(j + tail)] == j[..LastSlash(j) + 1]
  {
    var t := j + tail;
    TrimmedSlash(j, tail);
    TakePrefix(j, tail);
    assert t[..Trimmed(t)] == j;
    var k := LastSlash(j) + 1;
    assert DirLength(t) == k;
    TakeWithin(j, tail, k);
  }

  lemma TrimmedSlash(j: JsString, tail: JsString)
    requires |j| > 0 && j[|j| - 1] != Slash
    requires tail == [] || tail == [Slash]
    ensures Trimmed(j + tail) == |j|
  {
    var t := j + tail;
    if tail == [] {
      assert t == j;
    } else {
      assert t[..|t| - 1] == j;
    }
  }

  lemma RootAndDirSlash(root: JsString, x: JsString)
    ensures RootAndDir(root, x + [Slash]) == root + x
  {
    var d := x + [Slash];
    assert d[..|d| - 1] == x;
  }

  lemma TakeWithin(x: JsString, y: JsString, k: nat)
    requires k <= |x|
    ensures (x + y)[..k] == x[..k]
  {
  }

  /** A rendered non-empty list: optional root, the join, optional slash. */
  lemma RenderJoin(abs: bool, q: seq<JsString>, trail: bool)
    requires Join(q) != []
    ensures Render(abs, q, trail)
         == (if abs then [Slash] else []) + (Join(q) + if trail then [Slash] else [])
  {
    if !trail {
      assert Join(q) + [] == Join(q);
    }
  }

  lemma TakePrefix(x: JsString, y: JsString)
    ensures (x + y)[..|x|] == x
  {
  }

  lemma {:induction false} LastSlashAfter(x: JsString, y: JsString)
    requires Slash !in y
    ensures LastSlash(x + [Slash] + y) == |x|
    decreases |y|
  {
    var m := x + [Slash] + y;
    if |y| == 0 {
      assert m == x + [Slash];
    } else {
      var y' := y[..|y| - 1];
      assert y[|y| - 1] in y;
      assert m[|m| - 1] == y[|y| - 1];
      assert m[..|m| - 1] == x + [Slash] + y';
      assert forall u :: u in y' ==> u in y;
      LastSlashAfter(x, y');
    }
  }

  // ---------------------------------------------------------------------
  // resolve
  // ---------------------------------------------------------------------

  /** An argument of path.resolve: a string, or any other value. */
  datatype Arg = Str(s: JsString) | NotString

  /** Where the right-to-left scan of resolve ends. */
  datatype Scanned = Joined(path: JsString) | EmptyArg | BadArg

  const ResolveTypeError: string := "Arguments to path.resolve must be strings"

  /** The scan from argument `c` leftwards, `acc` holding what the later
      arguments contributed.  Position -1 stands for the root "/", so the
      scan always ends on an absolute argument, on an empty one (resolve
      then returns "") or on a non-string (a TypeError). */
  function ScanFrom(args: seq<Arg>, c: int, acc: JsString): Scanned
    requires -1 <= c < |args|
    decreases c + 1
  {
    var p := if 0 <= c then args[c] else Str([Slash]);
    if p.NotString? then BadArg
    else if p.s == [] then EmptyArg
    else
      var acc' := p.s + [Slash] + acc;
      if p.s[0] == Slash then Joined(acc') else ScanFrom(args, c - 1, acc')
  }

  /** path.resolve(...args). */
  function ResolveOf(args: seq<Arg>): Result<JsString, string>
  {
    match ScanFrom(args, |args| - 1, [])
    case BadArg => Err(ResolveTypeError)
    case EmptyArg => Ok([])
    case Joined(a) => Ok([Slash] + Join(NormalizeParts(Segments(a), false)))
  }

  /** resolve: prepends arguments from the right until one is absolute
      (the root "/" if none is), then normalizes the joined path. */
  method Resolve(args: seq<Arg>) returns (r: Result<JsString, string>)
    ensures r == ResolveOf(args)
  {
    var a: JsString := [];
    var abs := false;
    var c := |args| - 1;
    while -1 <= c && !abs
      invariant -2 <= c < |args|
      invariant !abs ==> -1 <= c && ScanFrom(args, |args| - 1, []) == ScanFrom(args, c, a)
      invariant abs ==> ScanFrom(args, |args| - 1, []) == Joined(a)
      decreases c + 2
    {
      var p := if 0 <= c then args[c] else Str([Slash]);
      if p.NotString? {
        return Err(ResolveTypeError);
      }
      if p.s == [] {
        return Ok([]);
      }
      a := p.s + [Slash] + a;
      abs := p.s[0] == Slash;
      c := c - 1;
    }
    var parts := NormalizeArray(Segments(a), !abs);
    var out := (if abs then [Slash] else []) + Join(parts);
    if out == [] {
      out := DotSeg;
    }
    return Ok(out);
  }

  /** A successful resolve gives an absolute path that normalize leaves
      unchanged. */
  lemma ResolveNormal(args: seq<Arg>)
    requires ResolveOf(args).Ok? && ResolveOf(args).value != []
    ensures IsAbs(ResolveOf(args).value)
    ensures Normalize(ResolveOf(args).value) == ResolveOf(args).value
  {
    var s := ScanFrom(args, |args| - 1, []);
    var q := NormalizeParts(Segments(s.path), false);
    NormalizePartsNormal(Segments(s.path), false);
    assert ResolveOf(args).value == Render(true, q, false);
    RenderShape(true, q, false);
    NormalizeRender(true, q, false);
  }

  /** Arguments to the left of an absolute one do not matter. */
  lemma ResolveAbsoluteLast(xs: seq<Arg>, p: JsString)
    requires IsAbs(p)
    ensures ResolveOf(xs + [Str(p)]) == Ok([Slash] + Join(NormalizeParts(Segments(p), false)))
  {
    var args := xs + [Str(p)];
    assert args[|args| - 1] == Str(p);
    assert ScanFrom(args, |args| - 1, []) == Joined(p + [Slash] + []);
    assert p + [Slash] + [] == p + [Slash];
    SegmentsTrailSlash(p);
  }

  lemma {:induction false} ScanShift(xs: seq<Arg>, c: int, acc: JsString)
    requires -1 <= c < |xs|
    ensures ScanFrom([Str([Slash])] + xs, c + 1, acc) == ScanFrom(xs, c, acc)
    decreases c + 1
  {
    var ys := [Str([Slash])] + xs;
    assert ys[c + 1] == if 0 <= c then xs[c] else Str([Slash]);
    var p := ys[c + 1];
    if p.Str? && p.s != [] && p.s[0] != Slash {
      ScanShift(xs, c - 1, p.s + [Slash] + acc);
    }
  }

  /** With no absolute argument resolve starts from the root: an explicit
      leading "/" changes nothing. */
  lemma ResolveFromRoot(xs: seq<Arg>)
    ensures ResolveOf([Str([Slash])] + xs) == ResolveOf(xs)
  {
    ScanShift(xs, |xs| - 1, []);
  }
}
