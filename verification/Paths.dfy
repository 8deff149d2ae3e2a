/** Normalized absolute paths and their components. */
module Paths {
  import opened Strings

  function Render(components: seq<string>): string {
    if components == [] then "/" else RenderBelow(components)
  }

  function RenderBelow(components: seq<string>): string {
    if components == [] then "" else "/" + components[0] + RenderBelow(components[1..])
  }

  predicate Components(components: seq<string>) {
    forall i :: 0 <= i < |components| ==> components[i] != "" && '/' !in components[i]
  }

  lemma RenderEnds(components: seq<string>)
    requires Components(components) && components != []
    ensures RenderBelow(components)[0] == '/' && RenderBelow(components)[|RenderBelow(components)| - 1] != '/'
  {
  }

  // ---- Trailing segments ----

  predicate IsSuffix(s: seq<string>, t: seq<string>) {
    |s| <= |t| && t[|t| - |s|..] == s
  }

  lemma {:induction false} RenderLast(init: seq<string>, last: string)
    ensures RenderBelow(init + [last]) == RenderBelow(init) + "/" + last
  {
    var all := init + [last];
    if init == [] {
      assert all == [last] && all[1..] == [];
    } else {
      RenderLast(init[1..], last);
      assert all[0] == init[0] && all[1..] == init[1..] + [last];
    }
  }

  lemma EndsWithIsConcat(s: string, suffix: string)
    ensures EndsWith(s, suffix) <==> exists head :: s == head + suffix
  {
    if EndsWith(s, suffix) {
      assert s == s[..|s| - |suffix|] + suffix;
    }
    if head :| s == head + suffix {
      assert s[|s| - |suffix|..] == suffix;
    }
  }

  lemma SameLastComponent(a: string, x: string, b: string, y: string)
    requires '/' !in x && '/' !in y && EndsWith(a + "/" + x, b + "/" + y)
    ensures x == y && EndsWith(a, b)
  {
    var s, t := a + "/" + x, b + "/" + y;
    var from := |s| - |t|;
    assert s[|a|] == '/' && t[|b|] == '/' && forall k :: 0 <= k < |t| ==> t[k] == s[from + k];
    assert forall k :: |a| < k < |s| ==> s[k] == x[k - |a| - 1];
    assert forall k :: |b| < k < |t| ==> t[k] == y[k - |b| - 1];
    assert from + |b| == |a|;
    assert x == s[|a| + 1..] && y == t[|b| + 1..];
    assert a == s[..|a|] && b == t[..|b|];
    assert a[from..] == b;
  }

  /** Where one path ends in another, their last components agree, and what is
      before them ends in the same way. */
  lemma LastComponents(a: string, x: string, b: string, y: string)
    requires '/' !in x && '/' !in y
    ensures EndsWith(a + "/" + x, b + "/" + y) <==> x == y && EndsWith(a, b)
  {
    var s, t := a + "/" + x, b + "/" + y;
    if EndsWith(s, t) {
      SameLastComponent(a, x, b, y);
    }
    if x == y && EndsWith(a, b) {
      assert a == a[..|a| - |b|] + b;
      assert s == a[..|a| - |b|] + t;
      EndsWithIsConcat(s, t);
    }
  }

  /** A path's text ends in the text of some segments exactly when they are its
      last segments. */
  lemma {:induction false} EndsInSegments(path: seq<string>, segments: seq<string>)
    requires Components(path) && Components(segments)
    ensures EndsWith(RenderBelow(path), RenderBelow(segments)) <==> IsSuffix(segments, path)
    decreases |path|
  {
    if segments == [] {
      assert RenderBelow(path)[|RenderBelow(path)|..] == "";
    } else if path == [] {
      RenderEnds(segments);
    } else {
      var p, s := path[..|path| - 1], segments[..|segments| - 1];
      var x, y := path[|path| - 1], segments[|segments| - 1];
      assert path == p + [x] && segments == s + [y];
      RenderLast(p, x);
      RenderLast(s, y);
      LastComponents(RenderBelow(p), x, RenderBelow(s), y);
      EndsInSegments(p, s);
      SuffixSnoc(p, x, s, y);
    }
  }

  lemma SuffixSnoc(p: seq<string>, x: string, s: seq<string>, y: string)
    ensures IsSuffix(s + [y], p + [x]) <==> x == y && IsSuffix(s, p)
  {
    var t, u := p + [x], s + [y];
    if |s| <= |p| {
      assert t[|t| - |u|..] == p[|p| - |s|..] + [x];
      if t[|t| - |u|..] == u {
        assert (p[|p| - |s|..] + [x])[|s|] == u[|s|];
        assert p[|p| - |s|..] == (p[|p| - |s|..] + [x])[..|s|] && s == u[..|s|];
      }
    }
  }
}
