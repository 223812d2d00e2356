/** Path identity as Rust's `Path` sees it on Unix: two paths are equal,
    and order the same way as keys of a `BTreeMap<PathBuf, _>`, exactly
    when their `components()` are equal. Repeated separators and a
    trailing separator are ignored, and `.` is dropped except at the start
    of a relative path. */
module Paths {

  datatype Component = RootDir | CurDir | ParentDir | Normal(name: string)

  /** What a `PathBuf` key compares: the path's components. */
  type PathKey = seq<Component>

  /** The text cut at every `'/'`; there is one more part than there are
      separators. */
  function Segments(p: string): (r: seq<string>)
    ensures |r| >= 1
    decreases |p|
  {
    if p == [] then [""]
    else
      var rest := Segments(p[1..]);
      if p[0] == '/' then [""] + rest
      else [[p[0]] + rest[0]] + rest[1..]
  }

  /** The parts put back together with a `'/'` between neighbours. */
  function JoinSegments(parts: seq<string>): string
    requires |parts| >= 1
    decreases |parts|
  {
    if |parts| == 1 then parts[0] else parts[0] + "/" + JoinSegments(parts[1..])
  }

  /** No part holds a separator. */
  lemma {:induction false} SegmentsHaveNoSeparator(p: string)
    ensures forall i :: 0 <= i < |Segments(p)| ==> '/' !in Segments(p)[i]
    decreases |p|
  {
    if p != [] {
      SegmentsHaveNoSeparator(p[1..]);
      var rest := Segments(p[1..]);
      if p[0] != '/' {
        assert '/' !in [p[0]] + rest[0];
        var r := Segments(p);
        assert forall i :: 1 <= i < |r| ==> r[i] == rest[i];
      }
    }
  }

  /** Cutting a path at its separators loses nothing. */
  lemma {:induction false} SegmentsJoin(p: string)
    ensures JoinSegments(Segments(p)) == p
    decreases |p|
  {
    if p != [] {
      var rest := Segments(p[1..]);
      SegmentsJoin(p[1..]);
      if p[0] == '/' {
        assert JoinSegments([""] + rest) == "" + "/" + JoinSegments(rest);
      } else if |rest| == 1 {
        assert JoinSegments([[p[0]] + rest[0]]) == [p[0]] + rest[0];
      } else {
        var r := [[p[0]] + rest[0]] + rest[1..];
        assert r[1..] == rest[1..];
        assert JoinSegments(rest) == rest[0] + "/" + JoinSegments(rest[1..]);
      }
    }
  }

  /** The components the parts after the first one give: empty parts and
      `.` vanish, `..` is the parent, anything else is a name. */
  function Named(parts: seq<string>): PathKey {
    if parts == [] then []
    else
      var rest := Named(parts[1..]);
      if parts[0] == "" || parts[0] == "." then rest
      else if parts[0] == ".." then [ParentDir] + rest
      else [Normal(parts[0])] + rest
  }

  /** The components of a path that does not start at the root, from its
      parts: a first part `.` is kept as the current directory. */
  function Relative(parts: seq<string>): PathKey
    requires |parts| >= 1
  {
    if parts[0] == "." then [CurDir] + Named(parts[1..]) else Named(parts)
  }

  /** `Path::components` of a Unix path. */
  function Components(p: string): PathKey {
    if |p| > 0 && p[0] == '/' then [RootDir] + Named(Segments(p[1..])) else Relative(Segments(p))
  }

  /** A component read from one of `parts`: a parent, or a real name. */
  predicate FromPart(c: Component, parts: seq<string>) {
    c.ParentDir? || (c.Normal? && c.name != "" && c.name != "." && c.name != ".." && c.name in parts)
  }

  /** Parts read as names are parents or real names, never empty or `.`. */
  lemma {:induction false} NamedShape(parts: seq<string>)
    ensures forall i :: 0 <= i < |Named(parts)| ==> FromPart(Named(parts)[i], parts)
    decreases |parts|
  {
    if parts != [] {
      NamedShape(parts[1..]);
      var rest := Named(parts[1..]);
      var r := Named(parts);
      var k := if parts[0] == "" || parts[0] == "." then 0 else 1;
      if k == 1 {
        var head := if parts[0] == ".." then ParentDir else Normal(parts[0]);
        assert r == [head] + rest;
        assert parts[0] in parts;
      } else {
        assert r == rest;
      }
      forall i | 0 <= i < |r|
        ensures FromPart(r[i], parts)
      {
        if i >= k {
          var c := rest[i - k];
          assert r[i] == c && FromPart(c, parts[1..]);
          if c.Normal? {
            var j :| 0 <= j < |parts[1..]| && parts[1..][j] == c.name;
            assert parts[j + 1] == c.name;
          }
        }
      }
    }
  }

  /** The shape `Path::components` promises: the root only first, the
      current directory only first and only without a root, no empty name,
      no `.` or `..` as a name, no separator inside a name. */
  lemma ComponentsShape(p: string)
    ensures var r := Components(p);
      && ((|r| > 0 && r[0] == RootDir) <==> (|p| > 0 && p[0] == '/'))
      && (forall i :: 0 < i < |r| ==> r[i].ParentDir? || r[i].Normal?)
      && (forall i :: 0 <= i < |r| && r[i].Normal? ==>
            r[i].name != "" && r[i].name != "." && r[i].name != ".." && '/' !in r[i].name)
  {
    var r := Components(p);
    if |p| > 0 && p[0] == '/' {
      var parts := Segments(p[1..]);
      NamedShape(parts);
      SegmentsHaveNoSeparator(p[1..]);
      assert forall i :: 1 <= i < |r| ==> r[i] == Named(parts)[i - 1];
    } else {
      var parts := Segments(p);
      SegmentsHaveNoSeparator(p);
      if parts[0] == "." {
        NamedShape(parts[1..]);
        assert forall s :: s in parts[1..] ==> s in parts;
        assert forall i :: 1 <= i < |r| ==> r[i] == Named(parts[1..])[i - 1];
      } else {
        NamedShape(parts);
        assert r == Named(parts);
        forall i | 0 <= i < |r| && r[i].Normal?
          ensures '/' !in r[i].name
        {
          var j :| 0 <= j < |parts| && parts[j] == r[i].name;
        }
      }
    }
  }

  /** A separator in the middle cuts the text into the parts of each side. */
  lemma {:induction false} SegmentsSplit(a: string, b: string)
    ensures Segments(a + "/" + b) == Segments(a) + Segments(b)
    decreases |a|
  {
    if a == [] {
      assert a + "/" + b == "/" + b;
      assert ("/" + b)[1..] == b;
    } else {
      var tail := a[1..];
      assert (a + "/" + b)[1..] == tail + "/" + b;
      assert (a + "/" + b)[0] == a[0];
      SegmentsSplit(tail, b);
    }
  }

  /** The components of two runs of parts are those of each run. */
  lemma {:induction false} NamedConcat(x: seq<string>, y: seq<string>)
    ensures Named(x + y) == Named(x) + Named(y)
    decreases |x|
  {
    if x != [] {
      assert (x + y)[0] == x[0];
      assert (x + y)[1..] == x[1..] + y;
      NamedConcat(x[1..], y);
      var c := x[0];
      if c == "" || c == "." {
        assert Named(x + y) == Named(x[1..] + y);
        assert Named(x) == Named(x[1..]);
      } else {
        var head := if c == ".." then ParentDir else Normal(c);
        assert Named(x + y) == [head] + Named(x[1..] + y);
        assert Named(x) == [head] + Named(x[1..]);
        assert [head] + (Named(x[1..]) + Named(y)) == ([head] + Named(x[1..])) + Named(y);
      }
    } else {
      assert x + y == y;
    }
  }

  /** Parts after the first one are read the same way in a relative path. */
  lemma RelativeConcat(x: seq<string>, y: seq<string>)
    requires |x| >= 1
    ensures Relative(x + y) == Relative(x) + Named(y)
  {
    assert (x + y)[0] == x[0];
    assert (x + y)[1..] == x[1..] + y;
    NamedConcat(x, y);
    NamedConcat(x[1..], y);
  }

  /** A part without a separator is its own single segment. */
  lemma {:induction false} SegmentsOfPart(a: string)
    requires '/' !in a
    ensures Segments(a) == [a]
    decreases |a|
  {
    if a != [] {
      assert '/' !in a[1..] by {
        assert forall i :: 0 <= i < |a[1..]| ==> a[1..][i] == a[i + 1];
      }
      SegmentsOfPart(a[1..]);
      assert [a[0]] + a[1..] == a;
    }
  }

  /** An empty part or `.` followed by a separator is read as nothing. */
  lemma SkipPart(mid: string, b: string)
    requires mid == "" || mid == "."
    ensures Named(Segments(mid + "/" + b)) == Named(Segments(b))
  {
    SegmentsOfPart(mid);
    SegmentsSplit(mid, b);
    var s := [mid] + Segments(b);
    assert s[0] == mid && s[1..] == Segments(b);
  }

  /** An empty part or a `.` between two separators does not change the
      path: `a//b` and `a/./b` are `a/b`. */
  lemma EmptyOrDotIgnored(a: string, mid: string, b: string)
    requires mid == "" || mid == "."
    ensures Components(a + "/" + (mid + "/" + b)) == Components(a + "/" + b)
  {
    SkipPart(mid, b);
    if a == [] {
      RootedSkip(a, mid + "/" + b, b);
    } else if a[0] == '/' {
      RootedSkip(a, mid + "/" + b, b);
    } else {
      SegmentsSplit(a, mid + "/" + b);
      SegmentsSplit(a, b);
      RelativeConcat(Segments(a), Segments(mid + "/" + b));
      RelativeConcat(Segments(a), Segments(b));
    }
  }

  /** Two tails read alike give the same path under the same rooted start. */
  lemma RootedSkip(a: string, t: string, u: string)
    requires a == [] || a[0] == '/'
    requires Named(Segments(t)) == Named(Segments(u))
    ensures Components(a + "/" + t) == Components(a + "/" + u)
  {
    if a == [] {
      assert a + "/" + t == "/" + t && a + "/" + u == "/" + u;
      RootedTail(t);
      RootedTail(u);
    } else {
      RootedUnder(a, t);
      RootedUnder(a, u);
    }
  }

  /** Under a rooted start, the parts of the tail follow those of the start. */
  lemma RootedUnder(a: string, t: string)
    requires a != [] && a[0] == '/'
    ensures Components(a + "/" + t) == [RootDir] + (Named(Segments(a[1..])) + Named(Segments(t)))
  {
    var p := a + "/" + t;
    assert p[0] == '/';
    DropFirst(a, "/" + t);
    assert p[1..] == a[1..] + "/" + t;
    RootedRest(p);
    SegmentsSplit(a[1..], t);
    NamedConcat(Segments(a[1..]), Segments(t));
  }

  /** Dropping the first character of a concatenation drops it from the
      left part. */
  lemma DropFirst(a: string, b: string)
    requires a != []
    ensures (a + b)[1..] == a[1..] + b
  {
  }

  /** A path starting at the root is the root followed by the names of the
      rest. */
  lemma RootedRest(p: string)
    requires |p| > 0 && p[0] == '/'
    ensures Components(p) == [RootDir] + Named(Segments(p[1..]))
  {
  }

  /** A path starting at the root is the root followed by its other parts. */
  lemma RootedTail(t: string)
    ensures Components("/" + t) == [RootDir] + Named(Segments(t))
  {
    assert ("/" + t)[0] == '/' && ("/" + t)[1..] == t;
  }

  /** A trailing separator does not change a non-empty path: `a/b/` is `a/b`. */
  lemma TrailingSeparatorIgnored(a: string)
    requires a != ""
    ensures Components(a + "/") == Components(a)
  {
    assert a + "/" == a + "/" + "";
    assert Segments("") == [""];
    if a[0] == '/' {
      assert (a + "/")[1..] == a[1..] + "/" + "";
      SegmentsSplit(a[1..], "");
      NamedConcat(Segments(a[1..]), [""]);
    } else {
      SegmentsSplit(a, "");
      RelativeConcat(Segments(a), [""]);
    }
  }

  /** A leading `.` is kept: `./a` and `a` are different paths. */
  lemma LeadingDotKept(a: string)
    requires a != "" && a[0] != '/' && a[0] != '.' && '/' !in a
    ensures Components("." + "/" + a) == [CurDir, Normal(a)]
    ensures Components(a) == [Normal(a)]
  {
    SegmentsSplit(".", a);
    SegmentsOfPart(".");
    SegmentsOfPart(a);
    assert ("." + "/" + a)[0] == '.';
    var s := ["."] + [a];
    assert s[0] == "." && s[1..] == [a];
    assert a != "" && a != "." && a != "..";
    assert [a][1..] == [];
    assert Named([a]) == [Normal(a)] + Named([]);
  }
}
