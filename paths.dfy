/** POSIX path resolution as the storage guards use it: `path.resolve` of a
    path against the storage root, `path.relative` back from the root, and
    the traversal test that accepts a path only when the relative form
    neither starts with ".." nor is absolute. An absolute path is kept as the
    list of its segments; its text is "/" followed by the segments joined
    with "/". */
module Paths {
  import opened Text

  /** A segment of a normalised path: non-empty, not "." or "..", and free
      of the separator. */
  predicate NormalSegment(s: string) {
    s != "" && s != "." && s != ".." && '/' !in s
  }

  /** The segments of a normalised absolute path. */
  predicate Normal(segs: seq<string>) {
    forall k :: 0 <= k < |segs| ==> NormalSegment(segs[k])
  }

  /** The absolute path's text. */
  function PathText(segs: seq<string>): string {
    "/" + Join(segs, "/")
  }

  /** The normalisation inside `path.resolve`: empty and "." segments
      vanish, ".." drops the last segment kept so far (and stays at the root
      when there is none), any other segment is kept. */
  function Normalize(acc: seq<string>, segs: seq<string>): (r: seq<string>)
    requires Normal(acc)
    requires forall k :: 0 <= k < |segs| ==> '/' !in segs[k]
    ensures Normal(r)
    decreases |segs|
  {
    if segs == [] then acc
    else if segs[0] == "" || segs[0] == "." then Normalize(acc, segs[1..])
    else if segs[0] == ".." then Normalize(if acc == [] then [] else acc[..|acc| - 1], segs[1..])
    else Normalize(acc + [segs[0]], segs[1..])
  }

  lemma {:induction false} NotContainsChar(p: string, c: char)
    requires !Contains(p, [c])
    ensures c !in p
    decreases |p|
  {
    if p != [] {
      assert !([c] <= p);
      NotContainsChar(p[1..], c);
      assert p == [p[0]] + p[1..];
    }
  }

  /** The pieces of `p` between its slashes. */
  function Segments(p: string): (segs: seq<string>)
    ensures forall k :: 0 <= k < |segs| ==> '/' !in segs[k]
  {
    var segs := Split(p, "/");
    SplitPiecesLackSeparator(p, "/");
    assert forall k :: 0 <= k < |segs| ==> '/' !in segs[k] by {
      forall k | 0 <= k < |segs| ensures '/' !in segs[k] {
        assert segs[k] in segs;
        NotContainsChar(segs[k], '/');
      }
    }
    segs
  }

  /** `path.resolve(root, p)` for an absolute, normalised `root`. */
  function Resolve(root: seq<string>, p: string): (r: seq<string>)
    requires Normal(root)
    ensures Normal(r)
  {
    if p != [] && p[0] == '/' then Normalize([], Segments(p)) else Normalize(root, Segments(p))
  }

  /** How many leading segments two paths share. */
  function CommonPrefix(a: seq<string>, b: seq<string>): (k: nat)
    ensures k <= |a| && k <= |b| && a[..k] == b[..k]
    ensures k < |a| && k < |b| ==> a[k] != b[k]
  {
    if a == [] || b == [] || a[0] != b[0] then 0
    else
      var k := CommonPrefix(a[1..], b[1..]);
      assert a[..k + 1] == [a[0]] + a[1..][..k];
      assert b[..k + 1] == [b[0]] + b[1..][..k];
      1 + k
  }

  function Ups(n: nat): (r: seq<string>)
    ensures |r| == n && forall k :: 0 <= k < n ==> r[k] == ".."
  {
    if n == 0 then [] else [".."] + Ups(n - 1)
  }

  /** `path.relative(from, to)` between two normalised absolute paths: one
      ".." for each segment of `from` past the shared prefix, then the rest
      of `to`. */
  function Relative(from: seq<string>, to: seq<string>): string {
    var k := CommonPrefix(from, to);
    Join(Ups(|from| - k) + to[k..], "/")
  }

  predicate IsAbsolute(p: string) {
    p != [] && p[0] == '/'
  }

  /** The traversal test: `rel.startsWith("..") || path.isAbsolute(rel)`
      fails on `path.relative(root, path.resolve(root, p))`. */
  predicate Accepts(root: seq<string>, p: string)
    requires Normal(root)
  {
    var rel := Relative(root, Resolve(root, p));
    !(".." <= rel) && !IsAbsolute(rel)
  }

  lemma {:induction false} JoinStartsWithFirst(parts: seq<string>, sep: string)
    requires parts != []
    ensures parts[0] <= Join(parts, sep)
  {
    if |parts| > 1 {
      JoinCons(parts[0], parts[1..], sep);
      assert parts == [parts[0]] + parts[1..];
    }
  }

  /** A path is accepted exactly when it resolves to the root itself or to
      a path below the root whose first segment below the root does not
      begin with "..": every accepted path stays inside the root, and the
      only paths inside the root that are refused are those under a
      directory whose name begins with "..". */
  lemma {:induction false} AcceptsIffInside(root: seq<string>, p: string)
    requires Normal(root)
    ensures var abs := Resolve(root, p);
            Accepts(root, p) <==> root <= abs && (|abs| == |root| || !(".." <= abs[|root|]))
  {
    var abs := Resolve(root, p);
    var k := CommonPrefix(root, abs);
    var parts := Ups(|root| - k) + abs[k..];
    var rel := Join(parts, "/");
    assert Relative(root, abs) == rel;
    if root <= abs {
      assert k == |root|;
      assert parts == abs[|root|..];
      if |abs| > |root| {
        var seg := abs[|root|];
        assert NormalSegment(seg);
        JoinStartsWithFirst(parts, "/");
        assert seg <= rel;
        assert rel[0] == seg[0];
        if |seg| == 1 {
          assert seg[0] != '.' || seg == ".";
          assert !(".." <= rel) by {
            if |parts| > 1 {
              JoinCons(parts[0], parts[1..], "/");
              assert parts == [parts[0]] + parts[1..];
              assert rel[1] == '/';
            } else {
              assert |rel| == 1;
            }
          }
        } else {
          assert (".." <= rel) <==> (".." <= seg);
        }
        assert seg[0] in seg;
      } else {
        assert parts == [];
      }
    } else {
      assert k < |root|;
      JoinStartsWithFirst(parts, "/");
      assert parts[0] == "..";
    }
  }
}
