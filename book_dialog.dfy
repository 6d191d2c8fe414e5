/** The subject list of the book dialog: catalogue subjects such as
    "Fiction -- History -- 19th century" are split at "--" into their
    trimmed, non-empty parts; other subjects are kept whole; the flattened
    list is stripped of repeats, each value staying where it first
    appeared. */
module BookDialog {
  import opened Text

  // ---------------------------------------------------------------------------
  // splitting one subject

  function TrimAll(parts: seq<string>): (r: seq<string>)
    ensures |r| == |parts|
    ensures forall k :: 0 <= k < |r| ==> r[k] == Trim(parts[k])
  {
    if parts == [] then [] else [Trim(parts[0])] + TrimAll(parts[1..])
  }

  /** `.filter(Boolean)` on strings: the non-empty ones, in order. */
  function NonEmpty(parts: seq<string>): (r: seq<string>)
    ensures forall p :: p in r <==> p in parts && p != ""
  {
    if parts == [] then []
    else if parts[0] == "" then NonEmpty(parts[1..])
    else [parts[0]] + NonEmpty(parts[1..])
  }

  /** What one subject contributes. */
  function SubjectParts(s: string): seq<string> {
    if Contains(s, "--") then NonEmpty(TrimAll(Split(s, "--"))) else [s]
  }

  /** `subjects.flatMap(…)`. */
  function Expanded(subjects: seq<string>): seq<string> {
    if subjects == [] then [] else SubjectParts(subjects[0]) + Expanded(subjects[1..])
  }

  // ---------------------------------------------------------------------------
  // removing repeats

  function SetOf(xs: seq<string>): set<string> {
    set x | x in xs
  }

  /** `Array.from(new Set(xs))`, scanning left to right with the values
      already taken in `seen`. */
  function DedupFrom(xs: seq<string>, seen: set<string>): seq<string> {
    if xs == [] then []
    else if xs[0] in seen then DedupFrom(xs[1..], seen)
    else [xs[0]] + DedupFrom(xs[1..], seen + {xs[0]})
  }

  /** The subjects the dialog shows. */
  function DialogSubjects(subjects: seq<string>): seq<string> {
    DedupFrom(Expanded(subjects), {})
  }

  /** An independent reading of "first occurrences in order": walk from the
      back, keeping an element when it does not occur before it. */
  function FirstOccurrences(xs: seq<string>): seq<string> {
    if xs == [] then []
    else
      var init := xs[..|xs| - 1];
      FirstOccurrences(init) + (if xs[|xs| - 1] in init then [] else [xs[|xs| - 1]])
  }

  lemma {:induction false} DedupAppend(a: seq<string>, b: seq<string>, seen: set<string>)
    ensures DedupFrom(a + b, seen) == DedupFrom(a, seen) + DedupFrom(b, seen + SetOf(a))
  {
    if a == [] {
      assert a + b == b && SetOf(a) == {};
      assert seen + SetOf(a) == seen;
    } else {
      assert (a + b)[1..] == a[1..] + b && (a + b)[0] == a[0];
      var next := if a[0] in seen then seen else seen + {a[0]};
      DedupAppend(a[1..], b, next);
      assert next + SetOf(a[1..]) == seen + SetOf(a) by {
        assert a == [a[0]] + a[1..];
      }
    }
  }

  /** Removing repeats keeps each value at its first occurrence, in the
      order of those occurrences. */
  lemma {:induction false} DedupIsFirstOccurrences(xs: seq<string>)
    ensures DedupFrom(xs, {}) == FirstOccurrences(xs)
  {
    if xs != [] {
      var init := xs[..|xs| - 1];
      var last := xs[|xs| - 1];
      DedupIsFirstOccurrences(init);
      assert xs == init + [last];
      DedupAppend(init, [last], {});
      assert {} + SetOf(init) == SetOf(init);
      assert (last in SetOf(init)) == (last in init);
    }
  }

  /** The values kept are the values met, less those already seen, each
      once. */
  lemma {:induction false} DedupMembers(xs: seq<string>, seen: set<string>)
    ensures forall x :: x in DedupFrom(xs, seen) <==> x in xs && x !in seen
    ensures forall i, j :: 0 <= i < j < |DedupFrom(xs, seen)| ==> DedupFrom(xs, seen)[i] != DedupFrom(xs, seen)[j]
  {
    if xs != [] {
      var next := if xs[0] in seen then seen else seen + {xs[0]};
      DedupMembers(xs[1..], next);
      assert xs == [xs[0]] + xs[1..];
      if xs[0] !in seen {
        var r := DedupFrom(xs, seen);
        var tail := DedupFrom(xs[1..], next);
        assert r == [xs[0]] + tail;
        forall i, j | 0 <= i < j < |r| ensures r[i] != r[j] {
          assert r[j] == tail[j - 1];
          assert tail[j - 1] in tail;
          if i > 0 {
            assert r[i] == tail[i - 1];
          }
        }
      }
    }
  }

  // ---------------------------------------------------------------------------
  // substrings keep what they contain

  lemma {:induction false} ContainedInSuffix(s: string, k: nat, x: string)
    requires k <= |s| && Contains(s[k..], x)
    ensures Contains(s, x)
  {
    if k > 0 {
      assert s[1..][k - 1..] == s[k..];
      ContainedInSuffix(s[1..], k - 1, x);
    }
  }

  lemma {:induction false} ContainedInPrefix(t: string, s: string, x: string)
    requires t <= s && Contains(t, x)
    ensures Contains(s, x)
  {
    if x <= t {
      PrefixTransitive(x, t, s);
    } else {
      assert t[1..] <= s[1..];
      ContainedInPrefix(t[1..], s[1..], x);
    }
  }

  lemma {:induction false} TrimKeepsOut(p: string, x: string)
    requires !Contains(p, x)
    ensures !Contains(Trim(p), x)
  {
    var q := TrimStart(p);
    if Contains(Trim(p), x) {
      ContainedInPrefix(Trim(p), q, x);
      ContainedInSuffix(p, |p| - |q|, x);
    }
  }

  // ---------------------------------------------------------------------------
  // what the dialog promises

  /** A subject the dialog splits: one holding "--". */
  predicate Compound(s: string) {
    Contains(s, "--")
  }

  /** A subject without "--" is kept as it is. */
  lemma {:induction false} PlainSubjectKept(s: string)
    requires !Compound(s)
    ensures SubjectParts(s) == [s]
  {
  }

  /** The parts of a split subject are non-empty, hold no "--" and carry no
      surrounding blanks. */
  lemma {:induction false} SplitPartsClean(s: string)
    requires Compound(s)
    ensures forall p :: p in SubjectParts(s) ==> p != "" && !Contains(p, "--") && Trim(p) == p
  {
    var pieces := Split(s, "--");
    var trimmed := TrimAll(pieces);
    SplitPiecesLackSeparator(s, "--");
    forall p | p in SubjectParts(s) ensures p != "" && !Contains(p, "--") && Trim(p) == p {
      var k :| 0 <= k < |trimmed| && trimmed[k] == p;
      assert pieces[k] in pieces;
      TrimKeepsOut(pieces[k], "--");
      TrimIdempotent(pieces[k]);
    }
  }

  /** Each part of a split subject is one of its "--"-separated pieces,
      trimmed, and not empty ... */
  lemma {:induction false} SplitPartsArePieces(s: string, p: string)
    requires Compound(s)
    ensures p in SubjectParts(s) ==> p != "" && exists k :: 0 <= k < |Split(s, "--")| && p == Trim(Split(s, "--")[k])
  {
    var pieces := Split(s, "--");
    var trimmed := TrimAll(pieces);
    assert SubjectParts(s) == NonEmpty(trimmed);
    if p in trimmed {
      var k :| 0 <= k < |trimmed| && trimmed[k] == p;
      assert p == Trim(pieces[k]);
    }
  }

  /** ... and every piece that is not blank gives a part. */
  lemma {:induction false} PiecesArePartsUnlessBlank(s: string, k: nat)
    requires Compound(s) && k < |Split(s, "--")|
    ensures Trim(Split(s, "--")[k]) != "" ==> Trim(Split(s, "--")[k]) in SubjectParts(s)
  {
    var trimmed := TrimAll(Split(s, "--"));
    assert SubjectParts(s) == NonEmpty(trimmed);
    assert trimmed[k] in trimmed;
  }

  lemma {:induction false} ExpandedMembers(subjects: seq<string>)
    ensures forall x :: x in Expanded(subjects) <==> exists s :: s in subjects && x in SubjectParts(s)
  {
    if subjects != [] {
      ExpandedMembers(subjects[1..]);
      assert subjects == [subjects[0]] + subjects[1..];
    }
  }

  /** The dialog lists each part of each subject exactly once, nothing
      else, in the order of first appearance. */
  lemma {:induction false} DialogSubjectsMeaning(subjects: seq<string>)
    ensures var shown := DialogSubjects(subjects);
            && (forall x :: x in shown <==> exists s :: s in subjects && x in SubjectParts(s))
            && (forall i, j :: 0 <= i < j < |shown| ==> shown[i] != shown[j])
            && shown == FirstOccurrences(Expanded(subjects))
  {
    ExpandedMembers(subjects);
    DedupMembers(Expanded(subjects), {});
    DedupIsFirstOccurrences(Expanded(subjects));
  }
}
