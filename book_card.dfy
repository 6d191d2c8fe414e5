/** The book card of the catalogue: the title shown without its subtitle
    and the author hidden when the catalogue does not know it. */
module BookCard {
  import opened Wrappers
  import opened Text

  predicate IsSubtitleMark(c: char) {
    c == ':' || c == ';'
  }

  predicate SingleLine(s: string) {
    forall k :: 0 <= k < |s| ==> !IsLineTerminator(s[k])
  }

  /** Where `/[:;].*$/` matches, searching from `from`: the first ':' or ';'
      after which the rest of the title has no line terminator (`.` does
      not match one, and `$` without the `m` flag is the end of the title). */
  function CutFrom(s: string, from: nat): (r: Option<nat>)
    requires from <= |s|
    ensures r.Some? ==> from <= r.value < |s| && IsSubtitleMark(s[r.value]) && SingleLine(s[r.value + 1..])
    ensures r.Some? ==> forall k :: from <= k < r.value ==> !(IsSubtitleMark(s[k]) && SingleLine(s[k + 1..]))
    ensures r.None? ==> forall k :: from <= k < |s| ==> !(IsSubtitleMark(s[k]) && SingleLine(s[k + 1..]))
    decreases |s| - from
  {
    if from == |s| then None
    else if IsSubtitleMark(s[from]) && SingleLine(s[from + 1..]) then Some(from)
    else CutFrom(s, from + 1)
  }

  /** `title.replace(/[:;].*$/, "")`: the title up to the match, or the
      whole title when there is none. */
  function CleanTitle(s: string): (r: string)
    ensures r <= s
  {
    match CutFrom(s, 0)
    case None => s
    case Some(k) => s[..k]
  }

  /** On a one-line title the cut is at the first ':' or ';': what is shown
      is the title up to it, holding neither; a title with neither is shown
      whole. */
  lemma {:induction false} CleanSingleLineTitle(s: string)
    requires SingleLine(s)
    ensures forall k :: 0 <= k < |CleanTitle(s)| ==> !IsSubtitleMark(CleanTitle(s)[k])
    ensures CleanTitle(s) == s || IsSubtitleMark(s[|CleanTitle(s)|])
    ensures (forall k :: 0 <= k < |s| ==> !IsSubtitleMark(s[k])) ==> CleanTitle(s) == s
  {
    forall k | 0 <= k < |s| ensures IsSubtitleMark(s[k]) ==> SingleLine(s[k + 1..]) {
      SingleLineSuffix(s, k + 1);
    }
  }

  lemma {:induction false} SingleLineSuffix(s: string, from: nat)
    requires SingleLine(s) && from <= |s|
    ensures SingleLine(s[from..])
  {
    var t := s[from..];
    forall j | 0 <= j < |t| ensures !IsLineTerminator(t[j]) {
      assert t[j] == s[from + j];
    }
  }

  /** On a title of several lines the cut is only made on its last line: a
      ':' followed later by a line break is kept. */
  lemma {:induction false} ColonBeforeLineBreakKept(a: string, b: string)
    requires SingleLine(a) && SingleLine(b)
    requires forall k :: 0 <= k < |b| ==> !IsSubtitleMark(b[k])
    ensures CleanTitle(a + ":" + "\n" + b) == a + ":" + "\n" + b
  {
    var s := a + ":" + "\n" + b;
    forall k | 0 <= k < |s| ensures !(IsSubtitleMark(s[k]) && SingleLine(s[k + 1..])) {
      if k <= |a| {
        assert s[k + 1..][|a| - k] == '\n';
      } else if k == |a| + 1 {
        assert s[k] == '\n';
      } else {
        assert s[k] == b[k - |a| - 2];
      }
    }
  }

  /** The author line: empty for an author recorded as "unknown" in any
      letter case. */
  function ShownAuthor(author: string): (r: string)
    ensures r == author || r == ""
    ensures r == "" <==> author == "" || Lower(author) == "unknown"
  {
    if Lower(author) == "unknown" then "" else author
  }
}
