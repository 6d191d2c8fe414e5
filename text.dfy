/** String helpers with JavaScript semantics: the `\s` whitespace class,
    `String.prototype.trim`, `toLowerCase` (ASCII letters only), `split` and
    `join`, and the `replace(/\s+/g, " ")` whitespace collapse. A string is a
    sequence of characters, and its length counts characters where
    JavaScript counts UTF-16 code units; only the characters the source
    tests for matter here. */
module Text {

  /** The two whitespace sets the source uses: JavaScript's `\s` class and the
      six character codes 9, 10, 11, 12, 13 and 32 tested by the streaming word
      counter. */
  datatype Blanks = JsWhitespace | AsciiWhitespace

  /** JavaScript's `\s`, which is also the set `trim` strips. */
  predicate IsJsSpace(c: char) {
    || c == '\t' || c == '\n' || c == '\U{B}' || c == '\U{C}' || c == '\r' || c == ' '
    || c == '\U{A0}' || c == '\U{1680}' || ('\U{2000}' <= c <= '\U{200A}')
    || c == '\U{2028}' || c == '\U{2029}' || c == '\U{202F}' || c == '\U{205F}'
    || c == '\U{3000}' || c == '\U{FEFF}'
  }

  /** Character codes 9 (tab), 10 (LF), 11 (VT), 12 (FF), 13 (CR) and 32 (space). */
  predicate IsAsciiSpace(c: char) {
    c == ' ' || ('\t' <= c <= '\r')
  }

  predicate IsBlank(b: Blanks, c: char) {
    match b
    case JsWhitespace => IsJsSpace(c)
    case AsciiWhitespace => IsAsciiSpace(c)
  }

  /** Line terminators, the characters `.` in a regular expression does not match. */
  predicate IsLineTerminator(c: char) {
    c == '\n' || c == '\r' || c == '\U{2028}' || c == '\U{2029}'
  }

  predicate IsAsciiLetter(c: char) {
    ('a' <= c <= 'z') || ('A' <= c <= 'Z')
  }

  predicate IsDigit(c: char) {
    '0' <= c <= '9'
  }

  /** The regular-expression class `\w`. */
  predicate IsWordChar(c: char) {
    IsAsciiLetter(c) || IsDigit(c) || c == '_'
  }

  predicate IsHexDigit(c: char) {
    IsDigit(c) || ('a' <= c <= 'f') || ('A' <= c <= 'F')
  }

  function LowerChar(c: char): char {
    if 'A' <= c <= 'Z' then (c as int + 32) as char else c
  }

  /** `toLowerCase`, for the ASCII letters. */
  function Lower(s: string): (r: string)
    ensures |r| == |s|
  {
    if s == [] then [] else [LowerChar(s[0])] + Lower(s[1..])
  }

  lemma {:induction false} LowerAt(s: string, i: nat)
    requires i < |s|
    ensures Lower(s)[i] == LowerChar(s[i])
    decreases i
  {
    if i > 0 {
      LowerAt(s[1..], i - 1);
    }
  }

  /** `/^[a-z]{2}$/`: exactly two lowercase ASCII letters. */
  predicate IsTwoLetterCode(s: string) {
    |s| == 2 && 'a' <= s[0] <= 'z' && 'a' <= s[1] <= 'z'
  }

  /** `/^[a-fA-F0-9]{24}$/`: the text of an ObjectId. */
  predicate IsObjectIdText(s: string) {
    |s| == 24 && forall i :: 0 <= i < |s| ==> IsHexDigit(s[i])
  }

  /** `s.includes(sub)`. */
  predicate Contains(s: string, sub: string)
    decreases |s|
  {
    sub <= s || (s != [] && Contains(s[1..], sub))
  }

  // ---------------------------------------------------------------------------
  // trim

  /** `trimStart`: drops the leading whitespace. */
  function TrimStart(s: string): (r: string)
    ensures |r| <= |s| && r == s[|s| - |r|..]
  {
    if s != [] && IsJsSpace(s[0]) then TrimStart(s[1..]) else s
  }

  /** `trimEnd`: drops the trailing whitespace. */
  function TrimEnd(s: string): (r: string)
    ensures r <= s
  {
    if s != [] && IsJsSpace(s[|s| - 1]) then TrimEnd(s[..|s| - 1]) else s
  }

  /** `trim`. */
  function Trim(s: string): (r: string)
    ensures |r| <= |s|
  {
    TrimEnd(TrimStart(s))
  }

  /** `trimStart` drops whitespace and nothing else: all it drops is
      whitespace, and what it keeps does not start with whitespace. */
  lemma {:induction false} TrimStartDropsBlanks(s: string)
    ensures forall i :: 0 <= i < |s| - |TrimStart(s)| ==> IsJsSpace(s[i])
    ensures TrimStart(s) == [] || !IsJsSpace(TrimStart(s)[0])
    decreases |s|
  {
    if s != [] && IsJsSpace(s[0]) {
      var p := s[1..];
      TrimStartDropsBlanks(p);
      assert TrimStart(s) == TrimStart(p);
      forall i | 0 <= i < |s| - |TrimStart(s)| ensures IsJsSpace(s[i]) {
        if i > 0 {
          assert s[i] == p[i - 1];
        }
      }
    } else {
      assert TrimStart(s) == s;
    }
  }

  /** `trimEnd` drops whitespace and nothing else. */
  lemma {:induction false} TrimEndDropsBlanks(s: string)
    ensures forall i :: |TrimEnd(s)| <= i < |s| ==> IsJsSpace(s[i])
    ensures TrimEnd(s) == [] || !IsJsSpace(TrimEnd(s)[|TrimEnd(s)| - 1])
    decreases |s|
  {
    if s != [] && IsJsSpace(s[|s| - 1]) {
      var p := s[..|s| - 1];
      TrimEndDropsBlanks(p);
      forall i | |TrimEnd(s)| <= i < |s| ensures IsJsSpace(s[i]) {
        if i < |s| - 1 {
          assert s[i] == p[i];
        }
      }
    }
  }

  /** The result of `trim` has no whitespace at either end. */
  lemma {:induction false} TrimIsTrimmed(s: string)
    ensures Trimmed(Trim(s))
  {
    var t := TrimStart(s);
    var r := TrimEnd(t);
    assert r == Trim(s);
    if r != [] {
      TrimStartDropsBlanks(s);
      TrimEndDropsBlanks(t);
      assert r[0] == t[0];
      assert !IsJsSpace(r[0]) && !IsJsSpace(r[|r| - 1]);
    }
  }

  predicate AllBlank(b: Blanks, s: string) {
    forall i :: 0 <= i < |s| ==> IsBlank(b, s[i])
  }

  /** The string has no whitespace at either end, so trimming leaves it alone. */
  predicate Trimmed(s: string) {
    s == [] || (!IsJsSpace(s[0]) && !IsJsSpace(s[|s| - 1]))
  }

  lemma {:induction false} TrimStartSkips(pre: string, s: string)
    requires AllBlank(JsWhitespace, pre)
    ensures TrimStart(pre + s) == TrimStart(s)
    decreases |pre|
  {
    if pre != [] {
      assert (pre + s)[0] == pre[0] && IsBlank(JsWhitespace, pre[0]);
      assert (pre + s)[1..] == pre[1..] + s;
      assert AllBlank(JsWhitespace, pre[1..]) by {
        forall i | 0 <= i < |pre| - 1 ensures IsBlank(JsWhitespace, pre[1..][i]) {
          assert pre[1..][i] == pre[i + 1];
        }
      }
      TrimStartSkips(pre[1..], s);
      assert TrimStart(pre + s) == TrimStart(pre[1..] + s);
    } else {
      assert pre + s == s;
    }
  }

  lemma {:induction false} TrimEndSkips(s: string, post: string)
    requires AllBlank(JsWhitespace, post)
    ensures TrimEnd(s + post) == TrimEnd(s)
    decreases |post|
  {
    if post != [] {
      var p := post[..|post| - 1];
      assert (s + post)[|s + post| - 1] == post[|post| - 1];
      assert IsBlank(JsWhitespace, post[|post| - 1]);
      assert (s + post)[..|s + post| - 1] == s + p;
      assert AllBlank(JsWhitespace, p) by {
        forall i | 0 <= i < |p| ensures IsBlank(JsWhitespace, p[i]) {
          assert p[i] == post[i];
        }
      }
      TrimEndSkips(s, p);
      assert TrimEnd(s + post) == TrimEnd(s + p);
    } else {
      assert s + post == s;
    }
  }

  /** Whitespace around a trimmed string is exactly what `trim` removes. */
  lemma {:induction false} TrimPadded(pre: string, mid: string, post: string)
    requires AllBlank(JsWhitespace, pre) && AllBlank(JsWhitespace, post)
    requires Trimmed(mid)
    ensures Trim(pre + mid + post) == mid
  {
    var tail := mid + post;
    assert pre + mid + post == pre + tail;
    TrimStartSkips(pre, tail);
    if mid == [] {
      assert tail == post + [];
      TrimStartSkips(post, []);
      assert TrimStart(tail) == [];
      assert TrimEnd([]) == [];
    } else {
      assert tail[0] == mid[0];
      assert TrimStart(tail) == tail;
      TrimEndSkips(mid, post);
      assert TrimEnd(mid) == mid;
      assert TrimEnd(tail) == mid;
    }
  }

  /** A string without whitespace at its ends is its own trim. */
  lemma {:induction false} TrimOfTrimmed(s: string)
    requires Trimmed(s)
    ensures Trim(s) == s
  {
    TrimPadded([], s, []);
    assert [] + s + [] == s;
  }

  /** Trimming twice is trimming once. */
  lemma {:induction false} TrimIdempotent(s: string)
    ensures Trim(Trim(s)) == Trim(s)
  {
    TrimIsTrimmed(s);
    TrimOfTrimmed(Trim(s));
  }

  // ---------------------------------------------------------------------------
  // split and join

  /** `parts.join(sep)`. */
  function Join(parts: seq<string>, sep: string): string
  {
    if parts == [] then ""
    else if |parts| == 1 then parts[0]
    else parts[0] + sep + Join(parts[1..], sep)
  }

  /** `s.split(sep)` for a non-empty separator: the pieces between the
      occurrences of `sep` found scanning left to right. */
  function Split(s: string, sep: string): (parts: seq<string>)
    requires sep != []
    ensures |parts| >= 1
    ensures parts[0] <= s
    decreases |s|
  {
    if s == [] then [""]
    else if sep <= s then [""] + Split(s[|sep|..], sep)
    else
      var rest := Split(s[1..], sep);
      [[s[0]] + rest[0]] + rest[1..]
  }

  lemma {:induction false} JoinCons(first: string, rest: seq<string>, sep: string)
    requires rest != []
    ensures Join([first] + rest, sep) == first + sep + Join(rest, sep)
  {
    assert ([first] + rest)[1..] == rest;
  }

  lemma {:induction false} JoinExtendFirst(c: char, parts: seq<string>, sep: string)
    requires parts != []
    ensures Join([[c] + parts[0]] + parts[1..], sep) == [c] + Join(parts, sep)
  {
    if |parts| > 1 {
      JoinCons([c] + parts[0], parts[1..], sep);
      JoinCons(parts[0], parts[1..], sep);
      assert parts == [parts[0]] + parts[1..];
    }
  }

  lemma {:induction false} SplitAtSeparator(s: string, sep: string)
    requires sep != [] && sep <= s
    requires Join(Split(s[|sep|..], sep), sep) == s[|sep|..]
    ensures Join(Split(s, sep), sep) == s
  {
    SplitOnSeparator(s, sep);
    JoinCons("", Split(s[|sep|..], sep), sep);
    SeparatorThenRest(s, sep);
  }

  /** `Split` unfolded once where the separator starts the string. */
  lemma {:induction false} SplitOnSeparator(s: string, sep: string)
    requires sep != [] && sep <= s
    ensures Split(s, sep) == [""] + Split(s[|sep|..], sep)
  {
    assert s != [];
  }

  lemma {:induction false} SeparatorThenRest(s: string, sep: string)
    requires sep <= s
    ensures "" + sep + s[|sep|..] == s
  {
    assert sep == s[..|sep|];
  }

  lemma {:induction false} SplitAtOther(s: string, sep: string)
    requires sep != [] && s != [] && !(sep <= s)
    requires Join(Split(s[1..], sep), sep) == s[1..]
    ensures Join(Split(s, sep), sep) == s
  {
    SplitOnOther(s, sep);
    JoinExtendFirst(s[0], Split(s[1..], sep), sep);
    FirstThenRest(s);
  }

  /** `Split` unfolded once where the separator does not start the string. */
  lemma {:induction false} SplitOnOther(s: string, sep: string)
    requires sep != [] && s != [] && !(sep <= s)
    ensures var rest := Split(s[1..], sep);
            Split(s, sep) == [[s[0]] + rest[0]] + rest[1..]
  {
  }

  lemma {:induction false} FirstThenRest(s: string)
    requires s != []
    ensures [s[0]] + s[1..] == s
  {
  }

  /** Joining the pieces of a split with the separator gives the string back. */
  lemma {:induction false} SplitJoinsBack(s: string, sep: string)
    requires sep != []
    ensures Join(Split(s, sep), sep) == s
    decreases |s|
  {
    if s == [] {
      assert Split(s, sep) == [""];
    } else if sep <= s {
      SplitJoinsBack(s[|sep|..], sep);
      SplitAtSeparator(s, sep);
    } else {
      SplitJoinsBack(s[1..], sep);
      SplitAtOther(s, sep);
    }
  }

  lemma {:induction false} PrefixTransitive(a: string, b: string, c: string)
    ensures a <= b && b <= c ==> a <= c
  {
  }

  lemma {:induction false} NotContainedInPrefix(first: string, s: string, sep: string)
    requires sep != [] && first != [] && first <= s && !(sep <= s)
    requires !Contains(first[1..], sep)
    ensures !Contains(first, sep)
  {
    PrefixTransitive(sep, first, s);
  }

  /** No piece of a split holds the separator. */
  lemma {:induction false} SplitPiecesLackSeparator(s: string, sep: string)
    requires sep != []
    ensures forall p | p in Split(s, sep) :: !Contains(p, sep)
    decreases |s|
  {
    if s == [] {
      assert Split(s, sep) == [""];
    } else if sep <= s {
      var rest := Split(s[|sep|..], sep);
      SplitPiecesLackSeparator(s[|sep|..], sep);
      assert Split(s, sep) == [""] + rest;
    } else {
      var rest := Split(s[1..], sep);
      SplitPiecesLackSeparator(s[1..], sep);
      var first := [s[0]] + rest[0];
      assert rest[0] in rest;
      assert first[1..] == rest[0];
      NotContainedInPrefix(first, s, sep);
      var parts := [first] + rest[1..];
      assert Split(s, sep) == parts;
      forall p | p in parts ensures !Contains(p, sep) {
        if p != first {
          assert p in rest;
        }
      }
    }
  }

  lemma {:induction false} SplitWordPrefix(w: string, tail: string, c: char)
    requires c !in w
    ensures Split(w + tail, [c]) == [w + Split(tail, [c])[0]] + Split(tail, [c])[1..]
    decreases |w|
  {
    var t := Split(tail, [c]);
    if w != [] {
      var s := w + tail;
      assert s[0] == w[0] && w[0] != c;
      assert !([c] <= s);
      assert s[1..] == w[1..] + tail;
      var r := Split(s[1..], [c]);
      assert Split(s, [c]) == [[s[0]] + r[0]] + r[1..];
      SplitWordPrefix(w[1..], tail, c);
      assert r == [w[1..] + t[0]] + t[1..];
      assert [s[0]] + r[0] == w + t[0];
    } else {
      assert w + tail == tail;
      assert t == [t[0]] + t[1..];
      assert w + t[0] == t[0];
    }
  }

  lemma {:induction false} SplitAfterSeparator(rest: string, c: char)
    ensures Split([c] + rest, [c]) == [""] + Split(rest, [c])
  {
    assert [c] <= [c] + rest;
    assert ([c] + rest)[1..] == rest;
  }

  /** Splitting on a one-character separator splits each side of one of
      its occurrences apart. */
  lemma {:induction false} SplitAround(a: string, c: char, b: string)
    ensures Split(a + [c] + b, [c]) == Split(a, [c]) + Split(b, [c])
    decreases |a|
  {
    var s := a + [c] + b;
    if a == [] {
      assert s == [c] + b;
      SplitAfterSeparator(b, c);
    } else {
      var q := Split(b, [c]);
      assert s[0] == a[0] && s[1..] == a[1..] + [c] + b;
      SplitAround(a[1..], c, b);
      var p := Split(a[1..], [c]);
      SplitStep(s, c);
      SplitStep(a, c);
      if a[0] == c {
        PiecesPrepend("", p, q);
      } else {
        PiecesExtendFirst(a[0], p, q);
      }
    }
  }

  lemma {:induction false} PiecesPrepend(x: string, p: seq<string>, q: seq<string>)
    ensures [x] + (p + q) == ([x] + p) + q
  {
  }

  lemma {:induction false} PiecesExtendFirst(ch: char, p: seq<string>, q: seq<string>)
    requires p != []
    ensures [[ch] + (p + q)[0]] + (p + q)[1..] == ([[ch] + p[0]] + p[1..]) + q
  {
    assert (p + q)[0] == p[0] && (p + q)[1..] == p[1..] + q;
  }

  /** `Split` unfolded once on a one-character separator. */
  lemma {:induction false} SplitStep(s: string, c: char)
    requires s != []
    ensures s[0] == c ==> Split(s, [c]) == [""] + Split(s[1..], [c])
    ensures s[0] != c ==> Split(s, [c]) == [[s[0]] + Split(s[1..], [c])[0]] + Split(s[1..], [c])[1..]
  {
    if s[0] == c {
      assert [c] <= s;
    } else {
      assert !([c] <= s);
    }
  }

  /** When neither `a` nor `b` holds the separator and what follows `b`
      is empty or starts with it, the first two pieces are `a` and `b`. */
  lemma {:induction false} SplitFirstTwo(a: string, b: string, rest: string, c: char)
    requires c !in a && c !in b
    requires rest == [] || rest[0] == c
    ensures var p := Split(a + [c] + b + rest, [c]); |p| >= 2 && p[0] == a && p[1] == b
  {
    assert a + [c] + b + rest == a + [c] + (b + rest);
    SplitAround(a, c, b + rest);
    SplitWordPrefix(a, [], c);
    assert a + [] == a;
    var r := Split(rest, [c]);
    if rest != [] {
      assert rest == [c] + rest[1..];
      SplitAfterSeparator(rest[1..], c);
    }
    assert r[0] == "";
    SplitWordPrefix(b, rest, c);
    assert b + r[0] == b;
  }

  lemma {:induction false} SplitJoinStep(w: string, ws: seq<string>, c: char)
    requires c !in w && ws != []
    requires Split(Join(ws, [c]), [c]) == ws
    ensures Split(Join([w] + ws, [c]), [c]) == [w] + ws
  {
    var rest := Join(ws, [c]);
    JoinCons(w, ws, [c]);
    assert Join([w] + ws, [c]) == w + ([c] + rest);
    SplitWordPrefix(w, [c] + rest, c);
    SplitAfterSeparator(rest, c);
    assert w + "" == w;
  }

  /** Splitting a join on a single-character separator gives back the parts,
      when no part holds that character. */
  lemma {:induction false} SplitJoin(ws: seq<string>, c: char)
    requires ws != []
    requires forall w | w in ws :: c !in w
    ensures Split(Join(ws, [c]), [c]) == ws
  {
    if |ws| == 1 {
      SplitWordPrefix(ws[0], [], c);
      assert ws[0] + [] == ws[0];
    } else {
      SplitJoin(ws[1..], c);
      SplitJoinStep(ws[0], ws[1..], c);
      assert ws == [ws[0]] + ws[1..];
    }
  }

  // ---------------------------------------------------------------------------
  // runs of whitespace and of word characters

  /** Length of the leading run of blanks. */
  function BlankRun(b: Blanks, s: string): (n: nat)
    ensures n <= |s|
    ensures forall i :: 0 <= i < n ==> IsBlank(b, s[i])
    ensures n < |s| ==> !IsBlank(b, s[n])
  {
    if s != [] && IsBlank(b, s[0]) then 1 + BlankRun(b, s[1..]) else 0
  }

  /** Length of the leading run of non-blanks. */
  function WordRun(b: Blanks, s: string): (n: nat)
    ensures n <= |s|
    ensures forall i :: 0 <= i < n ==> !IsBlank(b, s[i])
    ensures n < |s| ==> IsBlank(b, s[n])
  {
    if s != [] && !IsBlank(b, s[0]) then 1 + WordRun(b, s[1..]) else 0
  }

  /** The maximal runs of non-blank characters, in order: the words of `s`. */
  function Words(b: Blanks, s: string): (ws: seq<string>)
    decreases |s|
  {
    if s == [] then []
    else if IsBlank(b, s[0]) then Words(b, s[1..])
    else
      var n := WordRun(b, s);
      [s[..n]] + Words(b, s[n..])
  }

  /** A word run stops at a blank. */
  lemma {:induction false} WordRunStopsAtBlank(b: Blanks, x: string, t: string)
    requires t != [] && IsBlank(b, t[0])
    ensures WordRun(b, x + t) == WordRun(b, x)
    decreases |x|
  {
    if x == [] {
      assert x + t == t;
    } else if !IsBlank(b, x[0]) {
      assert (x + t)[1..] == x[1..] + t;
      WordRunStopsAtBlank(b, x[1..], t);
    }
  }

  /** The words on both sides of a blank are the words of each side. */
  lemma {:induction false} WordsAroundBlank(b: Blanks, x: string, c: char, y: string)
    requires IsBlank(b, c)
    ensures Words(b, x + [c] + y) == Words(b, x) + Words(b, y)
  {
    var u := [c] + y;
    assert x + [c] + y == x + u;
    assert u[0] == c && u[1..] == y;
    WordsBeforeBlank(b, x, u);
    BlankFirstStep(b, u, []);
  }

  /** Words end at a blank: the words of `x` come first, whole. */
  lemma {:induction false} WordsBeforeBlank(b: Blanks, x: string, u: string)
    requires u != [] && IsBlank(b, u[0])
    ensures Words(b, x + u) == Words(b, x) + Words(b, u)
    decreases |x|
  {
    if x == [] {
      assert x + u == u;
    } else if IsBlank(b, x[0]) {
      BlankFirstStep(b, x, u);
      WordsBeforeBlank(b, x[1..], u);
    } else {
      var n := WordRun(b, x);
      assert n > 0;
      var r := x[n..];
      WordFirstStep(b, x, u);
      WordsBeforeBlank(b, r, u);
      var w, p, q := [x[..n]], Words(b, r), Words(b, u);
      assert Words(b, x + u) == w + (p + q);
      assert Words(b, x) == w + p;
      assert w + (p + q) == (w + p) + q;
    }
  }

  /** A leading blank is skipped, whatever follows. */
  lemma {:induction false} BlankFirstStep(b: Blanks, x: string, t: string)
    requires x != [] && IsBlank(b, x[0])
    ensures Words(b, x + t) == Words(b, x[1..] + t)
    ensures Words(b, x) == Words(b, x[1..])
  {
    assert (x + t)[0] == x[0] && (x + t)[1..] == x[1..] + t;
  }

  /** A leading word ending before a blank is the first word, whatever follows. */
  lemma {:induction false} WordFirstStep(b: Blanks, x: string, t: string)
    requires x != [] && !IsBlank(b, x[0]) && t != [] && IsBlank(b, t[0])
    ensures WordRun(b, x) <= |x|
    ensures Words(b, x + t) == [x[..WordRun(b, x)]] + Words(b, x[WordRun(b, x)..] + t)
    ensures Words(b, x) == [x[..WordRun(b, x)]] + Words(b, x[WordRun(b, x)..])
  {
    var s := x + t;
    assert s[0] == x[0];
    WordRunStopsAtBlank(b, x, t);
    WordsAtWord(b, x);
    WordsAtWord(b, s);
    AppendSlices(x, t, WordRun(b, x));
  }

  /** Slicing a concatenation inside its first part. */
  lemma {:induction false} AppendAssociates<T>(a: seq<T>, b: seq<T>, c: seq<T>)
    ensures a + (b + c) == (a + b) + c
  {
  }

  lemma {:induction false} TakeDrop<T>(s: seq<T>, n: nat)
    requires n <= |s|
    ensures s[..n] + s[n..] == s
  {
  }

  lemma {:induction false} AppendSlices(x: string, t: string, n: nat)
    requires n <= |x|
    ensures (x + t)[..n] == x[..n]
    ensures (x + t)[n..] == x[n..] + t
  {
  }

  /** Every word is non-empty and holds no blank. */
  lemma {:induction false} WordsAreNonBlank(b: Blanks, s: string)
    ensures forall w | w in Words(b, s) :: w != [] && forall k :: 0 <= k < |w| ==> !IsBlank(b, w[k])
    decreases |s|
  {
    if s != [] {
      if IsBlank(b, s[0]) {
        WordsAreNonBlank(b, s[1..]);
      } else {
        var n := WordRun(b, s);
        WordsAreNonBlank(b, s[n..]);
        assert Words(b, s) == [s[..n]] + Words(b, s[n..]);
      }
    }
  }

  lemma {:induction false} WordsSkipBlanks(b: Blanks, s: string, k: nat)
    requires k <= |s| && AllBlank(b, s[..k])
    ensures Words(b, s) == Words(b, s[k..])
    decreases k
  {
    if k > 0 {
      assert IsBlank(b, s[..k][0]);
      assert AllBlank(b, s[1..][..k - 1]) by {
        var t := s[1..][..k - 1];
        forall i | 0 <= i < k - 1 ensures IsBlank(b, t[i]) {
          assert t[i] == s[..k][i + 1];
        }
      }
      WordsSkipBlanks(b, s[1..], k - 1);
      assert s[1..][k - 1..] == s[k..];
    }
  }

  lemma {:induction false} NoWordsIffAllBlank(b: Blanks, s: string)
    ensures Words(b, s) == [] <==> AllBlank(b, s)
    decreases |s|
  {
    if s != [] {
      NoWordsIffAllBlank(b, s[1..]);
      if IsBlank(b, s[0]) {
        if AllBlank(b, s[1..]) {
          forall i | 0 <= i < |s| ensures IsBlank(b, s[i]) {
            if i > 0 { assert s[i] == s[1..][i - 1]; }
          }
        }
      } else {
        assert !IsBlank(b, s[0]);
      }
    }
  }

  // ---------------------------------------------------------------------------
  // whitespace collapse

  /** `s.replace(/\s+/g, " ")`: each maximal run of `\s` becomes one space. */
  function Collapse(s: string): string
    decreases |s|
  {
    if s == [] then []
    else if IsJsSpace(s[0]) then " " + Collapse(s[BlankRun(JsWhitespace, s)..])
    else [s[0]] + Collapse(s[1..])
  }

  lemma {:induction false} CollapseWordPrefix(s: string, i: nat)
    requires i <= |s|
    requires forall k :: 0 <= k < i ==> !IsJsSpace(s[k])
    ensures Collapse(s) == s[..i] + Collapse(s[i..])
    decreases i
  {
    if i > 0 {
      CollapseWordPrefix(s[1..], i - 1);
      assert s[1..][i - 1..] == s[i..];
      assert s[..i] == [s[0]] + s[1..][..i - 1];
    }
  }

  function Lead(s: string): string {
    if s != [] && IsJsSpace(s[0]) then " " else ""
  }

  function Trail(s: string): string {
    if Words(JsWhitespace, s) != [] && IsJsSpace(s[|s| - 1]) then " " else ""
  }

  /** The words joined by single spaces have no whitespace at their ends. */
  lemma {:induction false} JoinedWordsTrimmed(ws: seq<string>)
    requires forall w | w in ws :: w != [] && forall k :: 0 <= k < |w| ==> !IsJsSpace(w[k])
    ensures Trimmed(Join(ws, " "))
    ensures ws != [] ==> Join(ws, " ") != []
  {
    if |ws| > 1 {
      JoinedWordsTrimmed(ws[1..]);
      var j := Join(ws, " ");
      assert ws[1] in ws[1..];
      assert j == ws[0] + " " + Join(ws[1..], " ");
      assert j[0] == ws[0][0];
      assert j[|j| - 1] == Join(ws[1..], " ")[|Join(ws[1..], " ")| - 1];
    } else if |ws| == 1 {
      assert ws[0] in ws;
    }
  }

  /** Collapsing keeps the words, separated by single spaces, plus at most one
      space at each end. */
  predicate CollapseShaped(s: string) {
    Collapse(s) == Lead(s) + Join(Words(JsWhitespace, s), " ") + Trail(s)
  }

  /** The string algebra behind one blank step of `CollapseShape`. */
  lemma {:induction false} BlankShapeAlgebra(c: string, cRest: string, j: string, t: string)
    requires cRest == "" + j + t && c == " " + cRest
    ensures c == " " + j + t
  {
    assert "" + j == j;
  }

  lemma {:induction false} BlankStep(s: string)
    requires s != [] && IsJsSpace(s[0])
    requires CollapseShaped(s[BlankRun(JsWhitespace, s)..])
    ensures CollapseShaped(s)
  {
    var b := JsWhitespace;
    var k := BlankRun(b, s);
    var r := s[k..];
    var ws := Words(b, r);
    assert Words(b, s) == ws by {
      WordsSkipBlanks(b, s, k);
    }
    assert Lead(s) == " ";
    assert Lead(r) == "";
    assert Trail(s) == Trail(r) by {
      if ws != [] {
        assert s[|s| - 1] == r[|r| - 1];
      }
    }
    BlankShapeAlgebra(Collapse(s), Collapse(r), Join(ws, " "), Trail(r));
  }

  /** Unfolding `Words` once at a word start. */
  lemma {:induction false} WordsAtWord(b: Blanks, s: string)
    requires s != [] && !IsBlank(b, s[0])
    ensures Words(b, s) == [s[..WordRun(b, s)]] + Words(b, s[WordRun(b, s)..])
  {
  }

  /** The string algebra behind one word step of `CollapseShape`. */
  lemma {:induction false} WordShapeAlgebra(c: string, cRest: string, w: string, ws: seq<string>,
                         leadRest: string, trailRest: string, trailS: string)
    requires || (ws == [] && leadRest == "" && trailRest == "" && trailS == "")
             || (ws == [] && leadRest == " " && trailRest == "" && trailS == " ")
             || (ws != [] && leadRest == " " && trailS == trailRest)
    requires c == w + cRest && cRest == leadRest + Join(ws, " ") + trailRest
    ensures c == "" + Join([w] + ws, " ") + trailS
  {
    if ws == [] {
      assert Join([w], " ") == w;
    } else {
      JoinCons(w, ws, " ");
    }
  }

  /** How the ends of `s` relate to the ends of what follows its first word. */
  lemma {:induction false} WordStepEnds(s: string)
    requires s != [] && !IsJsSpace(s[0])
    ensures var rest := s[WordRun(JsWhitespace, s)..];
            var ws := Words(JsWhitespace, rest);
            || (ws == [] && Lead(rest) == "" && Trail(rest) == "" && Trail(s) == "")
            || (ws == [] && Lead(rest) == " " && Trail(rest) == "" && Trail(s) == " ")
            || (ws != [] && Lead(rest) == " " && Trail(s) == Trail(rest))
  {
    var b := JsWhitespace;
    var n := WordRun(b, s);
    var rest := s[n..];
    var ws := Words(b, rest);
    assert Words(b, s) == [s[..n]] + ws by {
      WordsAtWord(b, s);
    }
    if rest == [] {
      assert s[|s| - 1] == s[n - 1];
    } else {
      assert s[|s| - 1] == rest[|rest| - 1];
      if ws == [] {
        NoWordsIffAllBlank(b, rest);
      }
    }
  }

  lemma {:induction false} WordStep(s: string)
    requires s != [] && !IsJsSpace(s[0])
    requires CollapseShaped(s[WordRun(JsWhitespace, s)..])
    ensures CollapseShaped(s)
  {
    var b := JsWhitespace;
    var n := WordRun(b, s);
    var rest := s[n..];
    var ws := Words(b, rest);
    assert Collapse(s) == s[..n] + Collapse(rest) by {
      CollapseWordPrefix(s, n);
    }
    assert Words(b, s) == [s[..n]] + ws by {
      WordsAtWord(b, s);
    }
    assert Lead(s) == "";
    WordStepEnds(s);
    WordShapeAlgebra(Collapse(s), Collapse(rest), s[..n], ws, Lead(rest), Trail(rest), Trail(s));
  }

  lemma {:induction false} CollapseShape(s: string)
    ensures CollapseShaped(s)
    decreases |s|
  {
    if s == [] {
    } else if IsJsSpace(s[0]) {
      CollapseShape(s[BlankRun(JsWhitespace, s)..]);
      BlankStep(s);
    } else {
      CollapseShape(s[WordRun(JsWhitespace, s)..]);
      WordStep(s);
    }
  }

  /** `s.replace(/\s+/g, " ").trim()` is the words of `s` joined by single spaces. */
  lemma {:induction false} CollapseTrimIsJoinedWords(s: string)
    ensures Trim(Collapse(s)) == Join(Words(JsWhitespace, s), " ")
  {
    CollapseShape(s);
    WordsAreNonBlank(JsWhitespace, s);
    JoinedWordsTrimmed(Words(JsWhitespace, s));
    TrimPadded(Lead(s), Join(Words(JsWhitespace, s), " "), Trail(s));
  }

  // ---------------------------------------------------------------------------
  // numbers in text

  function DigitChar(d: nat): (c: char)
    requires d < 10
    ensures IsDigit(c)
  {
    (48 + d) as char
  }

  /** A number written in decimal, as a template literal shows it. */
  function NatText(n: nat): (s: string)
    ensures |s| >= 1 && forall k :: 0 <= k < |s| ==> IsDigit(s[k])
  {
    if n < 10 then [DigitChar(n)] else NatText(n / 10) + [DigitChar(n % 10)]
  }
}
