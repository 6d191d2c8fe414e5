/** Vocabulary highlighting in the reader: every whole-word occurrence of a
    saved word in the book's text nodes is wrapped in a mark coloured after
    the word. The regular expression built from the words (case-insensitive,
    not preceded or followed by a letter or digit) is a matcher oracle; the
    model keeps the colour map, the escaping of the words into one
    alternation and the loop that cuts a text node into plain runs and
    marks. */
module Highlight {
  import opened Wrappers
  import opened Text
  import BookRepository

  /** A saved word and its highlight colour. */
  datatype HighlightWord = HighlightWord(word: string, color: string)

  // ---------------------------------------------------------------------------
  // the colour map

  /** The colour map after setting each word, lowercased, in order. */
  function ColorsOf(words: seq<HighlightWord>): map<string, string> {
    if words == [] then map[]
    else
      var w := words[|words| - 1];
      ColorsOf(words[..|words| - 1])[Lower(w.word) := w.color]
  }

  /** The `for … of` loop filling `colorMap`. */
  method BuildColorMap(words: seq<HighlightWord>) returns (colors: map<string, string>)
    ensures colors == ColorsOf(words)
  {
    colors := map[];
    for i := 0 to |words|
      invariant colors == ColorsOf(words[..i])
    {
      assert words[..i + 1][..i] == words[..i];
      colors := colors[Lower(words[i].word) := words[i].color];
    }
    assert words[..|words|] == words;
  }

  /** The map has a key for exactly the lowercased words. */
  lemma {:induction false} ColorKeys(words: seq<HighlightWord>, key: string)
    ensures key in ColorsOf(words) <==> exists i :: 0 <= i < |words| && Lower(words[i].word) == key
  {
    if words != [] {
      var init := words[..|words| - 1];
      ColorKeys(init, key);
      if key in ColorsOf(init) {
        var i :| 0 <= i < |init| && Lower(init[i].word) == key;
        assert words[i] == init[i];
      }
      if exists i :: 0 <= i < |words| && Lower(words[i].word) == key {
        var i :| 0 <= i < |words| && Lower(words[i].word) == key;
        if i < |init| {
          assert init[i] == words[i];
        }
      }
    }
  }

  /** Last write wins: a word's colour is the colour of its last entry among
      the words that lowercase alike. */
  lemma {:induction false} LastWriteWins(words: seq<HighlightWord>, j: nat)
    requires j < |words|
    requires forall i :: j < i < |words| ==> Lower(words[i].word) != Lower(words[j].word)
    ensures Lower(words[j].word) in ColorsOf(words)
    ensures ColorsOf(words)[Lower(words[j].word)] == words[j].color
  {
    if j < |words| - 1 {
      var init := words[..|words| - 1];
      forall i | j < i < |init| ensures Lower(init[i].word) != Lower(init[j].word) {
        assert init[i] == words[i];
      }
      LastWriteWins(init, j);
      assert init[j] == words[j];
      assert Lower(words[|words| - 1].word) != Lower(words[j].word);
    }
  }

  // ---------------------------------------------------------------------------
  // the alternation

  function EscapedWords(words: seq<HighlightWord>): (r: seq<string>)
    ensures |r| == |words|
  {
    if words == [] then [] else [BookRepository.EscapeRegex(words[0].word)] + EscapedWords(words[1..])
  }

  /** The body of the pattern's group: the escaped words joined by '|'. */
  function Alternation(words: seq<HighlightWord>): string {
    Join(EscapedWords(words), "|")
  }

  /** How a pattern reads as a top-level alternation: cut at every '|' that
      is not escaped; `current` is the piece read so far. */
  function Alternatives(p: string, current: string): (r: seq<string>)
    ensures |r| >= 1
    decreases |p|
  {
    if p == [] then [current]
    else if p[0] == '\\' && |p| >= 2 then Alternatives(p[2..], current + p[..2])
    else if p[0] == '|' then [current] + Alternatives(p[1..], [])
    else Alternatives(p[1..], current + [p[0]])
  }

  /** An escaped word is read whole: none of its characters ends an
      alternative. */
  lemma {:induction false} EscapedWordReadWhole(w: string, rest: string, current: string)
    ensures Alternatives(BookRepository.EscapeRegex(w) + rest, current)
            == Alternatives(rest, current + BookRepository.EscapeRegex(w))
  {
    if w != [] {
      var tail := BookRepository.EscapeRegex(w[1..]);
      var head := if BookRepository.IsRegexMeta(w[0]) then ['\\', w[0]] else [w[0]];
      assert BookRepository.EscapeRegex(w) == head + tail;
      assert BookRepository.EscapeRegex(w) + rest == head + (tail + rest);
      EscapedCharReadWhole(w[0], tail + rest, current);
      EscapedWordReadWhole(w[1..], rest, current + head);
      assert current + head + tail == current + BookRepository.EscapeRegex(w);
    } else {
      assert BookRepository.EscapeRegex(w) + rest == rest;
      assert current + BookRepository.EscapeRegex(w) == current;
    }
  }

  /** One escaped character is read whole. */
  lemma {:induction false} EscapedCharReadWhole(c: char, q: string, current: string)
    ensures var head := if BookRepository.IsRegexMeta(c) then ['\\', c] else [c];
            Alternatives(head + q, current) == Alternatives(q, current + head)
  {
    var head := if BookRepository.IsRegexMeta(c) then ['\\', c] else [c];
    var p := head + q;
    assert p[|head|..] == q && p[..|head|] == head;
    if !BookRepository.IsRegexMeta(c) {
      assert c != '\\' && c != '|' by {
        assert "|\\"[0] in ".*+?^${}()|[]\\" && "|\\"[1] in ".*+?^${}()|[]\\";
      }
    }
  }

  /** The alternation reads back as the escaped words, one alternative per
      word, so no word's characters leak into the pattern's structure. */
  lemma {:induction false} AlternationSplitsIntoWords(words: seq<HighlightWord>)
    requires words != []
    ensures Alternatives(Alternation(words), []) == EscapedWords(words)
  {
    var e := BookRepository.EscapeRegex(words[0].word);
    if |words| == 1 {
      EscapedWordReadWhole(words[0].word, [], []);
      assert e + [] == e && [] + e == e;
    } else {
      var rest := Join(EscapedWords(words[1..]), "|");
      assert Alternation(words) == e + ("|" + rest);
      EscapedWordReadWhole(words[0].word, "|" + rest, []);
      assert [] + e == e;
      assert ("|" + rest)[1..] == rest;
      AlternationSplitsIntoWords(words[1..]);
    }
  }

  /** Each alternative of the pattern matches its word literally. */
  lemma {:induction false} AlternativesAreTheWords(words: seq<HighlightWord>, i: nat)
    requires i < |words|
    ensures |Alternatives(Alternation(words), [])| == |words|
    ensures BookRepository.LiteralOf(Alternatives(Alternation(words), [])[i]) == Some(words[i].word)
  {
    AlternationSplitsIntoWords(words);
    EscapedAt(words, i);
    BookRepository.EscapedSearchIsLiteral(words[i].word);
  }

  lemma {:induction false} EscapedAt(words: seq<HighlightWord>, i: nat)
    requires i < |words|
    ensures EscapedWords(words)[i] == BookRepository.EscapeRegex(words[i].word)
  {
    if i > 0 {
      EscapedAt(words[1..], i - 1);
    }
  }

  // ---------------------------------------------------------------------------
  // cutting one text node

  /** A match of the pattern: where it starts and how long it is. */
  datatype Match = Match(index: nat, length: nat)

  /** What `pattern.exec` may answer when searching `text` from `from`: a
      non-empty match lying within the text at or after `from`. The
      pattern's words are non-empty, so a match always is. */
  predicate MatcherOk(next: (string, string, nat) -> Option<Match>, pattern: string, text: string) {
    forall from: nat {:trigger next(pattern, text, from)} :: from <= |text| && next(pattern, text, from).Some? ==>
      var m := next(pattern, text, from).value;
      from <= m.index && m.length >= 1 && m.index + m.length <= |text|
  }

  /** The oracle's answer, with what `MatcherOk` promises of it. */
  function NextMatch(next: (string, string, nat) -> Option<Match>, pattern: string, text: string, from: nat)
    : (r: Option<Match>)
    requires from <= |text| && MatcherOk(next, pattern, text)
    ensures r == next(pattern, text, from)
    ensures r.Some? ==> from <= r.value.index && r.value.length >= 1 && r.value.index + r.value.length <= |text|
  {
    next(pattern, text, from)
  }

  /** A piece of the replacement fragment: a plain text node or a mark. */
  datatype Piece = Plain(text: string) | Marked(text: string, color: string)

  /** The colour of a matched word: its entry under its lowercase, else
      "yellow". */
  function ColorFor(colors: map<string, string>, matched: string): string {
    if Lower(matched) in colors then colors[Lower(matched)] else "yellow"
  }

  /** The pieces one match adds: the text since `from` when there is any,
      then the mark. */
  function Step(text: string, colors: map<string, string>, from: nat, m: Match): seq<Piece>
    requires from <= m.index && m.index + m.length <= |text|
  {
    var word := text[m.index..m.index + m.length];
    (if m.index > from then [Plain(text[from..m.index])] else []) + [Marked(word, ColorFor(colors, word))]
  }

  /** The fragment for `text` from `from` on: the pieces of each match in
      turn, then what follows the last match. */
  function Fragment(next: (string, string, nat) -> Option<Match>, pattern: string, text: string,
                    colors: map<string, string>, from: nat): seq<Piece>
    requires from <= |text| && MatcherOk(next, pattern, text)
    decreases |text| - from
  {
    match NextMatch(next, pattern, text, from)
    case None => if from < |text| then [Plain(text[from..])] else []
    case Some(m) => Step(text, colors, from, m) + Fragment(next, pattern, text, colors, m.index + m.length)
  }

  function Concat(pieces: seq<Piece>): string {
    if pieces == [] then "" else pieces[0].text + Concat(pieces[1..])
  }

  lemma {:induction false} ConcatAppend(a: seq<Piece>, b: seq<Piece>)
    ensures Concat(a + b) == Concat(a) + Concat(b)
  {
    if a != [] {
      assert (a + b)[1..] == a[1..] + b;
      ConcatAppend(a[1..], b);
    } else {
      assert a + b == b;
    }
  }

  /** A piece is non-empty, and a mark carries its word's colour. */
  predicate PieceOk(p: Piece, colors: map<string, string>) {
    p.text != [] && (p.Marked? ==> p.color == ColorFor(colors, p.text))
  }

  predicate WellFormed(pieces: seq<Piece>, colors: map<string, string>) {
    forall k :: 0 <= k < |pieces| ==> PieceOk(pieces[k], colors)
  }

  /** One match's pieces spell the text from `from` to the match's end. */
  lemma {:induction false} StepCovers(text: string, colors: map<string, string>, from: nat, m: Match)
    requires from <= m.index && m.index + m.length <= |text| && m.length >= 1
    ensures Concat(Step(text, colors, from, m)) == text[from..m.index + m.length]
    ensures WellFormed(Step(text, colors, from, m), colors)
  {
    var word := text[m.index..m.index + m.length];
    var before: seq<Piece> := if m.index > from then [Plain(text[from..m.index])] else [];
    ConcatAppend(before, [Marked(word, ColorFor(colors, word))]);
    assert Concat([Marked(word, ColorFor(colors, word))]) == word;
    assert text[from..m.index + m.length] == text[from..m.index] + word;
  }

  lemma {:induction false} WellFormedAppend(a: seq<Piece>, b: seq<Piece>, colors: map<string, string>)
    requires WellFormed(a, colors) && WellFormed(b, colors)
    ensures WellFormed(a + b, colors)
  {
    forall k | 0 <= k < |a + b| ensures PieceOk((a + b)[k], colors) {
      if k >= |a| {
        assert (a + b)[k] == b[k - |a|];
      }
    }
  }

  /** The fragment puts back exactly the text it replaces, cut into
      non-empty pieces, each mark in its word's colour. */
  lemma {:induction false} FragmentCoversText(next: (string, string, nat) -> Option<Match>, pattern: string,
                                              text: string, colors: map<string, string>, from: nat)
    requires from <= |text| && MatcherOk(next, pattern, text)
    ensures Concat(Fragment(next, pattern, text, colors, from)) == text[from..]
    ensures WellFormed(Fragment(next, pattern, text, colors, from), colors)
  {
    FragmentSpellsText(next, pattern, text, colors, from);
    FragmentWellFormed(next, pattern, text, colors, from);
  }

  lemma {:induction false} FragmentSpellsText(next: (string, string, nat) -> Option<Match>, pattern: string,
                                              text: string, colors: map<string, string>, from: nat)
    requires from <= |text| && MatcherOk(next, pattern, text)
    ensures Concat(Fragment(next, pattern, text, colors, from)) == text[from..]
    decreases |text| - from
  {
    match NextMatch(next, pattern, text, from)
    case None =>
      FragmentAtEnd(next, pattern, text, colors, from);
      if from < |text| {
        assert Concat([Plain(text[from..])]) == text[from..];
      }
    case Some(m) =>
      FragmentSpellsText(next, pattern, text, colors, m.index + m.length);
      SpellsThroughMatch(next, pattern, text, colors, from, m);
  }

  /** One match's pieces followed by a fragment that spells the rest of the
      text spell the text from `from`. */
  lemma {:induction false} SpellsThroughMatch(next: (string, string, nat) -> Option<Match>, pattern: string,
                           text: string, colors: map<string, string>, from: nat, m: Match)
    requires from <= |text| && MatcherOk(next, pattern, text)
    requires NextMatch(next, pattern, text, from) == Some(m)
    requires Concat(Fragment(next, pattern, text, colors, m.index + m.length)) == text[m.index + m.length..]
    ensures Concat(Fragment(next, pattern, text, colors, from)) == text[from..]
  {
    var end := m.index + m.length;
    var step := Step(text, colors, from, m);
    var rest := Fragment(next, pattern, text, colors, end);
    StepCovers(text, colors, from, m);
    FragmentAtMatch(next, pattern, text, colors, from);
    ConcatAppend(step, rest);
    SliceAt(text, from, end);
  }

  lemma {:induction false} SliceAt(s: string, i: nat, j: nat)
    requires i <= j <= |s|
    ensures s[i..] == s[i..j] + s[j..]
  {
  }

  lemma {:induction false} FragmentWellFormed(next: (string, string, nat) -> Option<Match>, pattern: string,
                                              text: string, colors: map<string, string>, from: nat)
    requires from <= |text| && MatcherOk(next, pattern, text)
    ensures WellFormed(Fragment(next, pattern, text, colors, from), colors)
    decreases |text| - from
  {
    match NextMatch(next, pattern, text, from)
    case None =>
      FragmentAtEnd(next, pattern, text, colors, from);
    case Some(m) =>
      FragmentWellFormed(next, pattern, text, colors, m.index + m.length);
      WellFormedThroughMatch(next, pattern, text, colors, from, m);
  }

  lemma {:induction false} WellFormedThroughMatch(next: (string, string, nat) -> Option<Match>, pattern: string,
                               text: string, colors: map<string, string>, from: nat, m: Match)
    requires from <= |text| && MatcherOk(next, pattern, text)
    requires NextMatch(next, pattern, text, from) == Some(m)
    requires WellFormed(Fragment(next, pattern, text, colors, m.index + m.length), colors)
    ensures WellFormed(Fragment(next, pattern, text, colors, from), colors)
  {
    var step := Step(text, colors, from, m);
    var rest := Fragment(next, pattern, text, colors, m.index + m.length);
    StepCovers(text, colors, from, m);
    FragmentAtMatch(next, pattern, text, colors, from);
    WellFormedAppend(step, rest, colors);
  }


  /** The `exec` loop for one text node. */
  method CutText(next: (string, string, nat) -> Option<Match>, pattern: string, text: string,
                 colors: map<string, string>) returns (frag: seq<Piece>)
    requires MatcherOk(next, pattern, text)
    ensures frag == Fragment(next, pattern, text, colors, 0)
  {
    frag := [];
    var lastIndex: nat := 0;
    var found := NextMatch(next, pattern, text, lastIndex);
    ghost var total := Fragment(next, pattern, text, colors, 0);
    while found.Some?
      invariant lastIndex <= |text|
      invariant found == NextMatch(next, pattern, text, lastIndex)
      invariant Assembled(next, pattern, text, colors, frag, lastIndex, total)
      decreases |text| - lastIndex
    {
      var m := found.value;
      ghost var before := frag;
      frag := PushMatch(frag, text, colors, lastIndex, m);
      CutStep(next, pattern, text, colors, lastIndex, m, before, frag, total);
      lastIndex := m.index + m.length;
      found := NextMatch(next, pattern, text, lastIndex);
    }
    CutEnd(next, pattern, text, colors, frag, lastIndex, total);
    if lastIndex < |text| {
      frag := frag + [Plain(text[lastIndex..])];
    }
  }

  /** The pieces pushed so far, followed by the fragment from `from` on,
      make up the whole fragment. */
  predicate Assembled(next: (string, string, nat) -> Option<Match>, pattern: string, text: string,
                      colors: map<string, string>, pushed: seq<Piece>, from: nat, total: seq<Piece>)
    requires from <= |text| && MatcherOk(next, pattern, text)
  {
    pushed + Fragment(next, pattern, text, colors, from) == total
  }

  /** One turn of the `exec` loop: the text before the match, if any, then
      the match as a mark. */
  method PushMatch(frag: seq<Piece>, text: string, colors: map<string, string>, from: nat, m: Match)
    returns (pushed: seq<Piece>)
    requires from <= m.index && m.index + m.length <= |text|
    ensures pushed == frag + Step(text, colors, from, m)
  {
    pushed := frag;
    if m.index > from {
      pushed := pushed + [Plain(text[from..m.index])];
    }
    var word := text[m.index..m.index + m.length];
    pushed := pushed + [Marked(word, ColorFor(colors, word))];
    PushesAreStep(text, colors, from, m, frag, pushed);
  }

  /** The pieces one turn of the `exec` loop pushes are that match's `Step`. */
  lemma {:induction false} PushesAreStep(text: string, colors: map<string, string>, from: nat, m: Match,
                      before: seq<Piece>, after: seq<Piece>)
    requires from <= m.index && m.index + m.length <= |text|
    requires var word := text[m.index..m.index + m.length];
      after == before + (if m.index > from then [Plain(text[from..m.index])] else []) + [Marked(word, ColorFor(colors, word))]
    ensures after == before + Step(text, colors, from, m)
  {
    var word := text[m.index..m.index + m.length];
    var mark := [Marked(word, ColorFor(colors, word))];
    if m.index > from {
      var plain := [Plain(text[from..m.index])];
      assert Step(text, colors, from, m) == plain + mark;
      assert before + plain + mark == before + (plain + mark);
    } else {
      assert Step(text, colors, from, m) == mark;
      assert before + [] == before;
    }
  }

  /** One turn of the `exec` loop keeps the pieces built so far, followed
      by the fragment from the new `lastIndex`, equal to the whole fragment. */
  lemma {:induction false} CutStep(next: (string, string, nat) -> Option<Match>, pattern: string, text: string,
                colors: map<string, string>, from: nat, m: Match, before: seq<Piece>, after: seq<Piece>,
                total: seq<Piece>)
    requires from <= |text| && MatcherOk(next, pattern, text)
    requires NextMatch(next, pattern, text, from) == Some(m)
    requires Assembled(next, pattern, text, colors, before, from, total)
    requires after == before + Step(text, colors, from, m)
    ensures Assembled(next, pattern, text, colors, after, m.index + m.length, total)
  {
    FragmentAtMatch(next, pattern, text, colors, from);
    AppendAssociates(before, Step(text, colors, from, m), Fragment(next, pattern, text, colors, m.index + m.length));
  }

  /** `Fragment` unfolded once at a match. */
  lemma {:induction false} FragmentAtMatch(next: (string, string, nat) -> Option<Match>, pattern: string, text: string,
                        colors: map<string, string>, from: nat)
    requires from <= |text| && MatcherOk(next, pattern, text)
    requires NextMatch(next, pattern, text, from).Some?
    ensures var m := NextMatch(next, pattern, text, from).value;
      Fragment(next, pattern, text, colors, from)
        == Step(text, colors, from, m) + Fragment(next, pattern, text, colors, m.index + m.length)
  {
  }

  /** Past the last match, the pieces pushed so far and the text that is
      left make up the whole fragment. */
  lemma {:induction false} CutEnd(next: (string, string, nat) -> Option<Match>, pattern: string, text: string,
               colors: map<string, string>, pushed: seq<Piece>, from: nat, total: seq<Piece>)
    requires from <= |text| && MatcherOk(next, pattern, text)
    requires NextMatch(next, pattern, text, from).None?
    requires Assembled(next, pattern, text, colors, pushed, from, total)
    ensures from < |text| ==> pushed + [Plain(text[from..])] == total
    ensures from == |text| ==> pushed == total
  {
    FragmentAtEnd(next, pattern, text, colors, from);
    if from == |text| {
      assert pushed + [] == pushed;
    }
  }

  /** `Fragment` unfolded once past the last match. */
  lemma {:induction false} FragmentAtEnd(next: (string, string, nat) -> Option<Match>, pattern: string, text: string,
                      colors: map<string, string>, from: nat)
    requires from <= |text| && MatcherOk(next, pattern, text)
    requires NextMatch(next, pattern, text, from).None?
    ensures Fragment(next, pattern, text, colors, from)
              == if from < |text| then [Plain(text[from..])] else []
  {
  }

  // ---------------------------------------------------------------------------
  // the whole pass

  /** What becomes of one text node: left in place when the pattern does
      not match it, else replaced by its fragment. */
  function NodeResult(next: (string, string, nat) -> Option<Match>, pattern: string, text: string,
                      colors: map<string, string>): Option<seq<Piece>>
    requires MatcherOk(next, pattern, text)
  {
    if NextMatch(next, pattern, text, 0).None? then None else Some(Fragment(next, pattern, text, colors, 0))
  }

  /** `highlightVocabularyWords` over the text nodes gathered before any
      change, in document order: with no words every node stays; otherwise
      each node is left in place (`None`) or replaced by its fragment. */
  method HighlightTexts(texts: seq<string>, words: seq<HighlightWord>,
                        next: (string, string, nat) -> Option<Match>) returns (out: seq<Option<seq<Piece>>>)
    requires forall i :: 0 <= i < |texts| ==> MatcherOk(next, Alternation(words), texts[i])
    ensures |out| == |texts|
    ensures words == [] ==> forall i :: 0 <= i < |out| ==> out[i] == None
    ensures words != [] ==> forall i :: 0 <= i < |out| ==>
              out[i] == NodeResult(next, Alternation(words), texts[i], ColorsOf(words))
  {
    out := [];
    if words == [] {
      for i := 0 to |texts|
        invariant |out| == i && forall k :: 0 <= k < i ==> out[k] == None
      {
        out := out + [None];
      }
      return;
    }
    var colors := BuildColorMap(words);
    var pattern := Alternation(words);
    for i := 0 to |texts|
      invariant |out| == i
      invariant forall k :: 0 <= k < i ==> out[k] == NodeResult(next, pattern, texts[k], colors)
    {
      var text := texts[i];
      if NextMatch(next, pattern, text, 0).None? {
        out := out + [None];
      } else {
        var frag := CutText(next, pattern, text, colors);
        out := out + [Some(frag)];
      }
    }
  }

  /** A replaced node's fragment spells the node's text, in non-empty
      pieces, each mark coloured after its word's last entry or yellow;
      a node left in place has no match. */
  lemma {:induction false} ReplacementKeepsText(next: (string, string, nat) -> Option<Match>, pattern: string, text: string,
                             colors: map<string, string>)
    requires MatcherOk(next, pattern, text)
    ensures NodeResult(next, pattern, text, colors).None? <==> next(pattern, text, 0).None?
    ensures NodeResult(next, pattern, text, colors).Some? ==>
              && Concat(NodeResult(next, pattern, text, colors).value) == text
              && WellFormed(NodeResult(next, pattern, text, colors).value, colors)
  {
    FragmentCoversText(next, pattern, text, colors, 0);
  }
}
