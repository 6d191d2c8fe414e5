/** The storage service: the path guard every file operation goes through,
    the cleanup delete that never fails its caller, and the streaming word
    counter whose state survives from one chunk of the file to the next. */
module StorageService {
  import opened Wrappers
  import opened Text
  import opened Paths

  const AccessDenied: string := "Invalid file path: Access denied"

  /** `getAbsolutePath`: the resolved path, or the access-denied error when
      the path leaves the storage root. */
  function GetAbsolutePath(root: seq<string>, relativePath: string): (r: Result<seq<string>, string>)
    requires Normal(root)
    ensures r.Ok? <==> Accepts(root, relativePath)
    ensures r.Ok? ==> r.value == Resolve(root, relativePath)
    ensures r.Err? ==> r.error == AccessDenied
  {
    if Accepts(root, relativePath) then Ok(Resolve(root, relativePath)) else Err(AccessDenied)
  }

  /** Whatever `getAbsolutePath` hands out lies inside the storage root. */
  lemma {:induction false} GetAbsolutePathStaysInside(root: seq<string>, relativePath: string)
    requires Normal(root)
    ensures GetAbsolutePath(root, relativePath).Ok? ==> root <= GetAbsolutePath(root, relativePath).value
  {
    AcceptsIffInside(root, relativePath);
  }

  /** What `fs.unlink` did: removed the file or failed with an error code
      (`None` for an error without one). */
  datatype UnlinkResult = Unlinked | UnlinkFailed(code: Option<string>)

  /** How `deleteFile` ends. It always returns normally; a failure is at
      most reported on the console, and a missing file is not reported. */
  datatype DeleteOutcome = Deleted | Ignored(reported: bool)

  /** `deleteFile`: the guard and the unlink run in one `try`, so a refused
      path and a failed unlink are both caught. The guard's error has no
      code, so it is reported. */
  function DeleteFile(root: seq<string>, relativePath: string, unlink: seq<string> -> UnlinkResult): (o: DeleteOutcome)
    requires Normal(root)
    ensures o.Deleted? <==> Accepts(root, relativePath) && unlink(Resolve(root, relativePath)) == Unlinked
    ensures o.Ignored? && o.reported <==>
              !Accepts(root, relativePath) || (unlink(Resolve(root, relativePath)).UnlinkFailed?
                                              && unlink(Resolve(root, relativePath)).code != Some("ENOENT"))
  {
    match GetAbsolutePath(root, relativePath)
    case Err(_) => Ignored(true)
    case Ok(abs) =>
      match unlink(abs)
      case Unlinked => Deleted
      case UnlinkFailed(code) => Ignored(code != Some("ENOENT"))
  }

  /** A refused path never reaches `unlink`, so nothing outside the root is
      deleted. */
  lemma {:induction false} DeleteFileOnlyInside(root: seq<string>, relativePath: string, unlink: seq<string> -> UnlinkResult)
    requires Normal(root)
    ensures DeleteFile(root, relativePath, unlink).Deleted? ==> root <= Resolve(root, relativePath)
  {
    AcceptsIffInside(root, relativePath);
  }

  // ---------------------------------------------------------------------------
  // streaming word count

  /** The counter's two variables, which persist across `data` events. */
  datatype CounterState = CounterState(count: nat, inWord: bool)

  const Fresh: CounterState := CounterState(0, false)

  /** One iteration of the loop body: whitespace ends a word, the first
      character of a word counts it. */
  function Step(st: CounterState, c: char): (r: CounterState)
    ensures r.inWord <==> !IsAsciiSpace(c)
    ensures r.count == st.count + (if !IsAsciiSpace(c) && !st.inWord then 1 else 0)
  {
    if IsAsciiSpace(c) then CounterState(st.count, false)
    else if !st.inWord then CounterState(st.count + 1, true)
    else st
  }

  /** The loop body run over every character of `s`, in order. */
  function Run(st: CounterState, s: string): CounterState
    decreases |s|
  {
    if s == [] then st else Run(Step(st, s[0]), s[1..])
  }

  /** Whitespace for the counter is exactly the character codes 9, 10, 11,
      12, 13 and 32. */
  lemma {:induction false} WhitespaceCodes(c: char)
    ensures IsAsciiSpace(c) <==> c as int in {9, 10, 11, 12, 13, 32}
  {
  }

  lemma {:induction false} WordsCountStep(s: string)
    requires s != [] && !IsAsciiSpace(s[0])
    ensures |Words(AsciiWhitespace, s)| ==
            1 + |Words(AsciiWhitespace, s[1..])| - (if s[1..] != [] && !IsAsciiSpace(s[1]) then 1 else 0)
  {
    var n := WordRun(AsciiWhitespace, s);
    assert Words(AsciiWhitespace, s) == [s[..n]] + Words(AsciiWhitespace, s[n..]);
    if n > 1 {
      var t := s[1..];
      assert WordRun(AsciiWhitespace, s) == 1 + WordRun(AsciiWhitespace, t);
      assert t[n - 1..] == s[n..];
      assert Words(AsciiWhitespace, t) == [t[..n - 1]] + Words(AsciiWhitespace, t[n - 1..]);
    } else {
      assert s[1..] == s[n..];
    }
  }

  /** The count the loop adds over `s`: one per word of `s`, less one when
      `s` continues a word that was already counted. */
  lemma {:induction false} RunCountsWords(st: CounterState, s: string)
    ensures Run(st, s).count ==
            st.count + |Words(AsciiWhitespace, s)| - (if st.inWord && s != [] && !IsAsciiSpace(s[0]) then 1 else 0)
    ensures Run(st, s).inWord <==> if s == [] then st.inWord else !IsAsciiSpace(s[|s| - 1])
    decreases |s|
  {
    if s != [] {
      RunCountsWords(Step(st, s[0]), s[1..]);
      if !IsAsciiSpace(s[0]) {
        WordsCountStep(s);
      }
    }
  }

  /** Running over a concatenation is running over each part in turn. */
  lemma {:induction false} RunAppend(st: CounterState, a: string, b: string)
    ensures Run(st, a + b) == Run(Run(st, a), b)
    decreases |a|
  {
    if a != [] {
      assert (a + b)[0] == a[0] && (a + b)[1..] == a[1..] + b;
      RunAppend(Step(st, a[0]), a[1..], b);
      assert Run(st, a + b) == Run(Step(st, a[0]), a[1..] + b);
      assert Run(st, a) == Run(Step(st, a[0]), a[1..]);
    } else {
      assert a + b == b;
    }
  }

  function Concat(chunks: seq<string>): string {
    if chunks == [] then [] else chunks[0] + Concat(chunks[1..])
  }

  /** Feeding the chunks one `data` event at a time. */
  function RunChunks(st: CounterState, chunks: seq<string>): CounterState
    decreases |chunks|
  {
    if chunks == [] then st else RunChunks(Run(st, chunks[0]), chunks[1..])
  }

  /** However the stream cuts the text into chunks, the counter ends where a
      single pass over the whole text ends. */
  lemma {:induction false} ChunkingIsInvisible(st: CounterState, chunks: seq<string>)
    ensures RunChunks(st, chunks) == Run(st, Concat(chunks))
    decreases |chunks|
  {
    if chunks != [] {
      ChunkingIsInvisible(Run(st, chunks[0]), chunks[1..]);
      RunAppend(st, chunks[0], Concat(chunks[1..]));
    }
  }

  /** The count of a whole stream is the number of maximal runs of
      non-whitespace characters in its text, whatever the chunking. */
  lemma {:induction false} StreamCountIsWordCount(chunks: seq<string>)
    ensures RunChunks(Fresh, chunks).count == |Words(AsciiWhitespace, Concat(chunks))|
  {
    ChunkingIsInvisible(Fresh, chunks);
    RunCountsWords(Fresh, Concat(chunks));
  }

  /** The state `countWordsStream` keeps between `data` events. */
  class WordCounter {
    var count: nat
    var inWord: bool

    function State(): CounterState
      reads this
    {
      CounterState(count, inWord)
    }

    constructor()
      ensures State() == Fresh
    {
      count := 0;
      inWord := false;
    }

    /** The `data` handler: scans one chunk, carrying on from where the
        previous chunk left off. */
    method OnData(chunk: string)
      modifies this
      ensures State() == Run(old(State()), chunk)
    {
      var i := 0;
      while i < |chunk|
        invariant 0 <= i <= |chunk|
        invariant Run(State(), chunk[i..]) == Run(old(State()), chunk)
      {
        assert chunk[i..][1..] == chunk[i + 1..];
        var c := chunk[i];
        var isWhitespace := c == ' ' || c == '\n' || c == '\r' || c == '\t' || c == '\U{C}' || c == '\U{B}';
        if isWhitespace {
          inWord := false;
        } else if !inWord {
          inWord := true;
          count := count + 1;
        }
        i := i + 1;
      }
    }
  }

  /** `countWordsStream` once the path is accepted: a fresh counter fed
      every chunk of the file, resolved with the final count. */
  method CountWordsStream(chunks: seq<string>) returns (n: nat)
    ensures n == |Words(AsciiWhitespace, Concat(chunks))|
  {
    var counter := new WordCounter();
    var i := 0;
    while i < |chunks|
      invariant 0 <= i <= |chunks|
      invariant RunChunks(counter.State(), chunks[i..]) == RunChunks(Fresh, chunks)
    {
      assert chunks[i..][1..] == chunks[i + 1..];
      counter.OnData(chunks[i]);
      i := i + 1;
    }
    n := counter.count;
    StreamCountIsWordCount(chunks);
  }
}
