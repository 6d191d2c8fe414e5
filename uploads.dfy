/** The upload middleware's own decisions: which files the filter lets
    through, the name a stored upload gets, and how upload errors are
    answered. `path.extname` is modelled for POSIX paths; the random part
    of a stored name is an input. */
module Uploads {
  import opened Wrappers
  import opened Text

  /** The index of the last '.' in `s`, if any. */
  function LastDot(s: string): (r: Option<nat>)
    ensures r.Some? ==> r.value < |s| && s[r.value] == '.' && '.' !in s[r.value + 1..]
    ensures r.None? ==> '.' !in s
  {
    if s == [] then None
    else if s[|s| - 1] == '.' then Some(|s| - 1)
    else
      var r := LastDot(s[..|s| - 1]);
      assert s == s[..|s| - 1] + [s[|s| - 1]];
      r
  }

  /** The last segment of a path once trailing slashes are dropped. */
  function BaseName(p: string): (b: string)
    ensures '/' !in b
    decreases |p|
  {
    if p == [] then []
    else if p[|p| - 1] == '/' then BaseName(p[..|p| - 1])
    else LastSegment(p)
  }

  function LastSegment(p: string): (b: string)
    ensures '/' !in b
    ensures |b| <= |p|
  {
    if p == [] then []
    else if p[|p| - 1] == '/' then []
    else
      var b := LastSegment(p[..|p| - 1]);
      b + [p[|p| - 1]]
  }

  /** `path.extname(p)`: from the last '.' of the last segment to its end;
      empty when that segment has no '.', starts with its only '.'
      (a hidden file), or is "..". */
  function Extname(p: string): (e: string)
    ensures e == [] || (e[0] == '.' && '.' !in e[1..])
  {
    var base := BaseName(p);
    if base == ".." then []
    else match LastDot(base)
      case None => []
      case Some(k) => if k == 0 then [] else base[k..]
  }

  lemma {:induction false} LowerIsDot(s: string, i: nat)
    requires i < |s|
    ensures Lower(s)[i] == '.' <==> s[i] == '.'
  {
    LowerAt(s, i);
  }

  /** The last '.' is the one after which no '.' follows. */
  lemma {:induction false} LastDotIs(s: string, k: nat)
    requires k < |s| && s[k] == '.' && '.' !in s[k + 1..]
    ensures LastDot(s) == Some(k)
  {
    if k != |s| - 1 {
      assert s[|s| - 1] != '.' by {
        assert s[|s| - 1] == s[k + 1..][|s| - 2 - k];
      }
      var t := s[..|s| - 1];
      assert t[k + 1..] == s[k + 1..|s| - 1];
      var u := t[k + 1..];
      assert '.' !in u by {
        forall j | 0 <= j < |u| ensures u[j] != '.' {
          assert u[j] == s[k + 1..][j];
        }
      }
      LastDotIs(t, k);
    }
  }

  /** A file name (no '/') has the extension ".txt", in any letter case,
      exactly when it is longer than four characters and ends in ".txt" in
      any letter case; ".txt" alone is a hidden file without extension. */
  lemma {:induction false} TxtExtension(name: string)
    requires '/' !in name && name != []
    ensures Lower(Extname(name)) == ".txt" <==> |name| > 4 && Lower(name[|name| - 4..]) == ".txt"
  {
    assert BaseName(name) == name by {
      LastSegmentOfPlain(name);
    }
    if |name| > 4 && Lower(name[|name| - 4..]) == ".txt" {
      var tail := name[|name| - 4..];
      assert name[|name| - 4] == '.' by { LowerIsDot(tail, 0); }
      forall j | 1 <= j < 4 ensures tail[j] != '.' {
        LowerIsDot(tail, j);
      }
      assert '.' !in name[|name| - 3..] by {
        assert name[|name| - 3..] == tail[1..];
      }
      LastDotIs(name, |name| - 4);
    }
    if Lower(Extname(name)) == ".txt" {
      var e := Extname(name);
      assert |e| == 4;
      var k := LastDot(name).value;
      assert e == name[k..];
    }
  }

  lemma {:induction false} LastSegmentOfPlain(name: string)
    requires '/' !in name
    ensures LastSegment(name) == name
    ensures name != [] ==> BaseName(name) == name
  {
    if name != [] {
      assert name[..|name| - 1] + [name[|name| - 1]] == name;
      var init := name[..|name| - 1];
      assert '/' !in init by {
        forall j | 0 <= j < |init| ensures init[j] != '/' {
          assert init[j] == name[j];
        }
      }
      LastSegmentOfPlain(name[..|name| - 1]);
    }
  }

  // ---------------------------------------------------------------------------
  // fileFilter and the stored name

  const InvalidFileType: string := "INVALID_FILE_TYPE"

  /** `fileFilter`: accepted, or refused with the `INVALID_FILE_TYPE` error. */
  function FileFilter(mimetype: string, originalName: string): (r: Result<bool, string>)
    ensures r.Ok? <==> mimetype == "text/plain" && Lower(Extname(originalName)) == ".txt"
    ensures r.Ok? ==> r.value
    ensures r.Err? ==> r.error == InvalidFileType
  {
    if mimetype != "text/plain" || Lower(Extname(originalName)) != ".txt" then Err(InvalidFileType)
    else Ok(true)
  }

  /** The stored name: the random id and ".txt", whatever the upload was
      called. */
  function StoredName(uuid: string): string {
    uuid + ".txt"
  }

  /** A stored name always carries the ".txt" extension, and two uploads
      get the same name only when their random ids agree. */
  lemma {:induction false} StoredNameIsTxt(uuid: string, other: string)
    requires '/' !in uuid && uuid != []
    ensures Extname(StoredName(uuid)) == ".txt"
    ensures StoredName(uuid) == StoredName(other) ==> uuid == other
  {
    var s := StoredName(uuid);
    assert '/' !in s by {
      assert forall j :: 0 <= j < |s| ==> s[j] == if j < |uuid| then uuid[j] else ".txt"[j - |uuid|];
    }
    assert Lower(".txt") == ".txt";
    assert s[|s| - 4..] == ".txt";
    TxtExtension(s);
    LastSegmentOfPlain(s);
    var e := Extname(s);
    assert |e| == |Lower(e)| == 4;
    var k := LastDot(s).value;
    assert e == s[k..];
    assert e == s[|s| - 4..];
    if StoredName(uuid) == StoredName(other) {
      assert uuid == s[..|s| - 4];
      assert other == StoredName(other)[..|StoredName(other)| - 4];
    }
  }

  // ---------------------------------------------------------------------------
  // handleUploadError

  /** An error reaching the handler: one raised by the upload library, with
      its code, or any other error, with its message. */
  datatype UploadError = LibraryError(code: string) | OtherError(message: string)

  /** How the handler ends: a 400 answer with a message, or the error
      handed on to the next error handler unchanged. */
  datatype UploadOutcome = BadUpload(message: string) | PassOn(err: UploadError)

  const TooLarge: string := "File too large. Max size is 10MB"
  const UploadFailed: string := "File upload error"
  const OnlyTxt: string := "Only .txt files are allowed"

  /** The names every object literal answers to through `in`: those it
      inherits from `Object.prototype`. All but `__proto__` name methods. */
  predicate InheritedName(s: string) {
    s == "__proto__" || InheritedMethod(s)
  }

  predicate InheritedMethod(s: string) {
    s in {"constructor", "hasOwnProperty", "isPrototypeOf", "propertyIsEnumerable", "toLocaleString",
          "toString", "valueOf", "__defineGetter__", "__defineSetter__", "__lookupGetter__", "__lookupSetter__"}
  }

  /** The `message` field of a JSON answer: a text, left out (JSON drops a
      function), or the empty object `{}` (what `Object.prototype`
      serialises to). */
  datatype MessageField = Text(text: string) | Omitted | EmptyObject

  /** What the handler does, as the response's status and message field, or
      handing the error on. */
  datatype Answer = Sent(status: int, message: MessageField) | Forwarded(err: UploadError)

  /** `handleUploadError` as written: `err.message in errorMessages` also
      holds for the names the table inherits, and the value sent for those
      is a method, which JSON leaves out, or for `__proto__` the prototype
      object itself, which JSON writes as `{}`. */
  function HandleUploadErrorAsWritten(err: UploadError): (a: Answer)
    ensures a.Forwarded? <==> err.OtherError? && err.message != InvalidFileType && !InheritedName(err.message)
    ensures a.Forwarded? ==> a.err == err
    ensures a.Sent? ==> a.status == 400
    ensures a.Sent? && a.message.Text? ==>
              a.message.text in {TooLarge, UploadFailed, OnlyTxt} && !(err.OtherError? && InheritedName(err.message))
  {
    match err
    case LibraryError(code) => Sent(400, Text(if code == "LIMIT_FILE_SIZE" then TooLarge else UploadFailed))
    case OtherError(message) =>
      if message == InvalidFileType then Sent(400, Text(OnlyTxt))
      else if message == "__proto__" then Sent(400, EmptyObject)
      else if InheritedMethod(message) then Sent(400, Omitted)
      else Forwarded(err)
  }

  /** An ordinary error whose message happens to be "toString" is answered
      with a 400 whose body has no message instead of being handed on; one
      whose message is "__proto__" gets a 400 whose message is `{}`. */
  lemma {:induction false} InheritedNameCaught()
    ensures HandleUploadErrorAsWritten(OtherError("toString")) == Sent(400, Omitted)
    ensures HandleUploadErrorAsWritten(OtherError("__proto__")) == Sent(400, EmptyObject)
  {
    assert InheritedMethod("toString");
  }

  /** `handleUploadError` with the table looked up by its own keys only:
      the upload library's errors are 400 (with the size limit named), the
      filter's refusal is 400 "Only .txt files are allowed", and every
      other error is handed on unchanged. */
  function HandleUploadError(err: UploadError): (o: UploadOutcome)
    ensures err.LibraryError? ==> o == BadUpload(if err.code == "LIMIT_FILE_SIZE" then TooLarge else UploadFailed)
    ensures err == OtherError(InvalidFileType) ==> o == BadUpload(OnlyTxt)
    ensures err.OtherError? && err.message != InvalidFileType ==> o == PassOn(err)
  {
    match err
    case LibraryError(code) => BadUpload(if code == "LIMIT_FILE_SIZE" then TooLarge else UploadFailed)
    case OtherError(message) => if message == InvalidFileType then BadUpload(OnlyTxt) else PassOn(err)
  }

  /** The two agree on every error but an ordinary one named like an
      inherited property. */
  lemma {:induction false} HandlersAgreeOtherwise(err: UploadError)
    requires !(err.OtherError? && InheritedName(err.message))
    ensures match HandleUploadError(err)
            case BadUpload(m) => HandleUploadErrorAsWritten(err) == Sent(400, Text(m))
            case PassOn(e) => HandleUploadErrorAsWritten(err) == Forwarded(e)
  {
  }

  /** A file refused by the filter is answered with 400 "Only .txt files
      are allowed". */
  lemma {:induction false} RefusedFileAnswered(mimetype: string, originalName: string)
    requires FileFilter(mimetype, originalName).Err?
    ensures HandleUploadError(OtherError(FileFilter(mimetype, originalName).error)) == BadUpload(OnlyTxt)
  {
  }
}
