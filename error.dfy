/** The error type of the wrapper (`SeavanError`) and its result alias (`SeavanResult`). */
module Errors {
  import opened Utf8
  import opened Os

  /** The cause carried by a `regex::Error`; only its identity matters to the model. */
  datatype RegexCause = RegexCause(description: string)

  /**
    Every way an operation of the wrapper can fail. `FailedTempFileCreation` is
    the variant that the image builder raises when no temporary file can be made.
  */
  datatype SeavanError =
    | NoFileName(path: Path)
    | NoDirectory(path: Path)
    | FailedStrConversion
    | DockerBuildFailure(stderr: string)
    | IoError(cause: IoCause)
    | RegexError(regex: RegexCause)
    | FailedTempFileCreation

  /** `SeavanResult<T>`: a value, or exactly one error. */
  datatype Result<+T> = Ok(value: T) | Err(error: SeavanError) {

    predicate IsFailure()
    {
      Err?
    }

    function PropagateFailure<U>(): Result<U>
      requires Err?
    {
      Err(error)
    }

    function Extract(): T
      requires Ok?
    {
      value
    }
  }

  /**
    The `{:?}` rendering of a path: its bytes between double quotes, decoded
    where they are UTF-8 and escaped byte by byte where they are not.
  */
  function PathDebug(p: Path): (r: string)
    ensures |r| >= 2 && r[0] == '"' && r[|r| - 1] == '"'
    ensures ToStr(p).Some? ==> r[1..|r| - 1] == ToStr(p).value
    ensures ToStr(p).None? ==> exists i :: 0 <= i && i + 4 <= |r| && r[i] == '\\' && r[i + 1] == 'x'
  {
    var t := DebugText(Bytes(p));
    var r := "\"" + t + "\"";
    assert r[1..|r| - 1] == t;
    if ToStr(p).None? then
      DebugTextEscapes(Bytes(p));
      var i :| 0 <= i && i + 4 <= |t| && t[i] == '\\' && t[i + 1] == 'x';
      assert r[i + 1] == '\\' && r[i + 2] == 'x';
      r
    else r
  }

  const BuildFailurePrefix: string := "Docker build failure: "

  /** The text the error displays as (its `Display` implementation). */
  function Message(e: SeavanError): (m: string)
    ensures e.DockerBuildFailure? ==>
      BuildFailurePrefix <= m && |BuildFailurePrefix| <= |m| && m[|BuildFailurePrefix|..] == e.stderr
    ensures e.NoFileName? || e.NoDirectory? ==> PathDebug(e.path) <= m
  {
    match e
    case NoFileName(p) => PathDebug(p) + " has no filename"
    case NoDirectory(p) => PathDebug(p) + " has no directory"
    case FailedStrConversion => "Failed string conversion"
    case DockerBuildFailure(s) => BuildFailurePrefix + s
    case IoError(_) => "io error"
    case RegexError(_) => "regex error"
    case FailedTempFileCreation => "Failed temp file creation"
  }

  /** Which variant an error is, ignoring its payload. */
  function Kind(e: SeavanError): nat
  {
    match e
    case NoFileName(_) => 0
    case NoDirectory(_) => 1
    case FailedStrConversion => 2
    case DockerBuildFailure(_) => 3
    case IoError(_) => 4
    case RegexError(_) => 5
    case FailedTempFileCreation => 6
  }

  /** Two errors that display the same text are of the same variant. */
  lemma MessageDeterminesKind(e1: SeavanError, e2: SeavanError)
    requires Message(e1) == Message(e2)
    ensures Kind(e1) == Kind(e2)
  {
    var m := Message(e1);
    // The first character tells the path errors, the build failure and the
    // fixed texts apart; the last and the eighth characters do the rest.
    if e1.NoFileName? || e1.NoDirectory? {
      assert m[0] == '"';
      assert m[|m| - 1] == if e1.NoFileName? then 'e' else 'y';
    } else if e1.DockerBuildFailure? {
      assert m[0] == 'D';
    } else if e1.FailedStrConversion? || e1.FailedTempFileCreation? {
      assert m[0] == 'F';
      assert m[7] == if e1.FailedStrConversion? then 's' else 't';
    } else {
      assert m[0] == if e1.IoError? then 'i' else 'r';
    }
    if e2.NoFileName? || e2.NoDirectory? {
      assert m[|m| - 1] == if e2.NoFileName? then 'e' else 'y';
    } else if e2.FailedStrConversion? || e2.FailedTempFileCreation? {
      assert m[7] == if e2.FailedStrConversion? then 's' else 't';
    }
  }

  /** A build failure's message holds the captured text verbatim, so distinct texts give distinct messages. */
  lemma BuildFailureMessageInjective(s1: string, s2: string)
    ensures Message(DockerBuildFailure(s1)) == Message(DockerBuildFailure(s2)) <==> s1 == s2
  {
    if Message(DockerBuildFailure(s1)) == Message(DockerBuildFailure(s2)) {
      assert Message(DockerBuildFailure(s1))[|BuildFailurePrefix|..] == s1;
    }
  }

  /** The two path errors render the same path and differ only in the word naming what is missing. */
  lemma PathMessages(p: Path)
    ensures Message(NoFileName(p)) == PathDebug(p) + " has no filename"
    ensures Message(NoDirectory(p)) == PathDebug(p) + " has no directory"
    ensures Message(NoFileName(p)) != Message(NoDirectory(p))
  {
    MissingWordDiffers(PathDebug(p));
  }

  lemma MissingWordDiffers(d: string)
    ensures d + " has no filename" != d + " has no directory"
  {
    var m1, m2 := d + " has no filename", d + " has no directory";
    assert m1[|m1| - 1] == 'e' && m2[|m2| - 1] == 'y';
  }

  /** Errors without a payload, and errors whose cause is not displayed, have one fixed text. */
  lemma FixedMessages(c1: IoCause, c2: IoCause, r1: RegexCause, r2: RegexCause)
    ensures Message(IoError(c1)) == Message(IoError(c2)) == "io error"
    ensures Message(RegexError(r1)) == Message(RegexError(r2)) == "regex error"
    ensures Message(FailedStrConversion) == "Failed string conversion"
  {
  }
}
