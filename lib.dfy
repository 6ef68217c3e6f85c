/**
  The wrapper itself: a `WrappedLayer` names one file, derives a
  content-addressed image name for it, and asks `docker build` to make an
  image holding just that file.
*/
module Seavan {
  import opened Wrappers
  import opened Utf8
  import opened Os
  import opened Errors
  import opened Utils
  import opened LowerHex

  /** The fixed first segment of every generated repository name. */
  const PackageRoot: string := "seavanpkg"

  /** What every generated name starts with. */
  const NamePrefix: string := PackageRoot + "/"

  /** The tag used when none is given. */
  const DefaultTag: string := "latest"

  /** A SHA-256 digest. The hash function itself is a parameter of the model. */
  type Digest = d: seq<byte> | |d| == 32 witness seq(32, _ => 0 as byte)

  /** The two fields of a layer: the canonical path of the file and its tag. */
  datatype LayerFields = LayerFields(path: Path, tag: string)

  /**
    One file to wrap. Its fields are private and set only by `New`, so its tag
    is always docker-safe; neither field changes afterwards.
  */
  type WrappedLayer = l: LayerFields | IsSafe(l.tag) witness LayerFields(Path([]), "")

  /**
    `WrappedLayer::new`. `canonical` is what canonicalising the given path
    returned; `tag` is the optional tag.
  */
  function New(canonical: IoResult<Path>, tag: Option<string>): (r: Result<WrappedLayer>)
    ensures r.Err? <==> canonical.IoErr?
    ensures r.Err? ==> r.error == IoError(canonical.cause)
    ensures r.Ok? ==> r.value.path == canonical.value
    ensures r.Ok? ==> r.value.tag == DockerSafeString(tag.GetOr(DefaultTag))
    ensures r.Ok? ==> IsSafe(r.value.tag) && |r.value.tag| == |tag.GetOr(DefaultTag)|
    ensures r.Ok? && tag.None? ==> r.value.tag == DefaultTag
    ensures r.Ok? && tag.Some? && IsSafe(tag.value) ==> r.value.tag == tag.value
  {
    match canonical
    case IoErr(cause) => Err(IoError(cause))
    case IoOk(p) =>
      var t := tag.GetOr(DefaultTag);
      DockerSafeStringIsSafe(t);
      DockerSafeStringFixed(t);
      assert IsSafe(DefaultTag);
      Ok(LayerFields(p, DockerSafeString(t)))
  }

  /** The layer the repository's own test builds: its tag is stored already converted. */
  lemma NewTagExample(p: Path)
    ensures New(IoOk(p), Some(TestTag)) == Ok(LayerFields(p, ConvertedTestTag))
  {
    TagExample();
  }

  /** A file called `README.md` is named `readme-md`: the `.` becomes `-` like any other disallowed character. */
  const ReadmeName: string := "README.md"
  const ReadmeImageFilename: string := "readme-md"

  lemma FilenameExample()
    ensures DockerSafeString(ReadmeName) == ReadmeImageFilename
  {
    ReadmeMapped();
    DockerSafeStringIsMapChars(ReadmeName);
  }

  lemma ReadmeMapped()
    ensures MapChars(ReadmeName) == ReadmeImageFilename
  {
  }

  /** With the default tag, the image name of a file `README.md` ends in `--readme-md:latest`. */
  lemma ReadmeImageName(layer: WrappedLayer, contents: seq<byte>, sha256: seq<byte> -> Digest)
    requires FilenameStr(layer) == Ok(ReadmeName) && layer.tag == DefaultTag
    ensures RepositoryNameAndTag(layer, IoOk(contents), sha256) ==
      Ok(ImageName(Hex(sha256(contents)), ReadmeImageFilename, "latest"))
  {
    FilenameExample();
    assert RepositoryNameAndTag(layer, IoOk(contents), sha256).Ok?;
  }

  /** `filename_str`: the final component of the path, as text. */
  function FilenameStr(layer: WrappedLayer): (r: Result<string>)
    ensures r == Err(NoFileName(layer.path)) <==> FileName(layer.path).None?
    ensures r == Err(FailedStrConversion) <==> FileName(layer.path).Some? && !IsValid(FileName(layer.path).value)
    ensures r.Err? ==> r.error == NoFileName(layer.path) || r.error == FailedStrConversion
    ensures r.Ok? ==> FileName(layer.path).Some? && Encode(r.value) == FileName(layer.path).value
  {
    match FileName(layer.path)
    case None => Err(NoFileName(layer.path))
    case Some(name) =>
      match Decode(name)
      case None => Err(FailedStrConversion)
      case Some(text) => EncodeDecode(name); Ok(text)
  }

  /** `working_directory`: the directory holding the file. */
  function WorkingDirectory(layer: WrappedLayer): (r: Result<Path>)
    ensures r.Err? <==> |layer.path.components| == 0
    ensures r.Err? ==> r.error == NoDirectory(layer.path)
    ensures r.Ok? ==> exists last :: layer.path.components == r.value.components + [last]
  {
    match Parent(layer.path)
    case None => Err(NoDirectory(layer.path))
    case Some(dir) => Ok(dir)
  }

  /**
    `hash`: the digest of the file's contents in lower-case hexadecimal.
    `contents` is what opening and reading the file gave; `sha256` is the hash function.
  */
  function Hash(contents: IoResult<seq<byte>>, sha256: seq<byte> -> Digest): (r: Result<string>)
    ensures r.Err? <==> contents.IoErr?
    ensures r.Err? ==> r.error == IoError(contents.cause)
    ensures r.Ok? ==> |r.value| == 64 && IsHexString(r.value)
    ensures r.Ok? ==> Unhex(r.value) == Some(sha256(contents.value))
  {
    match contents
    case IoErr(cause) => Err(IoError(cause))
    case IoOk(bytes) =>
      UnhexHex(sha256(bytes));
      Ok(Hex(sha256(bytes)))
  }

  /** The format `<root>/<digest>--<file name>:<tag>` of a generated name. */
  function ImageName(digest: string, filename: string, tag: string): (r: string)
    ensures |r| == |NamePrefix| + |digest| + 2 + |filename| + 1 + |tag|
    ensures NamePrefix <= r && r[|NamePrefix|..|NamePrefix| + |digest|] == digest
    ensures r[|NamePrefix| + |digest|..|r| - |tag| - 1] == "--" + filename
    ensures r[|r| - |tag|..] == tag && r[|r| - |tag| - 1] == ':'
  {
    NamePrefix + digest + "--" + filename + ":" + tag
  }

  /** The three variable parts of a generated name. */
  datatype ImageParts = ImageParts(digest: string, filename: string, tag: string)

  /** The position of the first `c` in `s`. */
  function IndexOf(s: string, c: char): (r: Option<nat>)
    ensures r.None? <==> c !in s
    ensures r.Some? ==> r.value < |s| && s[r.value] == c && c !in s[..r.value]
  {
    if s == [] then None
    else if s[0] == c then Some(0)
    else
      match IndexOf(s[1..], c)
      case None => None
      case Some(k) => assert s[..k + 1] == [s[0]] + s[1..][..k]; Some(k + 1)
  }

  /** The position of the first `--` in `s`. */
  function IndexOfDoubleDash(s: string): (r: Option<nat>)
    ensures r.Some? ==> r.value + 1 < |s| && s[r.value] == '-' && s[r.value + 1] == '-'
    ensures r.Some? ==> forall i :: 0 <= i < r.value ==> !(s[i] == '-' && s[i + 1] == '-')
    ensures r.None? ==> forall i :: 0 <= i < |s| - 1 ==> !(s[i] == '-' && s[i + 1] == '-')
  {
    if |s| < 2 then None
    else if s[0] == '-' && s[1] == '-' then Some(0)
    else
      match IndexOfDoubleDash(s[1..])
      case None => None
      case Some(k) => Some(k + 1)
  }

  /**
    Splits a name at its first `:` into repository and tag, removes the
    `<root>/` prefix and splits the rest at its first `--`.
  */
  function ParseImageName(s: string): (r: Option<ImageParts>)
  {
    match IndexOf(s, ':')
    case None => None
    case Some(k) =>
      var repository, tag := s[..k], s[k + 1..];
      if !(NamePrefix <= repository) then None
      else
        var rest := repository[|NamePrefix|..];
        match IndexOfDoubleDash(rest)
        case None => None
        case Some(j) => Some(ImageParts(rest[..j], rest[j + 2..], tag))
  }

  /** A parsed name is put back together exactly. */
  lemma ParseImageNameSound(s: string)
    requires ParseImageName(s).Some?
    ensures var p := ParseImageName(s).value; ImageName(p.digest, p.filename, p.tag) == s
  {
    var k := IndexOf(s, ':').value;
    var repository, tag := s[..k], s[k + 1..];
    assert NamePrefix <= repository;
    var rest := repository[|NamePrefix|..];
    var j := IndexOfDoubleDash(rest).value;
    var digest, filename := rest[..j], rest[j + 2..];
    assert ParseImageName(s).value == ImageParts(digest, filename, tag);
    SplitAround(s, k, ":");
    SplitAround(rest, j, "--");
    SplitAround(repository, 0, NamePrefix);
    ImageNameJoin(digest, filename, tag, rest, repository, s);
  }

  lemma ImageNameJoin(digest: string, filename: string, tag: string, rest: string, repository: string, s: string)
    requires rest == digest + "--" + filename
    requires repository == NamePrefix + rest
    requires s == repository + ":" + tag
    ensures ImageName(digest, filename, tag) == s
  {
  }

  /** `s` is what stands before position `k`, then `sep`, then what follows. */
  lemma SplitAround(s: string, k: nat, sep: string)
    requires k + |sep| <= |s| && s[k..k + |sep|] == sep
    ensures s == s[..k] + sep + s[k + |sep|..]
  {
  }

  lemma {:induction false} IndexOfFirst(a: string, c: char, b: string)
    requires c !in a
    ensures IndexOf(a + [c] + b, c) == Some(|a|)
  {
    if a != [] {
      assert (a + [c] + b)[1..] == a[1..] + [c] + b;
      IndexOfFirst(a[1..], c, b);
    }
  }

  lemma {:induction false} IndexOfDoubleDashFirst(a: string, b: string)
    requires '-' !in a
    ensures IndexOfDoubleDash(a + "--" + b) == Some(|a|)
  {
    if a != [] {
      assert (a + "--" + b)[1..] == a[1..] + "--" + b;
      IndexOfDoubleDashFirst(a[1..], b);
    }
  }

  lemma HexHasNoSeparator(digest: string)
    requires IsHexString(digest)
    ensures ':' !in digest && '/' !in digest && '-' !in digest
  {
  }

  lemma SafeHasNoSeparator(s: string)
    requires IsSafe(s)
    ensures ':' !in s && '/' !in s
  {
  }

  /**
    A name made from a hexadecimal digest, a safe file name and a safe tag
    splits back into exactly those three parts: the digest has no `-` and
    neither safe string has a `:`.
  */
  lemma ParseImageNameComplete(digest: string, filename: string, tag: string)
    requires IsHexString(digest) && IsSafe(filename) && IsSafe(tag)
    ensures ParseImageName(ImageName(digest, filename, tag)) == Some(ImageParts(digest, filename, tag))
  {
    HexHasNoSeparator(digest);
    SafeHasNoSeparator(filename);
    NamePrefixSeparators();
    var rest := digest + "--" + filename;
    var repository := NamePrefix + rest;
    var s := repository + ":" + tag;
    ImageNameJoin(digest, filename, tag, rest, repository, s);
    ParseJoined(digest, filename, tag, rest, repository, s);
  }

  /** The splitting steps of `ParseImageName` on a name assembled from its parts. */
  lemma ParseJoined(digest: string, filename: string, tag: string, rest: string, repository: string, s: string)
    requires '-' !in digest && ':' !in digest && ':' !in filename && ':' !in NamePrefix
    requires rest == digest + "--" + filename
    requires repository == NamePrefix + rest
    requires s == repository + ":" + tag
    ensures ParseImageName(s) == Some(ImageParts(digest, filename, tag))
  {
    assert s == repository + [':'] + tag;
    IndexOfFirst(repository, ':', tag);
    assert s[..|repository|] == repository && s[|repository| + 1..] == tag;
    assert repository[|NamePrefix|..] == rest;
    IndexOfDoubleDashFirst(digest, filename);
    assert rest[..|digest|] == digest && rest[|digest| + 2..] == filename;
  }

  lemma NamePrefixSeparators()
    ensures multiset(NamePrefix)[':'] == 0 && multiset(NamePrefix)['/'] == 1
    ensures ':' !in NamePrefix
  {
  }

  /** A generated name has exactly one `:` and exactly one `/`. */
  lemma ImageNameSeparators(digest: string, filename: string, tag: string)
    requires IsHexString(digest) && IsSafe(filename) && IsSafe(tag)
    ensures multiset(ImageName(digest, filename, tag))[':'] == 1
    ensures multiset(ImageName(digest, filename, tag))['/'] == 1
  {
    HexHasNoSeparator(digest);
    SafeHasNoSeparator(filename);
    SafeHasNoSeparator(tag);
    NamePrefixSeparators();
    var m := multiset(ImageName(digest, filename, tag));
    assert m == multiset(NamePrefix) + multiset(digest) + multiset("--") + multiset(filename) + multiset(":") + multiset(tag);
  }

  /**
    `repository_name_and_tag`. The file name is checked before the file is
    read, and the layer is only read.
  */
  function RepositoryNameAndTag(layer: WrappedLayer, contents: IoResult<seq<byte>>, sha256: seq<byte> -> Digest): (r: Result<string>)
    ensures FilenameStr(layer).Err? ==> r == Err(FilenameStr(layer).error)
    ensures FilenameStr(layer).Ok? && contents.IoErr? ==> r == Err(IoError(contents.cause))
    ensures r.Ok? <==> FilenameStr(layer).Ok? && contents.IoOk?
    ensures r.Ok? ==>
      r.value == ImageName(Hex(sha256(contents.value)), DockerSafeString(FilenameStr(layer).value), layer.tag)
    ensures r.Ok? ==>
      ParseImageName(r.value) == Some(ImageParts(Hex(sha256(contents.value)), DockerSafeString(FilenameStr(layer).value), layer.tag))
  {
    var filename :- FilenameStr(layer);
    var safeFilename := DockerSafeString(filename);
    var digest :- Hash(contents, sha256);
    DockerSafeStringIsSafe(filename);
    var name := ImageName(digest, safeFilename, layer.tag);
    ParseImageNameComplete(digest, safeFilename, layer.tag);
    Ok(name)
  }

  const BaseLine: string := "FROM scratch"
  const CopyPrefix: string := "COPY "
  const CopySuffix: string := " /"
  const DockerfileHead: string := BaseLine + "\n" + CopyPrefix
  const DockerfileTail: string := CopySuffix + "\n"

  /** The Dockerfile written to the temporary file: an empty base, then one copy of the file into `/`. */
  function DockerfileText(filename: string): (r: string)
    ensures |r| == |DockerfileHead| + |filename| + |DockerfileTail|
    ensures DockerfileHead <= r && r[|r| - |DockerfileTail|..] == DockerfileTail
    ensures r[|DockerfileHead|..|r| - |DockerfileTail|] == filename
  {
    DockerfileHead + filename + DockerfileTail
  }

  /** The Dockerfile is exactly two lines unless the file name itself holds a line break. */
  lemma DockerfileLines(filename: string)
    ensures multiset(DockerfileText(filename))['\n'] == 2 <==> '\n' !in filename
  {
    DockerfileLineBreaks();
    assert multiset(DockerfileText(filename)) == multiset(DockerfileHead) + multiset(filename) + multiset(DockerfileTail);
    assert '\n' in filename <==> multiset(filename)['\n'] > 0;
  }

  /** Each fixed part of the template holds one line break. */
  lemma DockerfileLineBreaks()
    ensures multiset(DockerfileHead)['\n'] == 1 && multiset(DockerfileTail)['\n'] == 1
  {
    BaseLineHasNoBreak();
    CopyPrefixHasNoBreak();
    CopySuffixHasNoBreak();
    assert multiset(DockerfileHead) == multiset(BaseLine) + multiset("\n") + multiset(CopyPrefix);
    assert multiset(DockerfileTail) == multiset(CopySuffix) + multiset("\n");
  }

  lemma BaseLineHasNoBreak()
    ensures multiset(BaseLine)['\n'] == 0
  {
    assert '\n' !in BaseLine;
  }

  lemma CopyPrefixHasNoBreak()
    ensures multiset(CopyPrefix)['\n'] == 0
  {
    assert '\n' !in CopyPrefix;
  }

  lemma CopySuffixHasNoBreak()
    ensures multiset(CopySuffix)['\n'] == 0
  {
    assert '\n' !in CopySuffix;
  }

  /** What `docker build` left behind: whether it exited successfully, and its captured streams. */
  datatype Output = Output(success: bool, stdout: seq<byte>, stderr: seq<byte>)

  /** One run of an external program: its name, its arguments and its working directory. */
  datatype Invocation = Invocation(program: string, args: seq<string>, workingDirectory: Path)

  /** The answers the operating system and docker give during one `create_image` call. */
  datatype Host = Host(
    tempFile: IoResult<Path>,       // creating the named temporary file, and its path
    write: IoResult<()>,            // writing the Dockerfile into it
    contents: IoResult<seq<byte>>,  // opening and reading the wrapped file
    sha256: seq<byte> -> Digest,    // the hash function
    docker: IoResult<Output>)       // running docker to completion

  /**
    `create_image`. Besides the result it reports the Dockerfile text handed to
    the temporary file and the docker run it started, if it got that far.
  */
  method CreateImage(layer: WrappedLayer, host: Host)
    returns (r: Result<string>, dockerfile: Option<string>, invocation: Option<Invocation>)
    // 1. the temporary file, 2. the file name
    ensures host.tempFile.IoErr? ==> r == Err(FailedTempFileCreation)
    ensures host.tempFile.IoOk? && FilenameStr(layer).Err? ==> r == Err(FilenameStr(layer).error)
    ensures dockerfile.Some? <==> host.tempFile.IoOk? && FilenameStr(layer).Ok?
    ensures dockerfile.Some? ==> dockerfile.value == DockerfileText(FilenameStr(layer).value)
    // 3. writing the Dockerfile, 4. the name, 5. the Dockerfile's path as text
    ensures dockerfile.Some? && host.write.IoErr? ==> r == Err(IoError(host.write.cause))
    ensures var name := RepositoryNameAndTag(layer, host.contents, host.sha256);
      dockerfile.Some? && host.write.IoOk? && name.Err? ==> r == Err(name.error)
    ensures var name := RepositoryNameAndTag(layer, host.contents, host.sha256);
      dockerfile.Some? && host.write.IoOk? && name.Ok? && ToStr(host.tempFile.value).None? ==>
        r == Err(FailedStrConversion)
    // 6. the docker run
    ensures var name := RepositoryNameAndTag(layer, host.contents, host.sha256);
      invocation.Some? <==>
        dockerfile.Some? && host.write.IoOk? && name.Ok? && ToStr(host.tempFile.value).Some?
    ensures var name := RepositoryNameAndTag(layer, host.contents, host.sha256);
      invocation.Some? ==> invocation.value == Invocation(
        "docker",
        ["build", "-f", ToStr(host.tempFile.value).value, "-t", name.value, "."],
        Parent(layer.path).value)
    ensures invocation.Some? && host.docker.IoErr? ==> r == Err(IoError(host.docker.cause))
    // 7. the outcome of the run
    ensures r.Ok? <==> invocation.Some? && host.docker.IoOk? && host.docker.value.success
    ensures r.Ok? ==> r.value == RepositoryNameAndTag(layer, host.contents, host.sha256).value
    ensures invocation.Some? && host.docker.IoOk? && !host.docker.value.success ==>
      r == if IsValid(host.docker.value.stderr)
           then Err(DockerBuildFailure(Decode(host.docker.value.stderr).value))
           else Err(FailedStrConversion)
    ensures r.Err? && r.error.DockerBuildFailure? ==> Encode(r.error.stderr) == host.docker.value.stderr
    // a path with a file name always has a directory
    ensures !(r.Err? && r.error.NoDirectory?)
    ensures r.Ok? ==> ParseImageName(r.value).Some?
  {
    dockerfile, invocation := None, None;
    if host.tempFile.IoErr? {
      return Err(FailedTempFileCreation), dockerfile, invocation;
    }
    var tempPath := host.tempFile.value;

    var filename := FilenameStr(layer);
    if filename.Err? {
      return Err(filename.error), dockerfile, invocation;
    }
    dockerfile := Some(DockerfileText(filename.value));
    if host.write.IoErr? {
      return Err(IoError(host.write.cause)), dockerfile, invocation;
    }

    var name := RepositoryNameAndTag(layer, host.contents, host.sha256);
    if name.Err? {
      return Err(name.error), dockerfile, invocation;
    }
    var tempText := ToStr(tempPath);
    if tempText.None? {
      return Err(FailedStrConversion), dockerfile, invocation;
    }
    var args := ["build", "-f", tempText.value, "-t", name.value, "."];

    // The file name was found, so the path has a directory and this `?` never fails.
    var directory := WorkingDirectory(layer);
    assert directory.Ok?;
    invocation := Some(Invocation("docker", args, directory.value));
    if host.docker.IoErr? {
      return Err(IoError(host.docker.cause)), dockerfile, invocation;
    }

    var output := host.docker.value;
    if output.success {
      r := Ok(name.value);
    } else {
      var stderr := Decode(output.stderr);
      if stderr.None? {
        r := Err(FailedStrConversion);
      } else {
        EncodeDecode(output.stderr);
        r := Err(DockerBuildFailure(stderr.value));
      }
    }
  }
}
