/**
  The parts of Rust's `std::path` and `std::io` that the wrapper relies on.
  A path is modelled as its sequence of components after the root, which is
  what `std::fs::canonicalize` returns: absolute, with every symbolic link,
  `.` and `..` resolved. On Unix a component is a sequence of bytes.
*/
module Os {
  import opened Wrappers
  import opened Utf8

  type Component = seq<byte>

  /** An absolute path: `/` followed by its components joined by `/`. */
  datatype Path = Path(components: seq<Component>)

  const Slash: byte := 0x2F
  const Dot: byte := 0x2E

  /** A component of a canonical path: non-empty, no separator, no NUL, neither `.` nor `..`. */
  predicate IsNormalComponent(c: Component)
  {
    |c| > 0 && Slash !in c && 0 !in c && c != [Dot] && c != [Dot, Dot]
  }

  /** What `std::fs::canonicalize` guarantees of the path it returns. */
  predicate IsCanonical(p: Path)
  {
    forall i :: 0 <= i < |p.components| ==> IsNormalComponent(p.components[i])
  }

  /** `Path::file_name`: the final component, absent for the root and for a path ending in `..`. */
  function FileName(p: Path): (r: Option<Component>)
    ensures r.Some? <==> |p.components| > 0 && p.components[|p.components| - 1] != [Dot, Dot]
    ensures r.Some? ==> p.components == p.components[..|p.components| - 1] + [r.value]
  {
    var cs := p.components;
    if |cs| == 0 || cs[|cs| - 1] == [Dot, Dot] then None else Some(cs[|cs| - 1])
  }

  /** `Path::parent`: the path without its final component, absent for the root. */
  function Parent(p: Path): (r: Option<Path>)
    ensures r.Some? <==> |p.components| > 0
    ensures r.Some? ==> exists last :: p.components == r.value.components + [last]
    ensures r.Some? && IsCanonical(p) ==> IsCanonical(r.value)
  {
    var cs := p.components;
    if |cs| == 0 then None
    else
      assert cs == cs[..|cs| - 1] + [cs[|cs| - 1]];
      Some(Path(cs[..|cs| - 1]))
  }

  /** A canonical path that has a file name also has a parent directory. */
  lemma FileNameHasParent(p: Path)
    requires IsCanonical(p)
    ensures FileName(p).Some? <==> Parent(p).Some?
  {
    if |p.components| > 0 {
      assert IsNormalComponent(p.components[|p.components| - 1]);
    }
  }

  /** The bytes of the path as the operating system sees them. */
  function Bytes(p: Path): (r: seq<byte>)
    ensures |r| > 0 && r[0] == Slash
  {
    if |p.components| == 0 then [Slash] else JoinComponents(p.components)
  }

  function JoinComponents(cs: seq<Component>): (r: seq<byte>)
    ensures |cs| > 0 ==> |r| > 0 && r[0] == Slash
  {
    if cs == [] then [] else [Slash] + cs[0] + JoinComponents(cs[1..])
  }

  /** `Path::to_str`: the path as text, absent when its bytes are not valid UTF-8. */
  function ToStr(p: Path): (r: Option<string>)
    ensures r.Some? ==> Encode(r.value) == Bytes(p)
    ensures r.None? <==> !IsValid(Bytes(p))
  {
    var d := Decode(Bytes(p));
    if d.Some? then EncodeDecode(Bytes(p)); d else d
  }

  /** The cause carried by a `std::io::Error`; only its identity matters to the model. */
  datatype IoCause = NotFound | PermissionDenied | OtherIo(code: int)

  /** `std::io::Result<T>`. */
  datatype IoResult<+T> = IoOk(value: T) | IoErr(cause: IoCause)
}
