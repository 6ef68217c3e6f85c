# seavan, modelled in Dafny

seavan wraps one file in a container image of its own, for later composition
with other layers. A `WrappedLayer` holds the canonical path of the file and a
tag. From them it derives a content-addressed image name,
`seavanpkg/<sha-256 of the contents, lower-case hex>--<docker-safe file name>:<tag>`,
and then runs `docker build` on a generated Dockerfile that copies the file
into an empty (`scratch`) image. This project models that naming and
build-request pipeline, the "docker-safe" string conversion it relies on, and
the error type, and proves what each promises.

Files and modules:

- `utils.dfy`, module `Utils`: the docker-safe conversion, once as the source
  writes it (replace every maximal run of characters outside `[a-z0-9-_]`) and
  once as an independent per-character map, proved equal.
- `error.dfy`, module `Errors`: `SeavanError`, its display texts, and the
  `SeavanResult` alias as `Result<T>`.
- `lib.dfy`, module `Seavan`: `WrappedLayer` and its operations. The source's
  fields are private and only `new` fills them, so `WrappedLayer` is the subset
  of `LayerFields` whose tag is docker-safe. `create_image`
  is a method whose inputs include everything the operating system and docker
  answer (the `Host` datatype).
- `hex.dfy`, module `LowerHex`: the `{:x}` rendering of the digest and its
  inverse.
- `os.dfy`, module `Os`: paths as sequences of byte components, `file_name`,
  `parent`, `to_str`, and I/O outcomes.
- `utf8.dfy`, module `Utf8`: UTF-8 decoding and encoding, and the `Debug`
  text of a byte string. Byte strings are valid text exactly when `Decode`
  succeeds.
- `wrappers.dfy`, module `Wrappers`: `Option`.

Notes on the source:

- `src/lib.rs:84` raises `SeavanError::FailedTempFileCreation`, but the enum at
  `src/error.rs:7-31` has no such variant, so the crate as shown does not
  compile. The model adds the variant to `Errors.SeavanError`. Its display
  text, "Failed temp file creation", is made up for the model; the source
  gives none.
- The conversion maps each disallowed character to one output character. A run
  of three disallowed characters gives three characters, not one `-`. The model
  follows the code (`Utils.RunsAreNotCollapsed`). So `README.md` becomes
  `readme-md`, not `readme.md` (`Seavan.FilenameExample`).
- The code writes the Dockerfile to a named temporary file and passes it with
  `-f <path>`. It does not pipe the Dockerfile on standard input, set a
  build-mode environment variable, or know of registries or banned registry
  prefixes. None of those is modelled.
- On a failed build with undecodable standard error, the code returns
  `FailedStrConversion`. It does not substitute placeholder text.

## Model

| member | source | states |
|---|---|---|
| `Utils.Replace` | src/utils.rs:14-17 | the closure yields a safe character: an ASCII upper-case letter becomes its lower-case letter, anything else becomes `-` |
| `Utils.RunLength` | src/utils.rs:10 | the greedy match of `[^a-z0-9-_]+` at the start: every character in it is disallowed, and the next one, if any, is allowed |
| `Utils.ReplaceRun` | src/utils.rs:12-18 | the replacement text of a matched run has exactly as many characters as the run |
| `Utils.DockerSafeString` | src/utils.rs:9-20 | `replace_all` over maximal disallowed runs; the output has the input's length |
| `Utils.SafeChar` | src/utils.rs:10-18 | the per-character effect: always a safe character, and a safe character is kept |
| `Utils.MapChars` | src/utils.rs:13-18 | reference definition: position `i` of the output is `SafeChar` of position `i` of the input |
| `Utils.ReplaceRunIsMapChars` | src/utils.rs:13-18 | on a run of disallowed characters, the closure's `map`/`collect` equals the per-character map |
| `Utils.DockerSafeStringIsMapChars` | src/utils.rs:10-18 | replacing each maximal disallowed run equals mapping every character independently |
| `Utils.DockerSafeStringAt` | src/utils.rs:10-18 | at every position: the output is safe, safe characters are unchanged, `A`..`Z` become `a`..`z`, every other character becomes `-` |
| `Utils.DockerSafeStringIsSafe` | src/utils.rs:9-20 | every character of the output is in `[a-z0-9-_]` |
| `Utils.DockerSafeStringFixed` | src/utils.rs:11 | the output equals the input exactly when the input is already safe (both directions) |
| `Utils.DockerSafeStringIdempotent` | src/utils.rs:9-20 | converting the output again changes nothing |
| `Utils.RunsAreNotCollapsed` | src/utils.rs:13-18 | `"a. @b"` gives `"a---b"` (three characters for a run of three), and `""` gives `""` |
| `Utils.TagExample` | src/lib.rs:154 | `"Some r4ndom t@g with character$"` converts to `"some-r4ndom-t-g-with-character-"` |
| `Errors.PathDebug` | src/error.rs:9-13 | the `{0:?}` of a path is quoted; a UTF-8 path shows exactly its text between the quotes, and any other path shows at least one `\xNN` escape |
| `Utf8.DebugText` | src/error.rs:9-13 | the model's text inside the quotes of a byte string's `Debug`, without `escape_debug`: valid UTF-8 shows as exactly what it decodes to, and invalid bytes always produce a backslash |
| `Utf8.DebugTextEscapes` | src/error.rs:9-13 | bytes that are not valid UTF-8 show a `\xNN` escape somewhere in their `Debug` text |
| `Errors.Message` | src/error.rs:7-31 | a build failure displays `"Docker build failure: "` followed by its text verbatim; the path errors display the quoted path first |
| `Errors.MessageDeterminesKind` | src/error.rs:7-31 | two errors that display the same text are of the same variant; telling `FailedTempFileCreation` apart relies on the model's own text for it, since the source gives none |
| `Errors.BuildFailureMessageInjective` | src/error.rs:20-22 | two build failures display the same text exactly when they carry the same text |
| `Errors.PathMessages` | src/error.rs:8-14 | `NoFileName` and `NoDirectory` show the same quoted path and differ only in "filename" versus "directory" |
| `Errors.FixedMessages` | src/error.rs:16-30 | `IoError` and `RegexError` display "io error" and "regex error" whatever their cause; `FailedStrConversion` displays "Failed string conversion" |
| `Seavan.New` | src/lib.rs:30-43 | fails with `IoError` exactly when canonicalising fails; otherwise keeps the canonical path and stores the converted tag, which is safe, as long as the given tag, `"latest"` when none is given, and the given tag itself when that is already safe |
| `Seavan.NewTagExample` | src/lib.rs:154 | the repository's test layer stores the tag `some-r4ndom-t-g-with-character-` |
| `Seavan.FilenameExample` | src/utils.rs:13-18 | the sanitiser turns `README.md` into `readme-md` |
| `Seavan.ReadmeImageName` | src/lib.rs:67-76 | with the default tag, a file named `README.md` gets the image name `seavanpkg/<hex digest>--readme-md:latest` |
| `Os.FileName` | src/lib.rs:45-48 | `file_name`: present exactly when the path has a last component that is not `..`; then it is that last component |
| `Os.Parent` | src/lib.rs:53-55 | `parent`: absent exactly at the root; otherwise a path that is one component shorter and that stays canonical |
| `Seavan.FilenameStr` | src/lib.rs:45-51 | `NoFileName` carrying the path exactly when the path has no final component; else `FailedStrConversion` exactly when that component is not UTF-8; else text whose UTF-8 encoding is the component |
| `Seavan.WorkingDirectory` | src/lib.rs:53-57 | `NoDirectory` carrying the path exactly when the path is the root; otherwise the path minus its last component |
| `Os.FileNameHasParent` | src/lib.rs:45-57 | a canonical path has a file name exactly when it has a parent directory |
| `Seavan.Hash` | src/lib.rs:59-65 | `IoError` exactly when reading the file fails; otherwise 64 lower-case hex digits that read back to the file's digest |
| `LowerHex.Hex` | src/lib.rs:64 | two digits from `[0-9a-f]` per byte |
| `LowerHex.UnhexHex` | src/lib.rs:64 | the rendering reads back to the digest it came from |
| `LowerHex.HexInjective` | src/lib.rs:64 | two digests render the same exactly when they are equal |
| `Seavan.ImageName` | src/lib.rs:69-75 | the `{}/{}--{}:{}` format: `seavanpkg/` first, then the digest, then `--`, the file name, `:` and the tag last; its length is the sum of the parts |
| `Seavan.RepositoryNameAndTag` | src/lib.rs:67-76 | a file-name error comes first, before the file is read; then a read error; otherwise `seavanpkg/<hex digest>--<converted file name>:<tag>`, which always splits back into those parts, since a layer's tag is safe |
| `Seavan.ParseImageNameComplete` | src/lib.rs:69-75 | splitting a generated name at its `:` and then at the first `--` after `seavanpkg/` recovers the digest, the converted file name and the tag |
| `Seavan.ParseImageNameSound` | src/lib.rs:69-75 | whatever the splitting accepts is put back together exactly by the name format |
| `Seavan.ImageNameSeparators` | src/lib.rs:69-75 | a generated name holds exactly one `:` and exactly one `/` |
| `Seavan.DockerfileText` | src/lib.rs:87-91 | the Dockerfile opens with `FROM scratch\nCOPY `, ends with ` /\n`, and holds the raw file name exactly in between |
| `Seavan.DockerfileLines` | src/lib.rs:87-91 | the Dockerfile `FROM scratch\nCOPY <file name> /\n` has exactly two lines exactly when the raw file name holds no line break |
| `Seavan.CreateImage` | src/lib.rs:82-131 | errors in source order: temp file (`FailedTempFileCreation`), file name, write, name, temp path as text; the Dockerfile text uses the raw file name; docker runs with exactly `build -f <dockerfile> -t <name> .` in the file's directory; success returns the name whatever stdout holds, failure returns `DockerBuildFailure(stderr)` when stderr is UTF-8 and `FailedStrConversion` otherwise, never `Ok`; `NoDirectory` never occurs; a returned name always parses back |
| `Os.ToStr` | src/lib.rs:102-104 | the temp path as text fails exactly when its bytes are not UTF-8, and otherwise encodes back to those bytes |
| `Utf8.Decode` | src/lib.rs:124-127 | strict decoding (`to_str`, `String::from_utf8`): decoded text has at most as many characters as there are bytes, and at least a quarter as many |
| `Utf8.DecodeEncode` | src/lib.rs:126-127 | decoding the encoding of any text gives that text |
| `Utf8.EncodeDecode` | src/lib.rs:126-127 | text decoded from bytes encodes back to those bytes |
| `Utf8.ValidIffEncoding` | src/lib.rs:126-127 | bytes decode exactly when they are the encoding of some text |

## Left out

- Canonicalising the path (`src/lib.rs:33`) is I/O. Its outcome is the `canonical` input of `Seavan.New`.
- Opening and reading the file for hashing (`src/lib.rs:60-62`) is I/O. Its outcome is the `contents` input. `io::copy` streams in chunks; the model takes the contents whole.
- SHA-256 (`src/lib.rs:61-63`) comes from a foreign crate. It is the `sha256` input, a function from bytes to 32-byte digests.
- Creating, writing and later deleting the temporary Dockerfile (`src/lib.rs:83-94`) uses OS resources. The model records the text handed to `write!` and takes each outcome as an input.
- Running `docker` (`src/lib.rs:110-113`) is a subprocess. Its exit status and captured bytes are inputs. The model records the program, arguments and working directory it would start.
- The `debug!`/`info!` logging (`src/lib.rs:34, 95, 119-121`) has no effect on results.
- Compiling the constant regular expression (`src/utils.rs:10`) cannot fail, so `Utils.DockerSafeString` is total. The `RegexError` path is never taken.
- The test module (`src/lib.rs:134-162`) needs a docker daemon. Only its tag is used (`Utils.TagExample`).
- Utf8.DebugText: leaves out Rust's `escape_debug` of the characters of valid text. A `"`, `\`, `'`, control character or grapheme-extending character appears as itself, where Rust writes an escape (`\"` for a quote).
- Errors.PathDebug: escapes each undecodable byte as `\xNN`, as Rust does. Rust's `escape_debug` of quotes, backslashes, control and grapheme-extending characters inside valid text is not modelled; such characters appear as themselves.
- Errors.Message: renders paths through `Errors.PathDebug`, so it has the same gap.
- `Path::display`, used only in log lines (`src/lib.rs:34, 95`), is not modelled.
- Paths are canonical absolute component sequences. Relative paths, `.` components and non-Unix path syntax are not modelled.
