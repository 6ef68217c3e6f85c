/**
  The "docker-safe" string conversion. The source replaces every match of the
  regular expression `([^a-z0-9-_]+)` -- every maximal run of characters outside
  the safe alphabet -- by the run with each character mapped on its own: an
  ASCII upper-case letter to its lower-case letter, anything else to `-`.
  Runs are not collapsed: the output has exactly as many characters as the input.
*/
module Utils {

  /** The safe alphabet `[a-z0-9-_]`; the regular expression matches every other character. */
  predicate Allowed(c: char)
  {
    'a' <= c <= 'z' || '0' <= c <= '9' || c == '-' || c == '_'
  }

  predicate IsUpper(c: char)
  {
    'A' <= c <= 'Z'
  }

  /** Whether every character of `s` is in the safe alphabet. */
  predicate IsSafe(s: string)
  {
    forall i :: 0 <= i < |s| ==> Allowed(s[i])
  }

  /** The closure applied to each character of a matched run (`to_ascii_lowercase` or `-`). */
  function Replace(c: char): (r: char)
    ensures Allowed(r)
    ensures IsUpper(c) ==> r as int == c as int + 32
    ensures !IsUpper(c) ==> r == '-'
  {
    if IsUpper(c) then (c as int + 32) as char else '-'
  }

  /** `cap.chars().map(..).collect()`: the replacement text of one matched run. */
  function ReplaceRun(cap: string): (r: string)
    ensures |r| == |cap|
  {
    if cap == [] then [] else [Replace(cap[0])] + ReplaceRun(cap[1..])
  }

  /** Length of the greedy match of `[^a-z0-9-_]+` at the start of `s` (0 when there is none). */
  function RunLength(s: string): (n: nat)
    ensures n <= |s|
    ensures forall i :: 0 <= i < n ==> !Allowed(s[i])
    ensures n < |s| ==> Allowed(s[n])
  {
    if s == [] || Allowed(s[0]) then 0 else 1 + RunLength(s[1..])
  }

  /**
    `docker_safe_string` as the source writes it: `replace_all` copies the text
    between matches and substitutes each maximal disallowed run. The regular
    expression is a constant that compiles, so the conversion never fails.
  */
  function DockerSafeString(s: string): (r: string)
    ensures |r| == |s|
    decreases |s|
  {
    if s == [] then []
    else if Allowed(s[0]) then [s[0]] + DockerSafeString(s[1..])
    else
      var n := RunLength(s);
      ReplaceRun(s[..n]) + DockerSafeString(s[n..])
  }

  /** The effect of the conversion on one character, whatever run it stands in. */
  function SafeChar(c: char): (r: char)
    ensures Allowed(r)
    ensures Allowed(c) ==> r == c
  {
    if Allowed(c) then c else Replace(c)
  }

  /** The reference definition: map every character independently. */
  function MapChars(s: string): (r: string)
    ensures |r| == |s|
    ensures forall i :: 0 <= i < |s| ==> r[i] == SafeChar(s[i])
  {
    seq(|s|, i requires 0 <= i < |s| => SafeChar(s[i]))
  }

  lemma MapCharsAppend(a: string, b: string)
    ensures MapChars(a + b) == MapChars(a) + MapChars(b)
  {
  }

  /** On a run of disallowed characters the replacement closure is the per-character map. */
  lemma {:induction false} ReplaceRunIsMapChars(cap: string)
    requires forall i :: 0 <= i < |cap| ==> !Allowed(cap[i])
    ensures ReplaceRun(cap) == MapChars(cap)
  {
    if cap != [] {
      ReplaceRunIsMapChars(cap[1..]);
    }
  }

  /** Replacing each maximal disallowed run equals mapping every character independently. */
  lemma {:induction false} DockerSafeStringIsMapChars(s: string)
    ensures DockerSafeString(s) == MapChars(s)
    decreases |s|
  {
    if s == [] {
    } else if Allowed(s[0]) {
      DockerSafeStringIsMapChars(s[1..]);
      assert [s[0]] + s[1..] == s;
      MapCharsAppend([s[0]], s[1..]);
    } else {
      var n := RunLength(s);
      DockerSafeStringIsMapChars(s[n..]);
      ReplaceRunIsMapChars(s[..n]);
      assert s[..n] + s[n..] == s;
      MapCharsAppend(s[..n], s[n..]);
    }
  }

  /** Position by position: safe characters stay, upper-case letters are lowered, the rest become `-`. */
  lemma DockerSafeStringAt(s: string, i: nat)
    requires i < |s|
    ensures Allowed(DockerSafeString(s)[i])
    ensures Allowed(s[i]) ==> DockerSafeString(s)[i] == s[i]
    ensures IsUpper(s[i]) ==> DockerSafeString(s)[i] as int == s[i] as int + 32
    ensures !Allowed(s[i]) && !IsUpper(s[i]) ==> DockerSafeString(s)[i] == '-'
  {
    DockerSafeStringIsMapChars(s);
  }

  /** The output is always in the safe alphabet. */
  lemma DockerSafeStringIsSafe(s: string)
    ensures IsSafe(DockerSafeString(s))
  {
    DockerSafeStringIsMapChars(s);
  }

  /** A string is left unchanged exactly when it is already in the safe alphabet. */
  lemma DockerSafeStringFixed(s: string)
    ensures DockerSafeString(s) == s <==> IsSafe(s)
  {
    DockerSafeStringIsMapChars(s);
  }

  /** Converting twice changes nothing more. */
  lemma DockerSafeStringIdempotent(s: string)
    ensures DockerSafeString(DockerSafeString(s)) == DockerSafeString(s)
  {
    DockerSafeStringIsSafe(s);
    DockerSafeStringFixed(DockerSafeString(s));
  }

  /** A run of several disallowed characters gives as many characters out, not one. */
  lemma RunsAreNotCollapsed()
    ensures DockerSafeString("a. @b") == "a---b"
    ensures DockerSafeString("") == ""
  {
    DockerSafeStringIsMapChars("a. @b");
  }

  /** The tag used by the repository's own test, and what it converts to. */
  const TestTag: string := "Some r4ndom t@g with character$"
  const ConvertedTestTag: string := "some-r4ndom-t-g-with-character-"

  lemma TagExample()
    ensures DockerSafeString(TestTag) == ConvertedTestTag
  {
    TagExampleMapped();
    DockerSafeStringIsMapChars(TestTag);
  }

  lemma TagExampleMapped()
    ensures MapChars(TestTag) == ConvertedTestTag
  {
  }
}
