/** Null-aware string helpers and file-extension handling
    (Extensions/StringExtensions.cs). A C# string that may be null is an
    `Option<string>`. */
module StringExtensions {
  import opened Wrappers

  type NullableString = Option<string>

  /** Non-null and non-empty. */
  predicate IsValid(value: NullableString)
  {
    value.Some? && |value.value| > 0
  }

  predicate IsInvalid(value: NullableString)
  {
    !IsValid(value)
  }

  /** The value when it is valid, otherwise the replacement. */
  function OnNullOrEmpty(value: NullableString, replacement: NullableString): (r: NullableString)
    ensures IsValid(value) ==> r == value
    ensures IsInvalid(value) ==> r == replacement
  {
    if IsValid(value) then value else replacement
  }

  /** `String.LastIndexOf(char)`: the last position holding `c`, or -1. */
  function LastIndexOf(s: string, c: char): (r: int)
    ensures -1 <= r < |s|
    ensures r >= 0 ==> s[r] == c && forall j :: r < j < |s| ==> s[j] != c
    ensures r == -1 <==> c !in s
  {
    if s == [] then -1
    else if s[|s| - 1] == c then |s| - 1
    else LastIndexOf(s[..|s| - 1], c)
  }

  /** `value.Split('/').Last()`: the text after the last `/`. */
  function LastSegment(s: string): (r: string)
    ensures '/' !in r
    ensures |r| <= |s| && r == s[|s| - |r|..]
  {
    s[LastIndexOf(s, '/') + 1..]
  }

  /** The extension of the last path segment: empty for an invalid value, or
      when that segment has no `.` or ends with one; otherwise the text after its
      last `.`. */
  function GetFileExtension(value: NullableString): (r: string)
    ensures '.' !in r && '/' !in r
  {
    if IsInvalid(value) then ""
    else
      var split := LastSegment(value.value);
      if |split| == 0 || '.' !in split || split[|split| - 1] == '.' then ""
      else split[LastIndexOf(split, '.') + 1..]
  }

  /** Lower-casing of the letters A to Z. */
  function ToLower(s: string): (r: string)
    ensures |r| == |s|
    ensures forall i :: 0 <= i < |s| ==> r[i] == LowerChar(s[i])
  {
    if s == [] then [] else ToLower(s[..|s| - 1]) + [LowerChar(s[|s| - 1])]
  }

  function LowerChar(c: char): char
  {
    if 'A' <= c <= 'Z' then (c as int + 32) as char else c
  }

  /** There is an extension, and it matches `specificExtension` ignoring case
      unless that is null or empty. */
  predicate HasFileExtension(value: NullableString, specificExtension: NullableString)
  {
    var extension := GetFileExtension(value);
    |extension| > 0 && (IsInvalid(specificExtension) || ToLower(extension) == ToLower(specificExtension.value))
  }

  /** Everything before the last `.` when there is an extension; otherwise the
      value itself. */
  function RemoveFileExtension(value: NullableString): (r: NullableString)
  {
    if HasFileExtension(value, None) then Some(value.value[..LastIndexOf(value.value, '.')]) else value
  }

  /** The value with null turned into "". The directory-trimming branch of the
      source is guarded by a condition that never holds, and the ".json"
      replacement discards its result, so the path comes back unchanged. */
  function AsFileName(value: NullableString): (r: string)
  {
    var path := OnNullOrEmpty(value, Some("")).value;
    // The trimming `Substring` sits behind `index + 1 > path.Length`, which no
    // index returned by `LastIndexOf` satisfies; that branch is never taken.
    if '/' in path && LastIndexOf(path, '/') + 1 > |path| then ""
    else path
  }

  /** `IsInvalid` is the negation of `IsValid`, which means non-null and non-empty. */
  lemma ValidityDual(value: NullableString)
    ensures IsInvalid(value) <==> (value.None? || value.value == "")
  {
  }

  /** `AsFileName` is the identity on non-null strings and maps null to "". */
  lemma AsFileNameIdentity(value: NullableString)
    ensures AsFileName(value) == value.GetOr("")
  {
  }

  /** The last `.` of `s + "." + ext` is the one before `ext` when `ext` has none. */
  lemma LastDotOfAppended(s: string, ext: string)
    requires '.' !in ext
    ensures LastIndexOf(s + "." + ext, '.') == |s|
  {
    var stem := s + ".";
    LastIndexOfAppend(stem, ext, '.');
    assert stem[|stem| - 1] == '.';
  }

  /** Appending text without `c` does not move the last `c`. */
  lemma {:induction false} LastIndexOfAppend(a: string, b: string, c: char)
    requires c !in b
    ensures LastIndexOf(a + b, c) == LastIndexOf(a, c)
    decreases |b|
  {
    if b == [] {
      assert a + b == a;
    } else {
      var ab := a + b;
      assert ab[|ab| - 1] == b[|b| - 1];
      assert ab[..|ab| - 1] == a + b[..|b| - 1];
      LastIndexOfAppend(a, b[..|b| - 1], c);
    }
  }

  /** The last segment of `a + b` when `b` has no `/`. */
  lemma LastSegmentAppend(a: string, b: string)
    requires '/' !in b
    ensures LastSegment(a + b) == LastSegment(a) + b
  {
    LastIndexOfAppend(a, b, '/');
    var k := LastIndexOf(a, '/') + 1;
    assert (a + b)[k..] == a[k..] + b;
  }

  /** The extension of `s + "." + ext` is `ext` when `ext` is non-empty and has
      neither `.` nor `/`. */
  lemma ExtensionOfAppended(s: string, ext: string)
    requires |ext| > 0 && '.' !in ext && '/' !in ext
    ensures GetFileExtension(Some(s + "." + ext)) == ext
  {
    var tail := "." + ext;
    assert '/' !in tail by {
      forall j | 0 <= j < |tail| ensures tail[j] != '/' {
        if j > 0 { assert tail[j] == ext[j - 1]; }
      }
    }
    assert s + "." + ext == s + tail;
    LastSegmentAppend(s, tail);
    var l := LastSegment(s);
    var split := l + tail;
    assert split == l + "." + ext;
    assert split[|l|] == '.';
    assert split[|split| - 1] == ext[|ext| - 1];
    LastDotOfAppended(l, ext);
    assert split[|l| + 1..] == ext;
  }

  /** Round trip: removing the extension just appended gives back the stem. */
  lemma RemoveAppendedExtension(s: string, ext: string)
    requires |ext| > 0 && '.' !in ext && '/' !in ext
    ensures RemoveFileExtension(Some(s + "." + ext)) == Some(s)
  {
    ExtensionOfAppended(s, ext);
    LastDotOfAppended(s, ext);
    assert (s + "." + ext)[..|s|] == s;
  }

  /** A value without an extension is left as it is. */
  lemma RemoveWithoutExtension(value: NullableString)
    requires GetFileExtension(value) == ""
    ensures RemoveFileExtension(value) == value
  {
  }

  /** An appended extension matches any spelling of it that lower-cases to the
      same text. */
  lemma ExtensionMatch(s: string, ext: string, specific: string)
    requires |ext| > 0 && '.' !in ext && '/' !in ext
    requires |specific| > 0 && ToLower(ext) == ToLower(specific)
    ensures HasFileExtension(Some(s + "." + ext), Some(specific))
    ensures HasFileExtension(Some(s + "." + ext), None)
  {
    ExtensionOfAppended(s, ext);
  }
}
