/** Byte-slice search and single replacement, as Go's `bytes.Index` and
    `bytes.Replace` with a count of 1 compute them. */
module Splice {
  import opened Wrappers

  /** A byte, written as the character with the same code so that ASCII
      text can be given as a string literal. */
  type byte = c: char | c as int < 256

  /** `pattern` occurs in `s` starting at position `i`. */
  predicate OccursAt(s: seq<byte>, pattern: seq<byte>, i: int) {
    0 <= i && i + |pattern| <= |s| && s[i..i + |pattern|] == pattern
  }

  /** The first occurrence of `pattern` in `s` at or after `from`. */
  function IndexFrom(s: seq<byte>, pattern: seq<byte>, from: nat): (r: Option<nat>)
    ensures r.Some? ==> from <= r.value && OccursAt(s, pattern, r.value)
    ensures r.Some? ==> forall j :: from <= j < r.value ==> !OccursAt(s, pattern, j)
    ensures r.None? ==> forall j :: from <= j ==> !OccursAt(s, pattern, j)
    decreases |s| - from
  {
    if from + |pattern| > |s| then None
    else if s[from..from + |pattern|] == pattern then Some(from)
    else IndexFrom(s, pattern, from + 1)
  }

  /** `bytes.Index`: the first occurrence of `pattern` in `s`, if any. */
  function Index(s: seq<byte>, pattern: seq<byte>): (r: Option<nat>)
    ensures r.Some? <==> exists j :: OccursAt(s, pattern, j)
    ensures r.Some? ==> OccursAt(s, pattern, r.value) && forall j :: 0 <= j < r.value ==> !OccursAt(s, pattern, j)
  {
    IndexFrom(s, pattern, 0)
  }

  /** `bytes.Replace(s, target, replacement, 1)`: the first occurrence of
      `target`, if any, replaced by `replacement`; every other byte copied. */
  function ReplaceFirst(s: seq<byte>, target: seq<byte>, replacement: seq<byte>): (r: seq<byte>)
    ensures Index(s, target).None? ==> r == s
    ensures Index(s, target).Some? ==> |r| == |s| - |target| + |replacement|
  {
    match Index(s, target)
    case None => s
    case Some(i) => s[..i] + replacement + s[i + |target|..]
  }

  /** Putting `target` back in place of the spliced-in `replacement` gives
      the input back: nothing outside the first occurrence is touched. */
  lemma ReplaceFirstUndone(s: seq<byte>, target: seq<byte>, replacement: seq<byte>, i: nat)
    requires Index(s, target) == Some(i)
    ensures i + |replacement| <= |ReplaceFirst(s, target, replacement)|
    ensures ReplaceFirst(s, target, replacement)[i..i + |replacement|] == replacement
    ensures ReplaceFirst(s, target, replacement)[..i] + target + ReplaceFirst(s, target, replacement)[i + |replacement|..] == s
  {
    var r := ReplaceFirst(s, target, replacement);
    assert r == s[..i] + replacement + s[i + |target|..];
    assert r[..i] == s[..i];
    assert r[i + |replacement|..] == s[i + |target|..];
    assert s[i..i + |target|] == target;
    assert s == s[..i] + s[i..i + |target|] + s[i + |target|..];
  }

  /** Replacing the first `target` by `prefix + target` inserts `prefix`
      right before that occurrence and copies every byte of the input. */
  lemma InsertBeforeFirst(s: seq<byte>, target: seq<byte>, prefix: seq<byte>, i: nat)
    requires Index(s, target) == Some(i)
    ensures i <= |s|
    ensures ReplaceFirst(s, target, prefix + target) == s[..i] + prefix + s[i..]
  {
    assert s[i..i + |target|] == target;
    assert s[i..] == s[i..i + |target|] + s[i + |target|..];
  }
}
