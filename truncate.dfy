/**
 * smart_truncate: cut text to a length without splitting a word, then
 * append a suffix.
 */
module Truncation {
  import opened Wrappers

  /** The defaults of smart_truncate. */
  const DefaultLength: nat := 160
  const DefaultSuffix: string := "..."

  /** The index of the last ' ' in s (str.rfind(' ')). */
  function LastSpace(s: string): (k: Option<nat>)
    ensures k.Some? ==> k.value < |s| && s[k.value] == ' ' && ' ' !in s[k.value + 1..]
    ensures k.None? ==> ' ' !in s
  {
    if s == [] then None
    else if s[|s| - 1] == ' ' then Some(|s| - 1)
    else
      var k := LastSpace(s[..|s| - 1]);
      assert s == s[..|s| - 1] + [s[|s| - 1]];
      if k.Some? then assert s[k.value + 1..] == s[..|s| - 1][k.value + 1..] + [s[|s| - 1]]; k
      else k
  }

  /** s.rsplit(' ', 1)[0]: the text before the last space, or s itself when it has none. */
  function BeforeLastSpace(s: string): (r: string)
    ensures r <= s
    ensures ' ' !in s ==> r == s
    ensures ' ' in s ==> |r| < |s| && s[|r|] == ' ' && ' ' !in s[|r| + 1..]
  {
    match LastSpace(s)
    case Some(k) => s[..k]
    case None => s
  }

  /**
   * What smart_truncate promises of r: text that fits is returned as it is;
   * longer text becomes a prefix of its first `length` characters followed
   * by the suffix, where the prefix is the whole cut when the cut ends in a
   * space or has no space at all, and otherwise stops just before the last
   * space of the cut.
   */
  ghost predicate IsTruncation(content: string, length: nat, suffix: string, r: string)
    // the text itself, or at most `length` characters of it and then the suffix
    ensures IsTruncation(content, length, suffix, r) ==>
      r == content || (|suffix| <= |r| <= length + |suffix| && r[|r| - |suffix|..] == suffix)
  {
    if |content| <= length then r == content
    else
      && 0 < length && |suffix| <= |r|
      && var k := |r| - |suffix|;
      && k <= length
      && r == content[..k] + suffix
      && if content[length - 1] == ' ' || ' ' !in content[..length] then k == length
         else k < length - 1 && content[k] == ' ' && ' ' !in content[k + 1..length]
  }

  /**
   * smart_truncate(content, length, suffix). Python raises on content[-1]
   * when the cut is empty, hence the precondition.
   */
  function SmartTruncate(content: string, length: nat, suffix: string): (r: string)
    requires |content| <= length || length > 0
    ensures IsTruncation(content, length, suffix, r)
    ensures |r| <= length + |suffix|
  {
    if |content| <= length then content
    else
      var cut := content[..length];
      var kept := if cut[length - 1] != ' ' then BeforeLastSpace(cut) else cut;
      assert content[..|kept|] == kept;
      kept + suffix
  }

  /** A space with no space after it is the one LastSpace finds. */
  lemma {:induction false} LastSpaceIsUnique(s: string, k: nat)
    requires k < |s| && s[k] == ' ' && ' ' !in s[k + 1..]
    ensures LastSpace(s) == Some(k)
    decreases |s|
  {
    if s[|s| - 1] != ' ' {
      assert k < |s| - 1;
      var t := s[..|s| - 1];
      assert t[k + 1..] == s[k + 1..|s| - 1];
      LastSpaceIsUnique(t, k);
    }
  }

  /** IsTruncation determines the result: smart_truncate is the only function meeting it. */
  lemma TruncationUnique(content: string, length: nat, suffix: string, r1: string, r2: string)
    requires IsTruncation(content, length, suffix, r1)
    requires IsTruncation(content, length, suffix, r2)
    ensures r1 == r2
  {
    if |content| > length && !(content[length - 1] == ' ' || ' ' !in content[..length]) {
      var cut := content[..length];
      var k1, k2 := |r1| - |suffix|, |r2| - |suffix|;
      assert cut[k1 + 1..] == content[k1 + 1..length];
      assert cut[k2 + 1..] == content[k2 + 1..length];
      LastSpaceIsUnique(cut, k1);
      LastSpaceIsUnique(cut, k2);
    }
  }

  /**
   * A truncated result never ends in the middle of a word when the cut holds a
   * space: either the kept text ends in a space, or the original goes on with
   * one right after it.
   */
  lemma TruncationKeepsWords(content: string, length: nat, suffix: string)
    requires |content| > length > 0
    requires ' ' in content[..length]
    ensures var k := |SmartTruncate(content, length, suffix)| - |suffix|;
      0 <= k <= length && ((0 < k && content[k - 1] == ' ') || content[k] == ' ')
  {
  }
}
