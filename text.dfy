/**
 * The text normaliser of the news view (clean_text): strip markup tags with
 * the regular expression <[^<]+?>, decode HTML entities, collapse whitespace
 * the way " ".join(text.split()) does.
 */
module TextNormalizer {
  import opened Wrappers

  /** Python's str.isspace() on one character: the separators of str.split(). */
  predicate IsSpace(c: char) {
    var n := c as int;
    (0x09 <= n <= 0x0D) || (0x1C <= n <= 0x20) || n == 0x85 || n == 0xA0
    || n == 0x1680 || (0x2000 <= n <= 0x200A) || n == 0x2028 || n == 0x2029
    || n == 0x202F || n == 0x205F || n == 0x3000
  }

  /** A word of str.split(): non-empty and free of whitespace. */
  ghost predicate IsWord(w: string) {
    w != [] && forall i :: 0 <= i < |w| ==> !IsSpace(w[i])
  }

  /**
   * Text in the shape " ".join(...) of words produces: no whitespace but
   * single spaces between non-space characters.
   */
  ghost predicate Normalized(t: string) {
    && (forall i :: 0 <= i < |t| ==> t[i] == ' ' || !IsSpace(t[i]))
    && (t != [] ==> t[0] != ' ' && t[|t| - 1] != ' ')
    && (forall i :: 0 <= i < |t| - 1 ==> t[i] == ' ' ==> t[i + 1] != ' ')
  }

  /** Length of the run of non-space characters at the start of s. */
  function WordLength(s: string): (n: nat)
    ensures n <= |s|
    ensures forall i :: 0 <= i < n ==> !IsSpace(s[i])
    ensures n < |s| ==> IsSpace(s[n])
  {
    if s == [] || IsSpace(s[0]) then 0 else 1 + WordLength(s[1..])
  }

  /** str.split() with no separator: the maximal runs of non-space characters, in order. */
  function Words(s: string): (ws: seq<string>)
    ensures forall k :: 0 <= k < |ws| ==> IsWord(ws[k])
    decreases |s|
  {
    if s == [] then []
    else if IsSpace(s[0]) then Words(s[1..])
    else
      var n := WordLength(s);
      [s[..n]] + Words(s[n..])
  }

  /** The characters of s other than whitespace, in order. */
  function NonSpace(s: string): (r: string)
    ensures |r| <= |s|
    ensures forall i :: 0 <= i < |r| ==> !IsSpace(r[i])
  {
    if s == [] then []
    else if IsSpace(s[0]) then NonSpace(s[1..])
    else [s[0]] + NonSpace(s[1..])
  }

  /** The words of ws written one after another. */
  function Concat(ws: seq<string>): string {
    if ws == [] then [] else ws[0] + Concat(ws[1..])
  }

  /** A run of non-space characters at the front passes into NonSpace whole. */
  lemma {:induction false} NonSpacePrefix(s: string, n: nat)
    requires n <= |s|
    requires forall i :: 0 <= i < n ==> !IsSpace(s[i])
    ensures NonSpace(s) == s[..n] + NonSpace(s[n..])
    decreases n
  {
    if n > 0 {
      NonSpacePrefix(s[1..], n - 1);
      assert s[1..][..n - 1] == s[1..n];
      assert s[1..][n - 1..] == s[n..];
      assert s[..n] == [s[0]] + s[1..n];
    }
  }

  /**
   * Splitting loses only whitespace: the words, written together, are the
   * non-space characters of s in their order.
   */
  lemma {:induction false} WordsSpellNonSpace(s: string)
    ensures Concat(Words(s)) == NonSpace(s)
    decreases |s|
  {
    if s != [] {
      if IsSpace(s[0]) {
        WordsSpellNonSpace(s[1..]);
      } else {
        var n := WordLength(s);
        NonSpacePrefix(s, n);
        WordsSpellNonSpace(s[n..]);
        var ws := Words(s);
        assert ws == [s[..n]] + Words(s[n..]);
        assert ws[1..] == Words(s[n..]);
      }
    }
  }

  /** " ".join(ws). */
  function JoinSpaced(ws: seq<string>): string {
    if ws == [] then ""
    else if |ws| == 1 then ws[0]
    else ws[0] + " " + JoinSpaced(ws[1..])
  }

  /** Joining words with single spaces yields normalized text. */
  lemma {:induction false} JoinNormalized(ws: seq<string>)
    requires forall k :: 0 <= k < |ws| ==> IsWord(ws[k])
    ensures Normalized(JoinSpaced(ws))
    ensures ws != [] ==> JoinSpaced(ws) != []
  {
    if |ws| > 1 {
      var rest := JoinSpaced(ws[1..]);
      JoinNormalized(ws[1..]);
      var t := ws[0] + " " + rest;
      assert t == JoinSpaced(ws);
      var n := |ws[0]|;
      assert IsWord(ws[0]);
      forall i | 0 <= i < |t|
        ensures t[i] == ' ' || !IsSpace(t[i])
      {
        if i < n { assert t[i] == ws[0][i]; }
        else if i > n { assert t[i] == rest[i - n - 1]; }
      }
      forall i | 0 <= i < |t| - 1
        ensures t[i] == ' ' ==> t[i + 1] != ' '
      {
        if i < n - 1 { assert t[i] == ws[0][i]; }
        else if i == n - 1 { assert t[i] == ws[0][i]; }
        else if i == n { assert t[i + 1] == rest[0]; }
        else { assert t[i] == rest[i - n - 1] && t[i + 1] == rest[i - n]; }
      }
      assert t[|t| - 1] == rest[|rest| - 1];
    } else if |ws| == 1 {
      assert IsWord(ws[0]);
    }
  }

  /** " ".join(s.split()). */
  function Collapse(s: string): (r: string)
    ensures Normalized(r)
  {
    JoinNormalized(Words(s));
    JoinSpaced(Words(s))
  }

  /** What follows a space in normalized text is normalized. */
  lemma NormalizedAfterSpace(t: string, n: nat)
    requires Normalized(t) && n < |t| && t[n] == ' '
    ensures n + 1 < |t| && t[n + 1] != ' '
    ensures Normalized(t[n + 1..])
  {
    var rest := t[n + 1..];
    forall i | 0 <= i < |rest| - 1
      ensures rest[i] == ' ' ==> rest[i + 1] != ' '
    {
      assert rest[i] == t[n + 1 + i] && rest[i + 1] == t[n + 2 + i];
    }
    forall i | 0 <= i < |rest|
      ensures rest[i] == ' ' || !IsSpace(rest[i])
    {
      assert rest[i] == t[n + 1 + i];
    }
  }

  /** Normalized non-empty text splits into words that join back to it. */
  lemma {:induction false} NormalizedRejoins(t: string)
    requires Normalized(t)
    ensures JoinSpaced(Words(t)) == t
    ensures t != [] ==> Words(t) != []
    decreases |t|
  {
    if t != [] {
      assert !IsSpace(t[0]);
      var n := WordLength(t);
      var word := t[..n];
      assert Words(t) == [word] + Words(t[n..]);
      if n < |t| {
        NormalizedAfterSpace(t, n);
        var rest := t[n + 1..];
        assert t[n..][1..] == rest;
        assert Words(t[n..]) == Words(rest);
        NormalizedRejoins(rest);
        assert JoinSpaced(Words(t)) == word + " " + rest;
        assert t == word + " " + rest;
      } else {
        assert t[n..] == [];
        assert word == t;
      }
    }
  }

  /** Collapsing leaves a text unchanged exactly when it is already normalized. */
  lemma CollapseFixpoint(t: string)
    ensures Collapse(t) == t <==> Normalized(t)
  {
    if Normalized(t) { NormalizedRejoins(t); }
  }

  /** Collapsing whitespace twice is the same as once. */
  lemma CollapseIdempotent(s: string)
    ensures Collapse(Collapse(s)) == Collapse(s)
  {
    CollapseFixpoint(Collapse(s));
  }

  /**
   * The regular expression <[^<]+?> matches s[..j + 1]: s starts with '<',
   * has no '<' before j, and j is the first '>' at index 2 or later.
   */
  ghost predicate TagAt(s: string, j: int) {
    && 2 <= j < |s| && s[0] == '<' && s[j] == '>'
    && (forall k :: 1 <= k < j ==> s[k] != '<')
    && (forall k :: 2 <= k < j ==> s[k] != '>')
  }

  /** The lazy scan of [^<]+?> from index k on: the first '>' unless a '<' comes first. */
  function CloseFrom(s: string, k: nat): (j: Option<nat>)
    requires 2 <= k
    ensures j.Some? ==> k <= j.value < |s|
    decreases |s| - k
  {
    if k >= |s| then None
    else if s[k] == '>' then Some(k)
    else if s[k] == '<' then None
    else CloseFrom(s, k + 1)
  }

  /**
   * The scan stops at the first '>' from k on when no '<' precedes it, and
   * fails only when every '>' from k on has a '<' before it.
   */
  lemma {:induction false} CloseFromScans(s: string, k: nat)
    requires 2 <= k
    ensures var j := CloseFrom(s, k);
      && (j.Some? ==> s[j.value] == '>' && forall i :: k <= i < j.value ==> s[i] != '<' && s[i] != '>')
      && (j.None? ==> forall i :: k <= i < |s| && s[i] == '>' ==> exists m :: k <= m < i && s[m] == '<')
    decreases |s| - k
  {
    if k < |s| && s[k] != '>' && s[k] != '<' {
      CloseFromScans(s, k + 1);
    }
  }

  /** Where the tag that starts s ends, if the pattern matches at s[0]. */
  function TagClose(s: string): (j: Option<nat>)
    ensures j.Some? ==> 2 <= j.value < |s|
  {
    if |s| >= 2 && s[0] == '<' && s[1] != '<' then CloseFrom(s, 2) else None
  }

  /** TagClose finds the end of the match at the start of s, and fails exactly when there is none. */
  lemma TagCloseMatches(s: string)
    ensures var j := TagClose(s);
      && (j.Some? ==> TagAt(s, j.value))
      && (j.None? ==> forall i :: !TagAt(s, i))
  {
    if |s| >= 2 && s[0] == '<' && s[1] != '<' {
      CloseFromScans(s, 2);
    }
  }

  /**
   * re.sub('<[^<]+?>', '', s): scanning left to right, every match of the
   * pattern is removed and the scan resumes after it; a '<' that starts no
   * match is kept.
   */
  function StripTags(s: string): (r: string)
    ensures |r| <= |s|
    decreases |s|
  {
    if s == [] then []
    else match TagClose(s)
      case Some(j) => StripTags(s[j + 1..])
      case None => [s[0]] + StripTags(s[1..])
  }

  /** A first character other than '<' starts no tag and is kept. */
  lemma StripTagsPlainStep(s: string)
    requires s != [] && s[0] != '<'
    ensures StripTags(s) == [s[0]] + StripTags(s[1..])
  {
    assert TagClose(s).None?;
  }

  /** Text before the first '<' is kept as it is. */
  lemma {:induction false} StripTagsKeepsPlainPrefix(a: string, b: string)
    requires '<' !in a
    ensures StripTags(a + b) == a + StripTags(b)
    decreases |a|
  {
    if a != [] {
      var s := a + b;
      assert s[0] == a[0];
      StripTagsPlainStep(s);
      assert s[1..] == a[1..] + b;
      assert '<' !in a[1..] by { SeqLacksTail(a, '<'); }
      StripTagsKeepsPlainPrefix(a[1..], b);
      assert a == [a[0]] + a[1..];
    } else {
      assert a + b == b;
    }
  }

  /** A character missing from s is missing from its tail. */
  lemma SeqLacksTail(s: string, c: char)
    requires s != [] && c !in s
    ensures c !in s[1..]
  {
    forall i | 0 <= i < |s| - 1 ensures s[1..][i] != c {
      assert s[1..][i] == s[i + 1];
    }
  }

  /** Text with no '<' holds no tag and is kept whole. */
  lemma StripTagsKeepsPlain(s: string)
    requires '<' !in s
    ensures StripTags(s) == s
  {
    StripTagsKeepsPlainPrefix(s, []);
    assert s + [] == s;
  }

  /** A tag "<" + inner + ">" whose inner text has neither '<' nor '>' is removed whole. */
  lemma StripTagsRemovesTag(inner: string, rest: string)
    requires inner != [] && '<' !in inner && '>' !in inner
    ensures StripTags("<" + inner + ">" + rest) == StripTags(rest)
  {
    var s := "<" + inner + ">" + rest;
    var j := |inner| + 1;
    assert s[j] == '>';
    forall k | 1 <= k < j ensures s[k] != '<' && s[k] != '>' {
      assert s[k] == inner[k - 1];
    }
    assert TagAt(s, j);
    TagCloseMatches(s);
    var c := TagClose(s);
    assert c.Some?;
    assert c.value == j;
    assert s[j + 1..] == rest;
  }

  /** A '<' followed by one ordinary character and another '<' starts no tag and is kept. */
  lemma StripTagsKeepsOpenBeforeOpen(x: char, rest: string)
    requires x != '<' && x != '>'
    ensures StripTags(['<', x, '<'] + rest) == ['<'] + StripTags([x, '<'] + rest)
  {
    var s := ['<', x, '<'] + rest;
    assert CloseFrom(s, 2) == None;
    assert s[1..] == [x, '<'] + rest;
  }

  /** A '>' on its own is kept. */
  lemma StripTagsKeepsClose()
    ensures StripTags(['>']) == ['>']
  {
    StripTagsKeepsPlainPrefix(['>'], []);
    assert ['>'] + [] == ['>'];
  }

  /** A one-character tag is removed. */
  lemma StripTagsRemovesShortTag(x: char)
    requires x != '<' && x != '>'
    ensures StripTags(['<', x, '>']) == []
  {
    assert ['<', x, '>'] == "<" + [x] + ">" + [];
    StripTagsRemovesTag([x], []);
  }

  /** A tag followed by a lone '>' strips to that '>'. */
  lemma StripTagsTagThenClose(inner: string)
    requires inner != [] && '<' !in inner && '>' !in inner
    ensures StripTags("<" + inner + ">" + ['>']) == ['>']
  {
    StripTagsRemovesTag(inner, ['>']);
    StripTagsKeepsClose();
  }

  /** In "<x<ab>>" the scan keeps the first '<', removes "<ab>" and leaves "<x>". */
  lemma StripTagsLeavesTag(x: char, inner: string)
    requires x != '<' && x != '>'
    requires inner != [] && '<' !in inner && '>' !in inner
    ensures StripTags(['<', x, '<'] + inner + ['>', '>']) == ['<', x, '>']
  {
    var tail := inner + ['>', '>'];
    var tag := "<" + inner + ">" + ['>'];
    assert ['<', x, '<'] + inner + ['>', '>'] == ['<', x, '<'] + tail;
    StripTagsKeepsOpenBeforeOpen(x, tail);
    assert [x, '<'] + tail == [x] + tag;
    StripTagsKeepsPlainPrefix([x], tag);
    StripTagsTagThenClose(inner);
    var r := ['<'] + ([x] + ['>']);
    assert r == ['<', x, '>'] by {
      assert |r| == 3 && r[0] == '<' && r[1] == x && r[2] == '>';
    }
  }

  /**
   * Removing tags once does not remove all of them: one pass over "<x<ab>>"
   * leaves the tag "<x>", which a second pass removes.
   */
  lemma StripTagsNotIdempotent(x: char, inner: string)
    requires x != '<' && x != '>'
    requires inner != [] && '<' !in inner && '>' !in inner
    ensures StripTags(['<', x, '<'] + inner + ['>', '>']) == ['<', x, '>']
    ensures StripTags(StripTags(['<', x, '<'] + inner + ['>', '>'])) == []
  {
    StripTagsLeavesTag(x, inner);
    StripTagsRemovesShortTag(x);
  }

  /**
   * clean_text: empty or absent text gives ""; otherwise tags are stripped,
   * entities decoded by unescape (html.unescape) and whitespace collapsed.
   */
  function CleanText(text: Option<string>, unescape: string -> string): (r: string)
    ensures Normalized(r)
    ensures text.None? || text.value == [] ==> r == []
    ensures text.Some? && text.value != [] ==> Words(r) == Words(unescape(StripTags(text.value)))
  {
    if text.None? || text.value == [] then []
    else
      var t := unescape(StripTags(text.value));
      CollapseKeepsWords(t);
      Collapse(t)
  }

  /** Collapsing whitespace keeps the words of the text. */
  lemma CollapseKeepsWords(s: string)
    ensures Words(Collapse(s)) == Words(s)
  {
    WordsOfJoin(Words(s));
  }

  /** Splitting words joined with single spaces gives the words back. */
  lemma {:induction false} WordsOfJoin(ws: seq<string>)
    requires forall k :: 0 <= k < |ws| ==> IsWord(ws[k])
    ensures Words(JoinSpaced(ws)) == ws
  {
    if ws != [] {
      var w := ws[0];
      assert IsWord(w);
      WordsOfWordThen(w, if |ws| == 1 then [] else " " + JoinSpaced(ws[1..]));
      if |ws| == 1 {
        assert w + [] == w;
      } else {
        var rest := JoinSpaced(ws[1..]);
        assert JoinSpaced(ws) == w + (" " + rest);
        assert (" " + rest)[1..] == rest;
        WordsOfJoin(ws[1..]);
      }
    }
  }

  /** A word followed by nothing, or by a space, is split off as one word. */
  lemma {:induction false} WordsOfWordThen(w: string, tail: string)
    requires IsWord(w)
    requires tail == [] || tail[0] == ' '
    ensures Words(w + tail) == [w] + Words(tail)
  {
    var s := w + tail;
    assert s[0] == w[0];
    WordLengthOf(w, tail);
    assert s[..|w|] == w && s[|w|..] == tail;
  }

  lemma {:induction false} WordLengthOf(w: string, tail: string)
    requires forall i :: 0 <= i < |w| ==> !IsSpace(w[i])
    requires tail == [] || tail[0] == ' '
    ensures WordLength(w + tail) == |w|
    decreases |w|
  {
    if w == [] {
      assert w + tail == tail;
    } else {
      assert (w + tail)[0] == w[0];
      assert (w + tail)[1..] == w[1..] + tail;
      WordLengthOf(w[1..], tail);
    }
  }
}
