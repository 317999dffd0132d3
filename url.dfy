/**
 * get_real_url: unwrap a redirect-wrapper URL by taking its `url` query
 * parameter, as urllib.parse.urlparse and parse_qs find it.
 */
module UrlResolver {
  import opened Wrappers

  /** The first index of c in s (str.find). */
  function IndexOf(s: string, c: char): (i: Option<nat>)
    ensures i.Some? ==> i.value < |s| && s[i.value] == c && c !in s[..i.value]
    ensures i.None? ==> c !in s
  {
    if s == [] then None
    else if s[0] == c then Some(0)
    else match IndexOf(s[1..], c)
      case Some(j) => assert s[..j + 1] == [s[0]] + s[1..][..j]; Some(j + 1)
      case None => None
  }

  /** The C0 control characters and space, which urlsplit strips from the front. */
  predicate IsC0OrSpace(c: char) {
    c as int <= 0x20
  }

  function StripLeading(u: string): (r: string)
    ensures |r| <= |u| && r == u[|u| - |r|..]
    ensures r != [] ==> !IsC0OrSpace(r[0])
  {
    if u != [] && IsC0OrSpace(u[0]) then StripLeading(u[1..]) else u
  }

  /** Tab, carriage return and line feed, which urlsplit deletes anywhere. */
  predicate IsUnsafe(c: char) {
    c == '\t' || c == '\r' || c == '\n'
  }

  function RemoveUnsafe(u: string): (r: string)
    ensures forall i :: 0 <= i < |r| ==> !IsUnsafe(r[i])
    ensures forall c :: c in r <==> c in u && !IsUnsafe(c)
    ensures u != [] && !IsUnsafe(u[0]) ==> r != [] && r[0] == u[0]
  {
    if u == [] then []
    else
      assert forall c :: c in u <==> c == u[0] || c in u[1..];
      if IsUnsafe(u[0]) then RemoveUnsafe(u[1..]) else [u[0]] + RemoveUnsafe(u[1..])
  }

  /** The URL as urlsplit sees it after its clean-up. */
  function Sanitize(u: string): (r: string)
    ensures forall i :: 0 <= i < |r| ==> !IsUnsafe(r[i])
    ensures r != [] ==> !IsC0OrSpace(r[0])
  {
    var t := StripLeading(u);
    assert t != [] ==> !IsUnsafe(t[0]);
    RemoveUnsafe(t)
  }

  predicate IsAsciiLetter(c: char) {
    'a' <= c <= 'z' || 'A' <= c <= 'Z'
  }

  /** urllib.parse.scheme_chars. */
  predicate IsSchemeChar(c: char) {
    IsAsciiLetter(c) || '0' <= c <= '9' || c == '+' || c == '-' || c == '.'
  }

  /** What urlsplit has left once it has taken a scheme off u. */
  function AfterScheme(u: string): (rest: string)
    ensures |rest| <= |u| && rest == u[|u| - |rest|..]
    ensures ':' !in u ==> rest == u
  {
    match IndexOf(u, ':')
    case Some(i) =>
      if 0 < i && IsAsciiLetter(u[0]) && forall k :: 0 <= k < i ==> IsSchemeChar(u[k])
      then u[i + 1..] else u
    case None => u
  }

  /** Either nothing is taken, or a scheme and its ':' are taken off the front. */
  lemma AfterSchemeTakesScheme(u: string)
    ensures var rest := AfterScheme(u);
      rest == u || var i := |u| - |rest| - 1;
      && 0 < i && u[i] == ':' && ':' !in u[..i] && IsAsciiLetter(u[0])
      && forall k :: 0 <= k < i ==> IsSchemeChar(u[k])
  {
  }

  predicate IsNetlocEnd(c: char) {
    c == '/' || c == '?' || c == '#'
  }

  /** Length of the network location at the start of s: up to the first '/', '?' or '#'. */
  function NetlocLength(s: string): (n: nat)
    ensures n <= |s|
    ensures forall i :: 0 <= i < n ==> !IsNetlocEnd(s[i])
    ensures n < |s| ==> IsNetlocEnd(s[n])
  {
    if s == [] || IsNetlocEnd(s[0]) then 0 else 1 + NetlocLength(s[1..])
  }

  /** The network location of a scheme-less rest that starts with "//". */
  function Netloc(rest: string): (n: Option<string>)
    ensures n.Some? <==> |rest| >= 2 && rest[..2] == "//"
    // the network location runs from after "//" up to the first '/', '?' or '#'
    ensures n.Some? ==> 2 + |n.value| <= |rest| && rest[2..2 + |n.value|] == n.value
    ensures n.Some? ==> forall i :: 0 <= i < |n.value| ==> !IsNetlocEnd(n.value[i])
    ensures n.Some? && 2 + |n.value| < |rest| ==> IsNetlocEnd(rest[2 + |n.value|])
  {
    if |rest| >= 2 && rest[..2] == "//" then
      Some(rest[2..][..NetlocLength(rest[2..])])
    else None
  }

  /** urlsplit raises "Invalid IPv6 URL" for a network location with only one kind of bracket. */
  predicate ParseFails(u: string) {
    match Netloc(AfterScheme(Sanitize(u)))
    case Some(n) => ('[' in n) != (']' in n)
    case None => false
  }

  /**
   * The query: the text after the first '?' of what precedes the first '#'.
   * The scheme and the network location hold neither character, so taking
   * them off first would not change it.
   */
  function Query(u: string): (q: string)
    ensures '#' !in q
  {
    var beforeFragment := match IndexOf(u, '#') case Some(i) => u[..i] case None => u;
    match IndexOf(beforeFragment, '?')
    case Some(i) => beforeFragment[i + 1..]
    case None => ""
  }

  /** Without a '?' there is no query; without a '#' the query is a tail of u. */
  lemma QueryIsTail(u: string)
    ensures '?' !in u ==> Query(u) == []
    ensures var q := Query(u); q != [] && '#' !in u ==> |q| < |u| && q == u[|u| - |q|..]
  {
  }

  /** s.split(sep). */
  function SplitOn(s: string, sep: char): (parts: seq<string>)
    ensures |parts| >= 1
    ensures forall k :: 0 <= k < |parts| ==> sep !in parts[k]
    decreases |s|
  {
    match IndexOf(s, sep)
    case Some(i) => [s[..i]] + SplitOn(s[i + 1..], sep)
    case None => [s]
  }

  /** sep.join(parts). */
  function JoinWith(parts: seq<string>, sep: char): string
    requires |parts| >= 1
  {
    if |parts| == 1 then parts[0] else parts[0] + [sep] + JoinWith(parts[1..], sep)
  }

  /** Splitting and joining again gives the text back. */
  lemma {:induction false} SplitJoin(s: string, sep: char)
    ensures JoinWith(SplitOn(s, sep), sep) == s
    decreases |s|
  {
    var i := IndexOf(s, sep);
    if i.Some? {
      var k := i.value;
      var tail := SplitOn(s[k + 1..], sep);
      assert SplitOn(s, sep) == [s[..k]] + tail;
      SplitJoin(s[k + 1..], sep);
      assert ([s[..k]] + tail)[1..] == tail;
      assert JoinWith(SplitOn(s, sep), sep) == s[..k] + [sep] + s[k + 1..];
      assert s == s[..k] + [sep] + s[k + 1..];
    }
  }

  /**
   * parse_qsl on one '&'-separated field: its raw name and value when the
   * field has an '=' and a non-empty value after the first one; other fields
   * are dropped, blank values being discarded by default.
   */
  function NameValue(f: string): (nv: Option<(string, string)>)
    ensures nv.Some? ==> f == nv.value.0 + "=" + nv.value.1 && '=' !in nv.value.0 && nv.value.1 != []
    ensures nv.None? ==> '=' !in f || (f[|f| - 1] == '=' && '=' !in f[..|f| - 1])
  {
    match IndexOf(f, '=')
    case Some(i) =>
      if i + 1 < |f| then
        assert f == f[..i] + "=" + f[i + 1..];
        Some((f[..i], f[i + 1..]))
      else None
    case None => None
  }

  /** A field that parse_qs keeps under the decoded name "url". */
  predicate IsUrlField(f: string, unquote: string -> string) {
    var nv := NameValue(f);
    nv.Some? && unquote(nv.value.0) == "url"
  }

  /** The fields of the query of u, split on '&'. */
  function QueryFields(u: string): seq<string> {
    SplitOn(Query(Sanitize(u)), '&')
  }

  /** fields[i] is the first url field: the one whose value parse_qs lists first under "url". */
  predicate IsFirstUrlField(fields: seq<string>, i: nat, unquote: string -> string) {
    i < |fields| && IsUrlField(fields[i], unquote)
    && forall j :: 0 <= j < i ==> !IsUrlField(fields[j], unquote)
  }

  /** The index of the first url field from k on. */
  function FirstUrlField(fields: seq<string>, unquote: string -> string, k: nat): (i: Option<nat>)
    requires k <= |fields|
    ensures i.Some? ==> k <= i.value < |fields| && IsUrlField(fields[i.value], unquote)
    ensures i.Some? ==> forall j :: k <= j < i.value ==> !IsUrlField(fields[j], unquote)
    ensures i.None? ==> forall j :: k <= j < |fields| ==> !IsUrlField(fields[j], unquote)
    decreases |fields| - k
  {
    if k == |fields| then None
    else if IsUrlField(fields[k], unquote) then Some(k)
    else FirstUrlField(fields, unquote, k + 1)
  }

  /** There is only one first url field. */
  lemma FirstUrlFieldIsUnique(fields: seq<string>, unquote: string -> string, i: nat)
    requires IsFirstUrlField(fields, i, unquote)
    ensures forall i': nat :: IsFirstUrlField(fields, i', unquote) ==> i' == i
  {
  }

  /** The raw value of a field that has one. */
  function RawValue(f: string): string {
    match NameValue(f) case Some(nv) => nv.1 case None => ""
  }

  /**
   * get_real_url(u), with unquote standing for urllib's percent-decoding
   * (after parse_qs turns '+' into ' '). parse_qs(...).get('url', [None])[0]
   * is the decoded value of the first url field; a blank one, a missing one
   * and a parse failure all give u back.
   */
  function GetRealUrl(u: string, unquote: string -> string): (r: string)
    // a URL that urlsplit rejects comes back unchanged
    ensures ParseFails(u) ==> r == u
    // with no url field the URL comes back unchanged
    ensures var fs := QueryFields(u);
      (forall j :: 0 <= j < |fs| ==> !IsUrlField(fs[j], unquote)) ==> r == u
    // otherwise the first url field decides: its decoded value if non-blank, else u
    ensures var fs := QueryFields(u);
      forall i: nat :: !ParseFails(u) && IsFirstUrlField(fs, i, unquote) ==>
        r == (if unquote(RawValue(fs[i])) != [] then unquote(RawValue(fs[i])) else u)
    // so the result is the input or a non-blank decoded url value
    ensures var fs := QueryFields(u);
      r == u || (r != [] && exists i: nat :: IsFirstUrlField(fs, i, unquote) && r == unquote(RawValue(fs[i])))
  {
    if ParseFails(u) then u
    else
      var fields := QueryFields(u);
      match FirstUrlField(fields, unquote, 0)
      case Some(i) =>
        FirstUrlFieldIsUnique(fields, unquote, i);
        var v := unquote(RawValue(fields[i]));
        if v != [] then v else u
      case None => u
  }

  /** Text that is all printable passes urlsplit's clean-up unchanged. */
  lemma {:induction false} SanitizeKeepsPrintable(u: string)
    requires forall i :: 0 <= i < |u| ==> !IsC0OrSpace(u[i])
    ensures Sanitize(u) == u
  {
    RemoveUnsafeKeepsSafe(u);
  }

  lemma {:induction false} RemoveUnsafeKeepsSafe(u: string)
    requires forall i :: 0 <= i < |u| ==> !IsUnsafe(u[i])
    ensures RemoveUnsafe(u) == u
  {
    if u != [] {
      assert !IsUnsafe(u[0]);
      RemoveUnsafeKeepsSafe(u[1..]);
    }
  }

  /** str.find(c) on a + b, where a lacks c and b starts with it, is |a|. */
  lemma IndexOfAfter(a: string, b: string, c: char)
    requires c !in a && b != [] && b[0] == c
    ensures IndexOf(a + b, c) == Some(|a|)
  {
    var s := a + b;
    assert s[|a|] == c;
    var i := IndexOf(s, c);
    assert forall k :: 0 <= k < |a| ==> s[k] == a[k];
    forall k | |a| < k <= |s| ensures c in s[..k] {
      assert s[..k][|a|] == c;
    }
  }

  /** A character missing from s is missing from every slice of it. */
  lemma SliceLacks(s: string, lo: nat, hi: nat, c: char)
    requires lo <= hi <= |s| && c !in s
    ensures c !in s[lo..hi]
  {
    forall i | 0 <= i < hi - lo ensures s[lo..hi][i] != c {
      assert s[lo..hi][i] == s[lo + i];
    }
  }

  /** A character missing from u is missing from what urlsplit's clean-up leaves of it. */
  lemma SanitizeLacks(u: string, c: char)
    requires c !in u
    ensures c !in Sanitize(u)
  {
    var t := StripLeading(u);
    SliceLacks(u, |u| - |t|, |u|, c);
  }

  /** A character missing from v is missing from what follows its scheme. */
  lemma AfterSchemeLacks(v: string, c: char)
    requires c !in v
    ensures c !in AfterScheme(v)
  {
    var rest := AfterScheme(v);
    SliceLacks(v, |v| - |rest|, |v|, c);
  }

  /** A character missing from rest is missing from its network location. */
  lemma NetlocOfLacks(rest: string, c: char)
    requires c !in rest
    ensures var n := Netloc(rest); n.Some? ==> c !in n.value
  {
    if |rest| >= 2 && rest[..2] == "//" {
      var tail := rest[2..];
      SliceLacks(rest, 2, |rest|, c);
      SliceLacks(tail, 0, NetlocLength(tail), c);
    }
  }

  /** A character missing from u is missing from the network location urlsplit finds in it. */
  lemma NetlocLacks(u: string, c: char)
    ensures var n := Netloc(AfterScheme(Sanitize(u))); c !in u && n.Some? ==> c !in n.value
  {
    if c !in u {
      SanitizeLacks(u, c);
      AfterSchemeLacks(Sanitize(u), c);
      NetlocOfLacks(AfterScheme(Sanitize(u)), c);
    }
  }

  /** Without square brackets, urlparse accepts the URL. */
  lemma NoBracketsParse(u: string)
    requires '[' !in u && ']' !in u
    ensures !ParseFails(u)
  {
    NetlocLacks(u, '[');
    NetlocLacks(u, ']');
  }

  /** Network-location text runs to its end when it holds no '/', '?' or '#'. */
  lemma {:induction false} NetlocLengthOfHost(host: string)
    requires forall i :: 0 <= i < |host| ==> !IsNetlocEnd(host[i])
    ensures NetlocLength(host) == |host|
    decreases |host|
  {
    if host != [] {
      NetlocLengthOfHost(host[1..]);
    }
  }

  /** A valid scheme and its ':' are what urlsplit takes off the front. */
  lemma AfterValidScheme(scheme: string, rest: string)
    requires scheme != [] && IsAsciiLetter(scheme[0]) && ':' !in scheme
    requires forall k :: 0 <= k < |scheme| ==> IsSchemeChar(scheme[k])
    ensures AfterScheme(scheme + [':'] + rest) == rest
  {
    var u := scheme + [':'] + rest;
    IndexOfAfter(scheme, [':'] + rest, ':');
    assert scheme + ([':'] + rest) == u;
    assert forall k :: 0 <= k < |scheme| ==> u[k] == scheme[k];
    assert u[|scheme| + 1..] == rest;
  }

  /** After "//", a host free of '/', '?' and '#' is the whole network location. */
  lemma NetlocOfHost(host: string)
    requires forall i :: 0 <= i < |host| ==> !IsNetlocEnd(host[i])
    ensures Netloc(['/', '/'] + host) == Some(host)
  {
    var rest := ['/', '/'] + host;
    assert rest[..2] == "//";
    assert rest[2..] == host;
    NetlocLengthOfHost(host);
    assert host[..NetlocLength(host)] == host;
  }

  /**
   * A link scheme://host whose host has a '[' and no ']' makes urlsplit
   * raise, so get_real_url gives it back unchanged.
   */
  lemma LoneBracketFails(scheme: string, host: string)
    requires scheme != [] && IsAsciiLetter(scheme[0]) && ':' !in scheme
    requires forall k :: 0 <= k < |scheme| ==> IsSchemeChar(scheme[k])
    requires forall i :: 0 <= i < |host| ==> !IsC0OrSpace(host[i]) && !IsNetlocEnd(host[i])
    requires '[' in host && ']' !in host
    ensures ParseFails(scheme + [':'] + (['/', '/'] + host))
  {
    var rest := ['/', '/'] + host;
    var u := scheme + [':'] + rest;
    forall i | 0 <= i < |u| ensures !IsC0OrSpace(u[i]) {
      if i < |scheme| {
        assert u[i] == scheme[i] && IsSchemeChar(scheme[i]);
      } else if i >= |scheme| + 3 {
        assert u[i] == host[i - |scheme| - 3];
      }
    }
    SanitizeKeepsPrintable(u);
    AfterValidScheme(scheme, rest);
    NetlocOfHost(host);
  }

  /** Characters of prefix + "?url=" + value, by part. */
  lemma WrapperCharacters(prefix: string, value: string)
    ensures var u := prefix + "?url=" + value;
      forall i :: 0 <= i < |u| ==>
        || (i < |prefix| && u[i] == prefix[i])
        || (|prefix| <= i < |prefix| + 5 && u[i] in "?url=")
        || (|prefix| + 5 <= i && u[i] == value[i - |prefix| - 5])
  {
  }

  /** The query of prefix + "?url=" + value is "url=" + value. */
  lemma WrapperQuery(prefix: string, value: string)
    requires '?' !in prefix && '#' !in prefix && '#' !in value
    ensures Query(prefix + "?url=" + value) == "url=" + value
  {
    var u := prefix + "?url=" + value;
    var tail := "?url=" + value;
    assert u == prefix + tail;
    WrapperCharacters(prefix, value);
    assert '#' !in u;
    IndexOfAfter(prefix, tail, '?');
    assert u[|prefix| + 1..] == "url=" + value;
  }

  /** urlsplit cleans nothing away from such a wrapper link. */
  lemma WrapperSanitized(prefix: string, value: string)
    requires forall i :: 0 <= i < |prefix| ==> !IsC0OrSpace(prefix[i])
    requires forall i :: 0 <= i < |value| ==> !IsC0OrSpace(value[i])
    ensures var u := prefix + "?url=" + value; Sanitize(u) == u
  {
    var u := prefix + "?url=" + value;
    forall i | 0 <= i < |u| ensures !IsC0OrSpace(u[i]) {
      if i < |prefix| {
        assert u[i] == prefix[i];
      } else if i < |prefix| + 5 {
        assert u[i] == "?url="[i - |prefix|];
      } else {
        assert u[i] == value[i - |prefix| - 5];
      }
    }
    SanitizeKeepsPrintable(u);
  }

  /** urlsplit cleans nothing away from such a wrapper link and accepts it. */
  lemma WrapperParses(prefix: string, value: string)
    requires forall i :: 0 <= i < |prefix| ==> !IsC0OrSpace(prefix[i])
    requires forall i :: 0 <= i < |value| ==> !IsC0OrSpace(value[i])
    requires '[' !in prefix && ']' !in prefix && '[' !in value && ']' !in value
    ensures var u := prefix + "?url=" + value; Sanitize(u) == u && !ParseFails(u)
  {
    WrapperSanitized(prefix, value);
    WrapperBracketFree(prefix, value);
    NoBracketsParse(prefix + "?url=" + value);
  }

  /** Such a wrapper link has no square bracket when its parts have none. */
  lemma WrapperBracketFree(prefix: string, value: string)
    requires '[' !in prefix && ']' !in prefix && '[' !in value && ']' !in value
    ensures var u := prefix + "?url=" + value; '[' !in u && ']' !in u
  {
    var u := prefix + "?url=" + value;
    forall i | 0 <= i < |u| ensures u[i] != '[' && u[i] != ']' {
      if i < |prefix| {
        assert u[i] == prefix[i];
      } else if i < |prefix| + 5 {
        assert u[i] == "?url="[i - |prefix|];
      } else {
        assert u[i] == value[i - |prefix| - 5];
      }
    }
  }

  /** The field "url=" + value parses to the name "url" and the raw value. */
  lemma UrlFieldParts(value: string)
    requires value != []
    ensures NameValue("url=" + value) == Some(("url", value))
  {
    var q := "url=" + value;
    IndexOfAfter("url", "=" + value, '=');
    assert "url" + ("=" + value) == q;
    assert q[4..] == value;
  }

  /**
   * A wrapper link prefix + "?url=" + value, with a printable, bracket-free
   * prefix and a value that ends the query and decodes to non-blank text,
   * unwraps to the decoded value.
   */
  lemma UnwrapsUrlParameter(prefix: string, value: string, unquote: string -> string)
    requires forall i :: 0 <= i < |prefix| ==> !IsC0OrSpace(prefix[i])
    requires forall i :: 0 <= i < |value| ==> !IsC0OrSpace(value[i])
    requires '?' !in prefix && '#' !in prefix && '#' !in value && '&' !in value
    requires '[' !in prefix && ']' !in prefix && '[' !in value && ']' !in value
    requires value != [] && unquote("url") == "url" && unquote(value) != []
    ensures GetRealUrl(prefix + "?url=" + value, unquote) == unquote(value)
  {
    var u := prefix + "?url=" + value;
    WrapperParses(prefix, value);
    WrapperFields(prefix, value);
    UrlFieldParts(value);
    SingleUrlField(u, "url=" + value, "url", value, unquote);
  }

  /** The query of such a wrapper link is one field, "url=" + value. */
  lemma WrapperFields(prefix: string, value: string)
    requires forall i :: 0 <= i < |prefix| ==> !IsC0OrSpace(prefix[i])
    requires forall i :: 0 <= i < |value| ==> !IsC0OrSpace(value[i])
    requires '?' !in prefix && '#' !in prefix && '#' !in value && '&' !in value
    ensures QueryFields(prefix + "?url=" + value) == ["url=" + value]
  {
    WrapperSanitized(prefix, value);
    WrapperQuery(prefix, value);
    NameLacks("url=", value, '&');
    FieldsOfQuery(prefix + "?url=" + value, "url=" + value);
  }

  /** A URL that the clean-up leaves alone, with a query free of '&', has that query as its one field. */
  lemma FieldsOfQuery(u: string, q: string)
    requires Sanitize(u) == u && Query(u) == q && '&' !in q
    ensures QueryFields(u) == [q]
  {
    SplitOnAbsent(q, '&');
  }

  /** A character in neither part is missing from their concatenation. */
  lemma NameLacks(a: string, b: string, c: char)
    requires c !in a && c !in b
    ensures c !in a + b
  {
  }

  /** Splitting text on a character it lacks gives the text alone. */
  lemma SplitOnAbsent(s: string, sep: char)
    requires sep !in s
    ensures SplitOn(s, sep) == [s]
  {
  }

  /** When the query is a single url field, its decoded value is the answer, if non-blank. */
  lemma SingleUrlField(u: string, f: string, name: string, value: string, unquote: string -> string)
    requires !ParseFails(u) && QueryFields(u) == [f]
    requires NameValue(f) == Some((name, value)) && unquote(name) == "url"
    ensures GetRealUrl(u, unquote) == if unquote(value) != [] then unquote(value) else u
  {
    assert IsFirstUrlField(QueryFields(u), 0, unquote);
  }

  /** A URL without '?' has no query and comes back unchanged. */
  lemma NoQueryUnchanged(u: string, unquote: string -> string)
    requires '?' !in u
    ensures GetRealUrl(u, unquote) == u
  {
    SanitizeLacks(u, '?');
    QueryIsTail(Sanitize(u));
    SplitOnAbsent("", '&');
    assert QueryFields(u) == [""];
    assert !IsUrlField("", unquote);
  }

}
