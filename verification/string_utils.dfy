/**
  Prefix and suffix tests, prefix and suffix removal, and the ad-hoc
  `scheme:path#fragment` split of src/libopenrave-core/stringutils.h.

  Strings are sequences of characters. Case folding is ASCII lower-casing,
  what `std::tolower` does in the C locale.
 */
module StringUtils {
  import opened Wrappers

  /** ASCII lower-casing of one character. */
  function ToLower(c: char): char {
    if 'A' <= c <= 'Z' then (c as int + 32) as char else c
  }

  /** The comparison `std::equal` applies to one pair of characters. */
  predicate CharsEqual(l: char, r: char, ignoreCase: bool) {
    if ignoreCase then ToLower(l) == ToLower(r) else l == r
  }

  /** Reference meaning of a case-insensitive match: same length, and equal position by position after lower-casing. */
  ghost predicate EqualIgnoringCase(a: string, b: string) {
    |a| == |b| && forall i :: 0 <= i < |a| ==> ToLower(a[i]) == ToLower(b[i])
  }

  /** Reference meaning of a match, exact or case-folded. */
  ghost predicate Matches(a: string, b: string, ignoreCase: bool) {
    if ignoreCase then EqualIgnoringCase(a, b) else a == b
  }

  /** `std::equal` over two ranges of the same length, walked front to back. */
  function RangeEqual(a: string, b: string, ignoreCase: bool): bool
    requires |a| == |b|
    decreases |a|
  {
    |a| == 0 || (CharsEqual(a[0], b[0], ignoreCase) && RangeEqual(a[1..], b[1..], ignoreCase))
  }

  /** The character-by-character walk decides exactly the reference match. */
  lemma {:induction false} RangeEqualMeansMatch(a: string, b: string, ignoreCase: bool)
    requires |a| == |b|
    ensures RangeEqual(a, b, ignoreCase) <==> Matches(a, b, ignoreCase)
    decreases |a|
  {
    if |a| > 0 {
      RangeEqualMeansMatch(a[1..], b[1..], ignoreCase);
      if ignoreCase {
        if EqualIgnoringCase(a, b) {
          assert forall i :: 0 <= i < |a| - 1 ==> a[1..][i] == a[i + 1] && b[1..][i] == b[i + 1];
          assert EqualIgnoringCase(a[1..], b[1..]);
        }
        if CharsEqual(a[0], b[0], ignoreCase) && EqualIgnoringCase(a[1..], b[1..]) {
          forall i | 0 <= i < |a|
            ensures ToLower(a[i]) == ToLower(b[i])
          {
            if i > 0 {
              assert a[i] == a[1..][i - 1] && b[i] == b[1..][i - 1];
            }
          }
        }
      } else {
        assert a == [a[0]] + a[1..] && b == [b[0]] + b[1..];
      }
    }
  }

  /** `StringStartsWith`: does `input` begin with `prefix`? */
  function StringStartsWith(input: string, prefix: string, ignoreCase: bool): (r: bool)
    ensures |input| < |prefix| ==> !r
    ensures r <==> |prefix| <= |input| && Matches(input[..|prefix|], prefix, ignoreCase)
  {
    if |input| < |prefix| then
      false
    else
      RangeEqualMeansMatch(input[..|prefix|], prefix, ignoreCase);
      RangeEqual(input[..|prefix|], prefix, ignoreCase)
  }

  /** `StringEndsWith`: does `input` end with `suffix`? */
  function StringEndsWith(input: string, suffix: string, ignoreCase: bool): (r: bool)
    ensures |input| < |suffix| ==> !r
    ensures r <==> |suffix| <= |input| && Matches(input[|input| - |suffix|..], suffix, ignoreCase)
  {
    if |input| < |suffix| then
      false
    else
      RangeEqualMeansMatch(input[|input| - |suffix|..], suffix, ignoreCase);
      RangeEqual(input[|input| - |suffix|..], suffix, ignoreCase)
  }

  /** The outcome of an in-place removal: whether it happened, and the string afterwards. */
  datatype Removal = Removal(removed: bool, rest: string)

  /** In-place `RemovePrefix`: drops a matching prefix, otherwise leaves the string alone. */
  function RemovePrefix(input: string, prefix: string, ignoreCase: bool): (r: Removal)
    ensures r.removed <==> StringStartsWith(input, prefix, ignoreCase)
    ensures !r.removed ==> r.rest == input
    ensures r.removed ==> |r.rest| == |input| - |prefix| && input == input[..|prefix|] + r.rest
    ensures r.removed && !ignoreCase ==> input == prefix + r.rest
  {
    if !StringStartsWith(input, prefix, ignoreCase) then
      Removal(false, input)
    else
      Removal(true, input[|prefix|..])
  }

  /** In-place `RemoveSuffix`: drops a matching suffix, otherwise leaves the string alone. */
  function RemoveSuffix(input: string, suffix: string, ignoreCase: bool): (r: Removal)
    ensures r.removed <==> StringEndsWith(input, suffix, ignoreCase)
    ensures !r.removed ==> r.rest == input
    ensures r.removed ==> |r.rest| == |input| - |suffix| && input == r.rest + input[|r.rest|..]
    ensures r.removed && !ignoreCase ==> input == r.rest + suffix
  {
    if !StringEndsWith(input, suffix, ignoreCase) then
      Removal(false, input)
    else
      Removal(true, input[..|input| - |suffix|])
  }

  /** Copying `RemovePrefix`: the remainder after a matching prefix, or the empty string. */
  function RemovePrefixCopy(input: string, prefix: string, ignoreCase: bool): (r: string)
    ensures !StringStartsWith(input, prefix, ignoreCase) ==> r == []
    ensures StringStartsWith(input, prefix, ignoreCase) ==> r == input[|prefix|..]
  {
    if !StringStartsWith(input, prefix, ignoreCase) then [] else input[|prefix|..]
  }

  /** Copying `RemoveSuffix`: the text before a matching suffix, or the empty string. */
  function RemoveSuffixCopy(input: string, suffix: string, ignoreCase: bool): (r: string)
    ensures !StringEndsWith(input, suffix, ignoreCase) ==> r == []
    ensures StringEndsWith(input, suffix, ignoreCase) ==> r == input[..|input| - |suffix|]
  {
    if !StringEndsWith(input, suffix, ignoreCase) then [] else input[..|input| - |suffix|]
  }

  /** The copying overloads agree with the in-place ones, except that "no match" reads as the empty string. */
  lemma CopyAgreesWithInPlace(input: string, affix: string, ignoreCase: bool)
    ensures var p := RemovePrefix(input, affix, ignoreCase);
      RemovePrefixCopy(input, affix, ignoreCase) == if p.removed then p.rest else []
    ensures var s := RemoveSuffix(input, affix, ignoreCase);
      RemoveSuffixCopy(input, affix, ignoreCase) == if s.removed then s.rest else []
  {
  }

  /** `find_first_of` for one character. */
  function FindFirst(s: string, c: char): (r: Option<nat>)
    ensures r.None? ==> c !in s
    ensures r.Some? ==> r.value < |s| && s[r.value] == c && c !in s[..r.value]
  {
    if |s| == 0 then None
    else if s[0] == c then Some(0)
    else
      match FindFirst(s[1..], c)
      case None =>
        assert s == [s[0]] + s[1..];
        None
      case Some(i) =>
        assert s[..i + 1] == [s[0]] + s[1..][..i];
        Some(i + 1)
  }

  /** `find_last_of` for one character. */
  function FindLast(s: string, c: char): (r: Option<nat>)
    ensures r.None? ==> c !in s
    ensures r.Some? ==> r.value < |s| && s[r.value] == c && c !in s[r.value + 1..]
  {
    if |s| == 0 then None
    else if s[|s| - 1] == c then Some(|s| - 1)
    else
      match FindLast(s[..|s| - 1], c)
      case None =>
        assert s == s[..|s| - 1] + [s[|s| - 1]];
        None
      case Some(i) =>
        assert s[i + 1..] == s[..|s| - 1][i + 1..] + [s[|s| - 1]];
        Some(i)
  }

  /** The three parts `ParseURI` writes. */
  datatype UriParts = UriParts(scheme: string, path: string, fragment: string)

  /** First half of `ParseURI`: cut at the last `#`, or keep the old fragment when there is none. */
  function SplitFragment(uri: string, fragment: string): (r: (string, string))
    ensures '#' !in uri ==> r == (uri, fragment)
    ensures '#' in uri ==> '#' !in r.1 && uri == r.0 + "#" + r.1
  {
    match FindLast(uri, '#')
    case Some(h) =>
      assert uri == uri[..h] + "#" + uri[h + 1..];
      (uri[..h], uri[h + 1..])
    case None => (uri, fragment)
  }

  /** Second half of `ParseURI`: cut at the first `:`, or keep the old scheme when there is none. */
  function SplitScheme(rest: string, scheme: string): (r: (string, string))
    ensures ':' !in rest ==> r == (scheme, rest)
    ensures ':' in rest ==> ':' !in r.0 && rest == r.0 + ":" + r.1
  {
    match FindFirst(rest, ':')
    case Some(k) =>
      assert rest == rest[..k] + ":" + rest[k + 1..];
      (rest[..k], rest[k + 1..])
    case None => (scheme, rest)
  }

  /** A separator that does not occur after it is the last one: the split around it is unique. */
  lemma LastSeparatorUnique(a: string, b: string, c: string, d: string, sep: char)
    requires a + [sep] + b == c + [sep] + d
    requires sep !in b && sep !in d
    ensures a == c && b == d
  {
    var s := a + [sep] + b;
    assert forall k :: |a| < k < |s| ==> s[k] == b[k - |a| - 1];
    assert forall k :: |c| < k < |s| ==> s[k] == d[k - |c| - 1];
    assert s[|a|] == sep && s[|c|] == sep;
    assert |a| == |c|;
    assert a == s[..|a|] == c;
    assert b == s[|a| + 1..] == d;
  }

  /** A separator that does not occur before it is the first one: the split around it is unique. */
  lemma FirstSeparatorUnique(a: string, b: string, c: string, d: string, sep: char)
    requires a + [sep] + b == c + [sep] + d
    requires sep !in a && sep !in c
    ensures a == c && b == d
  {
    var s := a + [sep] + b;
    assert forall k :: 0 <= k < |a| ==> s[k] == a[k];
    assert forall k :: 0 <= k < |c| ==> s[k] == c[k];
    assert s[|a|] == sep && s[|c|] == sep;
    assert |a| == |c|;
    assert a == s[..|a|] == c;
    assert b == s[|a| + 1..] == d;
  }

  /**
    `ParseURI`: the fragment is whatever follows the last `#`; in what
    precedes it, the scheme is whatever precedes the first `:`. `scheme` and
    `fragment` are the values the caller's variables held before the call; the
    source leaves them as they were when the separator is absent.
   */
  function ParseURI(uri: string, scheme: string, fragment: string): (r: UriParts)
    ensures '#' !in uri && ':' !in uri ==> r == UriParts(scheme, uri, fragment)
    ensures '#' !in uri && ':' in uri ==>
      r.fragment == fragment && ':' !in r.scheme && uri == r.scheme + ":" + r.path
    ensures '#' in uri ==>
      && '#' !in r.fragment
      && ((':' !in r.scheme && uri == r.scheme + ":" + r.path + "#" + r.fragment)
          || (r.scheme == scheme && ':' !in r.path && uri == r.path + "#" + r.fragment))
  {
    var (rest, frag) := SplitFragment(uri, fragment);
    var (s, path) := SplitScheme(rest, scheme);
    UriParts(s, path, frag)
  }

  /** When a `:` precedes some `#`, the three parts reassemble into the input. */
  lemma ParseURIRoundTrip(uri: string, scheme: string, fragment: string)
    requires exists i, j :: 0 <= i < j < |uri| && uri[i] == ':' && uri[j] == '#'
    ensures var p := ParseURI(uri, scheme, fragment);
      p.scheme + ":" + p.path + "#" + p.fragment == uri
  {
    var i, j :| 0 <= i < j < |uri| && uri[i] == ':' && uri[j] == '#';
    var (rest, f) := SplitFragment(uri, fragment);
    assert forall k :: |rest| < k < |uri| ==> uri[k] == f[k - |rest| - 1];
    assert j <= |rest|;
    assert rest[i] == ':';
    var (s, path) := SplitScheme(rest, scheme);
    assert uri == s + ":" + path + "#" + f;
  }

  /**
    Conversely, parsing `scheme:path#fragment` recovers the three parts,
    whenever the scheme holds no `:` and the fragment no `#`.
   */
  lemma ParseURIOfComposed(scheme: string, path: string, fragment: string, s0: string, f0: string)
    requires ':' !in scheme && '#' !in fragment
    ensures ParseURI(scheme + ":" + path + "#" + fragment, s0, f0) == UriParts(scheme, path, fragment)
  {
    var rest := scheme + ":" + path;
    var uri := rest + "#" + fragment;
    assert uri[|rest|] == '#';
    var (r, f) := SplitFragment(uri, f0);
    LastSeparatorUnique(r, f, rest, fragment, '#');
    assert rest[|scheme|] == ':';
    var (s, p) := SplitScheme(rest, s0);
    FirstSeparatorUnique(s, p, scheme, path, ':');
  }

  /** Without a fragment: parsing `scheme:path` recovers both parts and keeps the old fragment. */
  lemma ParseURIOfComposedNoFragment(scheme: string, path: string, s0: string, f0: string)
    requires ':' !in scheme && '#' !in scheme && '#' !in path
    ensures ParseURI(scheme + ":" + path, s0, f0) == UriParts(scheme, path, f0)
  {
    var uri := scheme + ":" + path;
    assert forall k :: 0 <= k < |scheme| ==> uri[k] == scheme[k];
    assert forall k :: |scheme| < k < |uri| ==> uri[k] == path[k - |scheme| - 1];
    assert uri[|scheme|] == ':';
    var (s, p) := SplitScheme(uri, s0);
    FirstSeparatorUnique(s, p, scheme, path, ':');
  }
}
