/**
 * URI helpers: percent-encoding of the characters outside a set of
 * unreserved characters, percent-decoding, and splitting a generic URI
 * `<scheme>://<authority-and-path>?<query>#<fragment>` into its parts.
 * Strings are byte strings: every character is below 256.
 */
module UriUtils {
  import opened Options

  /** One byte of a byte string. */
  type Byte = c: char | c as int < 256 witness 'a'

  type ByteString = seq<Byte>

  predicate IsAlphanumeric(c: char) {
    'a' <= c <= 'z' || 'A' <= c <= 'Z' || '0' <= c <= '9'
  }

  /** The marks of the RFC 2396 (section 2.3) unreserved set. */
  const UnreservedMarks: string := "-_.!~*'()"

  /** The further characters RFC 2396 (section 3.3) allows in a path segment, and `/`. */
  const PathMarks: string := ":@&=+$,;/"

  /** The unreserved characters of RFC 2396 section 2.3. */
  const UriUnreservedChars: set<char> := set c: char | IsAlphanumeric(c) || c in UnreservedMarks

  /** The characters a URI path may hold unescaped. */
  const UriPathUnreservedChars: set<char> :=
    set c: char | IsAlphanumeric(c) || c in UnreservedMarks || c in PathMarks

  /** Every unreserved character may appear unescaped in a path, and `%` is in neither set. */
  lemma CharSetsNested()
    ensures UriUnreservedChars <= UriPathUnreservedChars
    ensures '%' !in UriUnreservedChars && '%' !in UriPathUnreservedChars
  {
  }

  // ---------------------------------------------------------------------------
  // Hex digits.

  predicate IsHexDigit(c: char) {
    '0' <= c <= '9' || 'a' <= c <= 'f' || 'A' <= c <= 'F'
  }

  /** The value of a hex digit, either case. */
  function HexValue(c: char): (n: nat)
    requires IsHexDigit(c)
    ensures n < 16
  {
    if '0' <= c <= '9' then c as int - '0' as int
    else if 'a' <= c <= 'f' then c as int - 'a' as int + 10
    else c as int - 'A' as int + 10
  }

  /** The upper-case hex digit of `n`. */
  function HexDigit(n: nat): (c: Byte)
    requires n < 16
    ensures IsHexDigit(c) && HexValue(c) == n
    ensures !('a' <= c <= 'z')
  {
    if n < 10 then ('0' as int + n) as char else ('A' as int + n - 10) as char
  }

  /** The byte `0xXY` for hex digits `x` and `y`. */
  function EscapedByte(x: char, y: char): Byte
    requires IsHexDigit(x) && IsHexDigit(y)
  {
    (HexValue(x) * 16 + HexValue(y)) as char
  }

  // ---------------------------------------------------------------------------
  // Encoding.

  /** A byte outside `unreserved` becomes `%` and two upper-case hex digits; any other byte stays. */
  function EncodeByte(c: Byte, unreserved: set<char>): ByteString {
    if c in unreserved then [c] else ['%', HexDigit(c as int / 16), HexDigit(c as int % 16)]
  }

  /** `src` with every byte outside `unreserved` percent-escaped; escaping never shortens. */
  function Encode(src: ByteString, unreserved: set<char>): (r: ByteString)
    ensures |r| >= |src|
  {
    if src == [] then [] else EncodeByte(src[0], unreserved) + Encode(src[1..], unreserved)
  }

  /** Encoding leaves a string unchanged exactly when all its bytes are unreserved. */
  lemma {:induction false} EncodeFixedPoint(src: ByteString, unreserved: set<char>)
    ensures Encode(src, unreserved) == src <==> forall i :: 0 <= i < |src| ==> src[i] in unreserved
  {
    if src != [] {
      var rest := src[1..];
      EncodeFixedPoint(rest, unreserved);
      if src[0] in unreserved {
        assert src == [src[0]] + rest;
        if forall i :: 0 <= i < |src| ==> src[i] in unreserved {
          assert forall i :: 0 <= i < |rest| ==> rest[i] == src[i + 1];
        }
        if Encode(src, unreserved) == src {
          assert Encode(rest, unreserved) == Encode(src, unreserved)[1..];
        }
      }
    }
  }

  /** A string that a smaller set leaves unchanged, a larger set leaves unchanged too. */
  lemma EncodeFixedPointWider(src: ByteString, narrow: set<char>, wide: set<char>)
    requires narrow <= wide && Encode(src, narrow) == src
    ensures Encode(src, wide) == src
  {
    EncodeFixedPoint(src, narrow);
    EncodeFixedPoint(src, wide);
  }

  /** A string that component-encoding leaves unchanged, path-encoding leaves unchanged too. */
  lemma ComponentSafeIsPathSafe(src: ByteString)
    requires Encode(src, UriUnreservedChars) == src
    ensures Encode(src, UriPathUnreservedChars) == src
  {
    CharSetsNested();
    EncodeFixedPointWider(src, UriUnreservedChars, UriPathUnreservedChars);
  }

  /** Every byte of an encoded string is unreserved, `%`, or an upper-case hex digit. */
  lemma {:induction false} EncodeAlphabet(src: ByteString, unreserved: set<char>)
    ensures forall i :: 0 <= i < |Encode(src, unreserved)| ==>
              var c := Encode(src, unreserved)[i];
              c in unreserved || c == '%' || (IsHexDigit(c) && !('a' <= c <= 'z'))
  {
    if src != [] {
      EncodeAlphabet(src[1..], unreserved);
      var head := EncodeByte(src[0], unreserved);
      var out := Encode(src, unreserved);
      forall i | 0 <= i < |out|
        ensures out[i] in unreserved || out[i] == '%' || (IsHexDigit(out[i]) && !('a' <= out[i] <= 'z'))
      {
        if i >= |head| {
          assert out[i] == Encode(src[1..], unreserved)[i - |head|];
        }
      }
    }
  }

  /** Encoding the suffix from `i` on is encoding byte `i`, then the suffix after it. */
  lemma EncodeStep(prefix: ByteString, src: ByteString, i: nat, unreserved: set<char>)
    requires i < |src|
    ensures prefix + Encode(src[i..], unreserved) ==
            (prefix + EncodeByte(src[i], unreserved)) + Encode(src[i + 1..], unreserved)
  {
    assert src[i..][1..] == src[i + 1..];
  }

  // ---------------------------------------------------------------------------
  // Decoding.

  /** Position `i` starts a `%XY` escape. */
  predicate EscapeAt(s: ByteString, i: nat) {
    i + 2 < |s| && s[i] == '%' && IsHexDigit(s[i + 1]) && IsHexDigit(s[i + 2])
  }

  /**
   * `s` with every `%XY` escape replaced by the byte `0xXY`; any other `%`
   * stays.  Decoding never lengthens.
   */
  function Decode(s: ByteString): (r: ByteString)
    ensures |r| <= |s|
  {
    if s == [] then []
    else if EscapeAt(s, 0) then [EscapedByte(s[1], s[2])] + Decode(s[3..])
    else [s[0]] + Decode(s[1..])
  }

  /** Decoding leaves a string unchanged exactly when it holds no `%XY` escape. */
  lemma {:induction false} DecodeFixedPoint(s: ByteString)
    ensures Decode(s) == s <==> forall i :: 0 <= i < |s| ==> !EscapeAt(s, i)
  {
    if s != [] {
      var rest := s[1..];
      if EscapeAt(s, 0) {
        assert !(forall i :: 0 <= i < |s| ==> !EscapeAt(s, i));
      } else {
        DecodeFixedPoint(rest);
        assert s == [s[0]] + rest;
        assert Decode(s) == [s[0]] + Decode(rest);
        if Decode(s) == s {
          assert Decode(rest) == rest;
          forall i | 0 <= i < |s| ensures !EscapeAt(s, i) {
            if i > 0 { assert !EscapeAt(rest, i - 1); }
          }
        }
        if forall i :: 0 <= i < |s| ==> !EscapeAt(s, i) {
          forall i | 0 <= i < |rest| ensures !EscapeAt(rest, i) {
            assert !EscapeAt(s, i + 1);
          }
        }
      }
    }
  }

  /** A string without `%` decodes to itself. */
  lemma DecodeWithoutPercent(s: ByteString)
    requires '%' !in s
    ensures Decode(s) == s
  {
    forall i | 0 <= i < |s| ensures !EscapeAt(s, i) {
      assert s[i] in s;
    }
    DecodeFixedPoint(s);
  }

  /** Decoding undoes encoding when `%` is not left unescaped. */
  lemma {:induction false} DecodeEncode(src: ByteString, unreserved: set<char>)
    requires '%' !in unreserved
    ensures Decode(Encode(src, unreserved)) == src
  {
    if src != [] {
      var rest := Encode(src[1..], unreserved);
      DecodeEncode(src[1..], unreserved);
      var out := Encode(src, unreserved);
      if src[0] in unreserved {
        assert out == [src[0]] + rest && !EscapeAt(out, 0);
        assert out[1..] == rest;
      } else {
        var hi, lo := HexDigit(src[0] as int / 16), HexDigit(src[0] as int % 16);
        assert out == ['%', hi, lo] + rest;
        assert EscapeAt(out, 0) && out[1] == hi && out[2] == lo;
        assert EscapedByte(hi, lo) == src[0];
        assert out[3..] == rest;
      }
      assert src == [src[0]] + src[1..];
    }
  }

  // ---------------------------------------------------------------------------
  // The encoding and decoding routines, writing into a caller-supplied buffer.

  /** A mutable string that the routines append to. */
  class StringBuffer {
    var data: ByteString

    constructor ()
      ensures data == []
    {
      data := [];
    }
  }

  /** Appends `src` percent-encoded with respect to `unreserved` to `dest`. */
  method PercentEncodeReservedInto(src: ByteString, dest: StringBuffer, unreserved: set<char>)
    modifies dest
    ensures dest.data == old(dest.data) + Encode(src, unreserved)
  {
    ghost var target := dest.data + Encode(src, unreserved);
    var i := 0;
    while i < |src|
      invariant 0 <= i <= |src|
      invariant dest.data + Encode(src[i..], unreserved) == target
    {
      var c := src[i];
      EncodeStep(dest.data, src, i, unreserved);
      if c in unreserved {
        dest.data := dest.data + [c];
      } else {
        dest.data := dest.data + ['%', HexDigit(c as int / 16), HexDigit(c as int % 16)];
      }
      i := i + 1;
    }
  }

  /** `src` percent-encoded with respect to `unreserved`. */
  method PercentEncodeReserved(src: ByteString, unreserved: set<char>) returns (r: ByteString)
    ensures r == Encode(src, unreserved)
    ensures '%' !in unreserved ==> Decode(r) == src
  {
    var dest := new StringBuffer();
    PercentEncodeReservedInto(src, dest, unreserved);
    r := dest.data;
    if '%' !in unreserved {
      DecodeEncode(src, unreserved);
    }
  }

  /** `src` with every character a URI path may not hold unescaped percent-encoded. */
  method PercentEncodeUriPath(src: ByteString) returns (r: ByteString)
    ensures r == Encode(src, UriPathUnreservedChars)
    ensures Decode(r) == src
  {
    CharSetsNested();
    r := PercentEncodeReserved(src, UriPathUnreservedChars);
  }

  /** `src` with every character outside the RFC 2396 unreserved set percent-encoded. */
  method PercentEncodeUriComponent(src: ByteString) returns (r: ByteString)
    ensures r == Encode(src, UriUnreservedChars)
    ensures Decode(r) == src
  {
    CharSetsNested();
    r := PercentEncodeReserved(src, UriUnreservedChars);
  }

  /** Appends `src` percent-decoded to `dest`. */
  method PercentDecodeAppend(src: ByteString, dest: StringBuffer)
    modifies dest
    ensures dest.data == old(dest.data) + Decode(src)
  {
    var i := 0;
    while i < |src|
      invariant 0 <= i <= |src|
      invariant dest.data + Decode(src[i..]) == old(dest.data) + Decode(src)
    {
      var rest := src[i..];
      if i + 2 < |src| && src[i] == '%' && IsHexDigit(src[i + 1]) && IsHexDigit(src[i + 2]) {
        assert EscapeAt(rest, 0) && rest[3..] == src[i + 3..];
        dest.data := dest.data + [EscapedByte(src[i + 1], src[i + 2])];
        i := i + 3;
      } else {
        assert !EscapeAt(rest, 0) && rest[1..] == src[i + 1..];
        dest.data := dest.data + [src[i]];
        i := i + 1;
      }
    }
  }

  /** `src` percent-decoded. */
  method PercentDecode(src: ByteString) returns (r: ByteString)
    ensures r == Decode(src)
  {
    var dest := new StringBuffer();
    PercentDecodeAppend(src, dest);
    r := dest.data;
  }

  // ---------------------------------------------------------------------------
  // Generic URI parsing.

  /** The parts of `<scheme>://<authority><path>?<query>#<fragment>`. */
  datatype ParsedGenericUri = ParsedGenericUri(
    scheme: string,
    authorityAndPath: string,
    authority: string,
    path: string,
    query: string,
    fragment: string)

  /** The scheme separator `://` starts at position `j` of `s`. */
  predicate SeparatorAt(s: string, j: nat) {
    j + 3 <= |s| && s[j] == ':' && s[j + 1] == '/' && s[j + 2] == '/'
  }

  /** The first position at or after `from` where `://` starts, if any. */
  function FindSeparator(s: string, from: nat): (r: Option<nat>)
    requires from <= |s|
    ensures r.Some? ==> from <= r.value && SeparatorAt(s, r.value) &&
                        forall j :: from <= j < r.value ==> !SeparatorAt(s, j)
    ensures r.None? ==> forall j :: from <= j ==> !SeparatorAt(s, j)
    decreases |s| - from
  {
    if from + 3 > |s| then None
    else if SeparatorAt(s, from) then Some(from)
    else FindSeparator(s, from + 1)
  }

  /** The position of the first `c` in `s`, or `|s|` when there is none. */
  function IndexOf(s: string, c: char): (r: nat)
    ensures r <= |s|
    ensures c !in s[..r]
    ensures r < |s| ==> s[r] == c
  {
    if s == [] then 0
    else if s[0] == c then 0
    else
      var k := IndexOf(s[1..], c);
      assert s[..k + 1] == [s[0]] + s[1..][..k];
      1 + k
  }

  /** `a`, then `c` and the part after it when there is one. */
  function Join(a: string, c: char, after: Option<string>): string {
    if after.Some? then a + [c] + after.value else a
  }

  /** `s` split at its first `c`: the part before it, and the part after it when `c` occurs. */
  function SplitFirst(s: string, c: char): (r: (string, Option<string>))
    ensures c !in r.0 && Join(r.0, c, r.1) == s
  {
    var k := IndexOf(s, c);
    if k < |s| then
      assert s == s[..k] + [c] + s[k + 1..];
      (s[..k], Some(s[k + 1..]))
    else
      (s, None)
  }

  /** Splitting at the first `c` undoes joining at `c` a part without `c`. */
  lemma SplitFirstJoin(a: string, c: char, after: Option<string>)
    requires c !in a
    ensures SplitFirst(Join(a, c, after), c) == (a, after)
  {
    var s := Join(a, c, after);
    var k := IndexOf(s, c);
    if after.Some? {
      assert s[..|a|] == a && s[|a|] == c;
      IndexOfAt(s, c, |a|);
      assert s[|a| + 1..] == after.value;
    } else {
      IndexOfAt(s, c, |a|);
    }
  }

  /** The first `c` is where `c` occurs with none before it. */
  lemma IndexOfAt(s: string, c: char, k: nat)
    requires k <= |s| && c !in s[..k] && (k < |s| ==> s[k] == c)
    ensures IndexOf(s, c) == k
  {
  }

  /** A character absent from a joined string is absent from its parts. */
  lemma JoinNotIn(a: string, c: char, after: Option<string>, d: char)
    requires d !in Join(a, c, after)
    ensures d !in a && (after.Some? ==> d != c && d !in after.value)
  {
    if after.Some? {
      assert Join(a, c, after) == a + ([c] + after.value);
    }
  }

  /** `Some(s)` when `present`, otherwise `None`. */
  function Present(present: bool, s: string): Option<string> {
    if present then Some(s) else None
  }

  /**
   * Splits `uri` at its first `://`; what follows is split by `SplitRest`.
   * The authority and path hold neither `?` nor `#`, the query holds no `#`,
   * the authority and path is the authority followed by the path, and a
   * non-empty path starts with `/`.
   */
  function ParseGenericUri(uri: string): (p: ParsedGenericUri)
    ensures '?' !in p.authorityAndPath && '#' !in p.authorityAndPath && '#' !in p.query
    ensures '/' !in p.authority && p.authority + p.path == p.authorityAndPath
    ensures p.path == [] || p.path[0] == '/'
  {
    match FindSeparator(uri, 0)
    case Some(i) => SplitRest(uri[..i], uri[i + 3..])
    case None => SplitRest([], uri)
  }

  /**
   * Splits what follows the scheme at its first `#`, the part before that at
   * its first `?`, and the authority and path at its first `/`.
   */
  function SplitRest(scheme: string, rest: string): (p: ParsedGenericUri)
    ensures p.scheme == scheme
    ensures '?' !in p.authorityAndPath && '#' !in p.authorityAndPath && '#' !in p.query
    ensures '/' !in p.authority && p.authority + p.path == p.authorityAndPath
    ensures p.path == [] || p.path[0] == '/'
  {
    var (beforeFragment, fragment) := SplitFirst(rest, '#');
    var (authorityAndPath, query) := SplitFirst(beforeFragment, '?');
    var (authority, _) := SplitFirst(authorityAndPath, '/');
    QueryHasNoFragment(beforeFragment);
    AuthorityThenPath(authorityAndPath);
    ParsedGenericUri(
      scheme,
      authorityAndPath,
      authority,
      authorityAndPath[|authority|..],
      if query.Some? then query.value else [],
      if fragment.Some? then fragment.value else [])
  }

  /** Split at its first `?`, a string without `#` leaves `#` out of both parts. */
  lemma QueryHasNoFragment(s: string)
    requires '#' !in s
    ensures '?' !in SplitFirst(s, '?').0 && '#' !in SplitFirst(s, '?').0
    ensures SplitFirst(s, '?').1.Some? ==> '#' !in SplitFirst(s, '?').1.value
  {
    JoinNotIn(SplitFirst(s, '?').0, '?', SplitFirst(s, '?').1, '#');
  }

  /** Split at its first `/`, a string is its authority followed by a path that is empty or starts with `/`. */
  lemma AuthorityThenPath(s: string)
    ensures var authority := SplitFirst(s, '/').0;
            '/' !in authority && |authority| <= |s| && authority + s[|authority|..] == s &&
            (s[|authority|..] == [] || s[|authority|..][0] == '/')
  {
    var (authority, afterSlash) := SplitFirst(s, '/');
    if afterSlash.Some? {
      assert s == authority + ['/'] + afterSlash.value;
      assert s[|authority|..] == ['/'] + afterSlash.value;
    }
  }

  /** What follows the scheme, as the parts spell it with or without `?` and `#`. */
  function UnparseRest(p: ParsedGenericUri, hasQuery: bool, hasFragment: bool): string {
    Join(Join(p.authorityAndPath, '?', Present(hasQuery, p.query)), '#', Present(hasFragment, p.fragment))
  }

  /** The URI that the parts spell, with or without each of `://`, `?` and `#`. */
  function Unparse(p: ParsedGenericUri, hasScheme: bool, hasQuery: bool, hasFragment: bool): string {
    (if hasScheme then p.scheme + "://" else []) + UnparseRest(p, hasQuery, hasFragment)
  }

  /**
   * The parts after the scheme are unambiguous: the authority and path hold
   * neither `?` nor `#`; the query holds no `#`; the authority holds no `/`;
   * the path is empty or starts with `/`; an absent query or fragment is empty.
   */
  predicate WellFormedRest(p: ParsedGenericUri, hasQuery: bool, hasFragment: bool) {
    '?' !in p.authorityAndPath && '#' !in p.authorityAndPath && '#' !in p.query &&
    p.authority + p.path == p.authorityAndPath && '/' !in p.authority &&
    (p.path == [] || p.path[0] == '/') &&
    (!hasQuery ==> p.query == []) && (!hasFragment ==> p.fragment == [])
  }

  /**
   * Parts that only one URI splits into: besides `WellFormedRest`, the
   * first `://` after the scheme is the one that ends it, and when the
   * separator is absent the scheme is empty and no `://` occurs anywhere.
   */
  predicate WellFormedParts(p: ParsedGenericUri, hasScheme: bool, hasQuery: bool, hasFragment: bool) {
    (hasScheme ==> FindSeparator(p.scheme + "://", 0) == Some(|p.scheme|)) &&
    (!hasScheme ==> p.scheme == [] && FindSeparator(UnparseRest(p, hasQuery, hasFragment), 0) == None) &&
    WellFormedRest(p, hasQuery, hasFragment)
  }

  /** What follows the scheme is spelled by the parts it splits into, and they are well formed. */
  lemma SplitRestParts(scheme: string, rest: string) returns (hasQuery: bool, hasFragment: bool)
    ensures SplitRest(scheme, rest).scheme == scheme
    ensures WellFormedRest(SplitRest(scheme, rest), hasQuery, hasFragment)
    ensures UnparseRest(SplitRest(scheme, rest), hasQuery, hasFragment) == rest
  {
    var (beforeFragment, fragment) := SplitFirst(rest, '#');
    var (authorityAndPath, query) := SplitFirst(beforeFragment, '?');
    hasQuery, hasFragment := query.Some?, fragment.Some?;
  }

  /** Well-formed parts after the scheme are what their spelling splits into. */
  lemma SplitRestUnparse(p: ParsedGenericUri, hasQuery: bool, hasFragment: bool)
    requires WellFormedRest(p, hasQuery, hasFragment)
    ensures SplitRest(p.scheme, UnparseRest(p, hasQuery, hasFragment)) == p
  {
    var query := Present(hasQuery, p.query);
    var beforeFragment := Join(p.authorityAndPath, '?', query);
    if hasQuery {
      assert beforeFragment == p.authorityAndPath + (['?'] + p.query);
    }
    assert '#' !in beforeFragment;
    SplitFirstJoin(beforeFragment, '#', Present(hasFragment, p.fragment));
    SplitFirstJoin(p.authorityAndPath, '?', query);
    if p.path == [] {
      assert p.authorityAndPath == Join(p.authority, '/', None);
      SplitFirstJoin(p.authority, '/', None);
    } else {
      assert p.authorityAndPath == Join(p.authority, '/', Some(p.path[1..]));
      SplitFirstJoin(p.authority, '/', Some(p.path[1..]));
    }
  }

  /** A separator that ends within `s` is the first in `s + t` exactly when it is the first in `s`. */
  lemma FindSeparatorPrefix(s: string, t: string, i: nat)
    requires i + 3 <= |s|
    ensures FindSeparator(s + t, 0) == Some(i) <==> FindSeparator(s, 0) == Some(i)
  {
    var u := s + t;
    forall j | 0 <= j <= i ensures SeparatorAt(u, j) == SeparatorAt(s, j) {
      assert u[j] == s[j] && u[j + 1] == s[j + 1] && u[j + 2] == s[j + 2];
    }
  }

  /** Every URI is spelled by its parts, and its parts are well formed. */
  lemma ParseGenericUriParts(uri: string) returns (hasScheme: bool, hasQuery: bool, hasFragment: bool)
    ensures WellFormedParts(ParseGenericUri(uri), hasScheme, hasQuery, hasFragment)
    ensures Unparse(ParseGenericUri(uri), hasScheme, hasQuery, hasFragment) == uri
  {
    match FindSeparator(uri, 0)
    case Some(i) =>
      hasScheme := true;
      hasQuery, hasFragment := SplitRestParts(uri[..i], uri[i + 3..]);
      assert uri == uri[..i + 3] + uri[i + 3..];
      assert uri[..i] + "://" == uri[..i + 3];
      FindSeparatorPrefix(uri[..i + 3], uri[i + 3..], i);
    case None =>
      hasScheme := false;
      hasQuery, hasFragment := SplitRestParts([], uri);
  }

  /** Well-formed parts are what their URI parses into. */
  lemma ParseGenericUriUnparse(p: ParsedGenericUri, hasScheme: bool, hasQuery: bool, hasFragment: bool)
    requires WellFormedParts(p, hasScheme, hasQuery, hasFragment)
    ensures ParseGenericUri(Unparse(p, hasScheme, hasQuery, hasFragment)) == p
  {
    var uri := Unparse(p, hasScheme, hasQuery, hasFragment);
    var rest := UnparseRest(p, hasQuery, hasFragment);
    SplitRestUnparse(p, hasQuery, hasFragment);
    if hasScheme {
      var pre := p.scheme + "://";
      var n := |p.scheme|;
      assert uri == pre + rest;
      FindSeparatorPrefix(pre, rest, n);
      assert uri[..n] == p.scheme && uri[n + 3..] == rest;
    } else {
      assert uri == rest;
    }
  }
}
