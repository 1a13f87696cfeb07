/**
  Path classification (`PathMatcher` and `transform_to_encoded_regex` in the
  authentication middleware). Patterns and paths are both percent-encoded, every
  encoded `*` (`%2A`) is turned into the regex `.*`, and each compiled pattern is
  searched for, unanchored, in the transformed path.
*/
module PathMatching {
  import opened Wrappers
  import opened UrlEncoding
  import opened RegexSubset

  /** `PATH_MATCHER_ANY_ENCODED`: the encoding of `*`. */
  const PATH_MATCHER_ANY_ENCODED := "%2A"

  /** `str::replace(PATH_MATCHER_ANY_ENCODED, ".*")`: leftmost, non-overlapping replacement. */
  function ReplaceAnyEncoded(s: string): string
    decreases |s|
  {
    if |s| >= 3 && s[..3] == PATH_MATCHER_ANY_ENCODED then ".*" + ReplaceAnyEncoded(s[3..])
    else if s == [] then []
    else [s[0]] + ReplaceAnyEncoded(s[1..])
  }

  /**
    The replacement is leftmost and non-overlapping, and what it writes never forms a
    new `%2A`: no encoded `*` is left in its result, which is never longer than its input.
  */
  lemma {:induction false} NoEncodedStarLeft(s: string)
    ensures |ReplaceAnyEncoded(s)| <= |s|
    ensures |s| > 0 ==> |ReplaceAnyEncoded(s)| > 0 && (ReplaceAnyEncoded(s)[0] == s[0] || ReplaceAnyEncoded(s)[0] == '.')
    ensures forall i :: 0 <= i < |ReplaceAnyEncoded(s)| - 2 ==>
              !(ReplaceAnyEncoded(s)[i] == '%' && ReplaceAnyEncoded(s)[i + 1] == '2' && ReplaceAnyEncoded(s)[i + 2] == 'A')
    decreases |s|
  {
    if |s| >= 3 && s[..3] == PATH_MATCHER_ANY_ENCODED {
      NoEncodedStarLeft(s[3..]);
    } else if s != [] {
      NoEncodedStarLeft(s[1..]);
      if |s| > 1 {
        NoEncodedStarLeft(s[2..]);
      }
    }
  }

  /** `transform_to_encoded_regex`: encode, then turn each encoded `*` into `.*`. */
  function TransformToEncodedRegex(input: string): (r: string)
    ensures r == TransformBytes(Utf8Bytes(input))
  {
    ReplaceAfterEncode(Utf8Bytes(input));
    ReplaceAnyEncoded(Encode(input))
  }

  const STAR: Byte := 0x2A

  /** What the transform does to one byte, read off token by token. */
  function TransformByte(b: Byte): string {
    if b == STAR then ".*" else EncodeByte(b)
  }

  /**
    The transform as a token-by-token translation of the bytes (the reference the
    encode-then-replace pipeline is proved equal to). Its output is a well-formed
    pattern: a `*` only ever stands right after a `.`, and there is no line feed.
  */
  function TransformBytes(bs: seq<Byte>): string {
    if bs == [] then [] else TransformByte(bs[0]) + TransformBytes(bs[1..])
  }

  /**
    A well-formed transformed string: only unreserved characters, `%` and `*`, no line
    feed, and a `*` only ever right after a `.`.
  */
  ghost predicate WellFormedTransform(s: string) {
    && (forall i :: 0 <= i < |s| ==> s[i] != '\n' && (EncodedChar(s[i]) || s[i] == '*'))
    && (forall i :: 0 <= i < |s| && s[i] == '*' ==> 0 < i && s[i - 1] == '.')
  }

  lemma TransformByteWellFormed(b: Byte)
    ensures WellFormedTransform(TransformByte(b))
  {
    if b != STAR {
      EncodeByteShape(b);
    }
  }

  lemma WellFormedAppend(head: string, tail: string)
    requires WellFormedTransform(head) && WellFormedTransform(tail)
    ensures WellFormedTransform(head + tail)
  {
    assert forall i :: |head| <= i < |head + tail| ==> (head + tail)[i] == tail[i - |head|];
  }

  /** A transformed string is a well-formed pattern: a `*` only ever stands right after a `.`. */
  lemma {:induction false} TransformWellFormed(bs: seq<Byte>)
    ensures WellFormedTransform(TransformBytes(bs))
  {
    if bs != [] {
      TransformWellFormed(bs[1..]);
      TransformByteWellFormed(bs[0]);
      WellFormedAppend(TransformByte(bs[0]), TransformBytes(bs[1..]));
    }
  }

  lemma ReplaceKeeps(c: char, rest: string)
    requires c != '%'
    ensures ReplaceAnyEncoded([c] + rest) == [c] + ReplaceAnyEncoded(rest)
  {
    var s := [c] + rest;
    assert s[0] == c;
    assert |s| >= 3 ==> s[..3][0] == c;
    assert s[1..] == rest;
  }

  /** An escape other than `%2A` is passed through unchanged. */
  lemma ReplaceKeepsEscape(b: Byte, rest: string)
    requires !Unreserved(b) && b != STAR
    ensures ReplaceAnyEncoded(EncodeByte(b) + rest) == EncodeByte(b) + ReplaceAnyEncoded(rest)
  {
    var hi, lo := HexDigit(b as int / 16), HexDigit(b as int % 16);
    HexDigitValue(b as int / 16);
    HexDigitValue(b as int % 16);
    assert EncodeByte(b) == ['%', hi, lo];
    ReplaceSkipsEscape(hi, lo, rest);
  }

  /** An escape `%hl` other than `%2A` is passed through unchanged. */
  lemma ReplaceSkipsEscape(h: char, l: char, rest: string)
    requires h != '%' && l != '%' && (h != '2' || l != 'A')
    ensures ReplaceAnyEncoded(['%', h, l] + rest) == ['%', h, l] + ReplaceAnyEncoded(rest)
  {
    var s := ['%', h, l] + rest;
    assert s[..3] != PATH_MATCHER_ANY_ENCODED by {
      assert s[..3][1] == h && s[..3][2] == l;
    }
    assert s[1..] == [h] + ([l] + rest);
    ReplaceKeeps(l, rest);
    ReplaceKeeps(h, [l] + rest);
    assert ['%'] + ([h] + ([l] + ReplaceAnyEncoded(rest))) == ['%', h, l] + ReplaceAnyEncoded(rest);
  }

  lemma ReplaceAfterEncodeByte(b: Byte, rest: string)
    ensures ReplaceAnyEncoded(EncodeByte(b) + rest) == TransformByte(b) + ReplaceAnyEncoded(rest)
  {
    if Unreserved(b) {
      ReplaceKeeps(b as char, rest);
    } else if b == STAR {
      var s := EncodeByte(b) + rest;
      assert s[..3] == PATH_MATCHER_ANY_ENCODED;
      assert s[3..] == rest;
    } else {
      ReplaceKeepsEscape(b, rest);
    }
  }

  /** Replacing `%2A` after encoding acts byte by byte: only encoded `*`s are rewritten. */
  lemma {:induction false} ReplaceAfterEncode(bs: seq<Byte>)
    ensures ReplaceAnyEncoded(EncodeBytes(bs)) == TransformBytes(bs)
  {
    if bs != [] {
      ReplaceAfterEncodeByte(bs[0], EncodeBytes(bs[1..]));
      ReplaceAfterEncode(bs[1..]);
    }
  }

  lemma {:induction false} Utf8BytesAppend(a: string, b: string)
    ensures Utf8Bytes(a + b) == Utf8Bytes(a) + Utf8Bytes(b)
  {
    if a != [] {
      var ab := a + b;
      assert ab[0] == a[0];
      assert ab[1..] == a[1..] + b;
      Utf8BytesAppend(a[1..], b);
      var head, mid, tail := Utf8(a[0]), Utf8Bytes(a[1..]), Utf8Bytes(b);
      assert Utf8Bytes(ab) == head + (mid + tail);
      assert Utf8Bytes(a) == head + mid;
      assert head + (mid + tail) == (head + mid) + tail;
    } else {
      assert a + b == b;
    }
  }

  /** The pattern one byte contributes. */
  function AtomsOfByte(b: Byte): seq<Atom> {
    if b == STAR then [AnyRun]
    else if b == '.' as int as Byte then [AnyChar]
    else if Unreserved(b) then [Lit(b as char)]
    else [Lit('%'), Lit(HexDigit(b as int / 16)), Lit(HexDigit(b as int % 16))]
  }

  function AtomsOf(bs: seq<Byte>): seq<Atom> {
    if bs == [] then [] else AtomsOfByte(bs[0]) + AtomsOf(bs[1..])
  }

  lemma ParseLiteral(c: char, rest: string, tail: seq<Atom>)
    requires c != '.' && !Meta(c)
    requires Parse(rest) == Some(tail)
    ensures Parse([c] + rest) == Some([Lit(c)] + tail)
  {
    assert ([c] + rest)[1..] == rest;
  }

  lemma UnreservedNotMeta(c: char)
    requires UnreservedChar(c) && c != '.'
    ensures !Meta(c)
  {
  }

  lemma ParseRun(rest: string, tail: seq<Atom>)
    requires Parse(rest) == Some(tail)
    ensures Parse(".*" + rest) == Some([AnyRun] + tail)
  {
    assert (".*" + rest)[2..] == rest;
  }

  lemma ParseDot(rest: string, tail: seq<Atom>)
    requires Parse(rest) == Some(tail)
    requires |rest| > 0 ==> rest[0] != '*'
    ensures Parse("." + rest) == Some([AnyChar] + tail)
  {
    assert ("." + rest)[1..] == rest;
  }

  lemma ParseEscaped(b: Byte, rest: string, tail: seq<Atom>)
    requires !Unreserved(b) && b != STAR
    requires Parse(rest) == Some(tail)
    ensures Parse(EncodeByte(b) + rest) == Some(AtomsOfByte(b) + tail)
  {
    var hi, lo := HexDigit(b as int / 16), HexDigit(b as int % 16);
    UnreservedNotMeta(hi);
    UnreservedNotMeta(lo);
    ParseThreeLiterals('%', hi, lo, rest, tail);
  }

  /** Three ordinary characters in a row compile to three literal atoms. */
  lemma ParseThreeLiterals(c0: char, c1: char, c2: char, rest: string, tail: seq<Atom>)
    requires c0 != '.' && !Meta(c0) && c1 != '.' && !Meta(c1) && c2 != '.' && !Meta(c2)
    requires Parse(rest) == Some(tail)
    ensures Parse([c0, c1, c2] + rest) == Some([Lit(c0), Lit(c1), Lit(c2)] + tail)
  {
    ParseLiteral(c2, rest, tail);
    ParseLiteral(c1, [c2] + rest, [Lit(c2)] + tail);
    ParseLiteral(c0, [c1] + ([c2] + rest), [Lit(c1)] + ([Lit(c2)] + tail));
    assert [c0] + ([c1] + ([c2] + rest)) == [c0, c1, c2] + rest;
    assert [Lit(c0)] + ([Lit(c1)] + ([Lit(c2)] + tail)) == [Lit(c0), Lit(c1), Lit(c2)] + tail;
  }

  lemma ParseTransformByte(b: Byte, rest: string, tail: seq<Atom>)
    requires Parse(rest) == Some(tail)
    requires |rest| > 0 ==> rest[0] != '*'
    ensures Parse(TransformByte(b) + rest) == Some(AtomsOfByte(b) + tail)
  {
    if b == STAR {
      ParseRun(rest, tail);
    } else if b == '.' as int as Byte {
      ParseDot(rest, tail);
    } else if Unreserved(b) {
      UnreservedNotMeta(b as char);
      assert TransformByte(b) + rest == [b as char] + rest;
      ParseLiteral(b as char, rest, tail);
    } else {
      ParseEscaped(b, rest, tail);
    }
  }

  /**
    `Regex::new` accepts every transformed pattern: a literal `*` never reaches the
    regex parser, an encoded `*` is a run, a literal `.` survives encoding and so is a
    one-character wildcard, and every other byte is matched literally in encoded form.
  */
  lemma {:induction false} ParseTransformBytes(bs: seq<Byte>)
    ensures Parse(TransformBytes(bs)) == Some(AtomsOf(bs))
  {
    if bs != [] {
      ParseTransformBytes(bs[1..]);
      ParseTransformByte(bs[0], TransformBytes(bs[1..]), AtomsOf(bs[1..]));
    }
  }

  /** `Regex::new(&transform_to_encoded_regex(pattern)).unwrap()`; the unwrap cannot fail. */
  function Compile(pattern: string): (atoms: seq<Atom>)
    ensures Parse(TransformToEncodedRegex(pattern)) == Some(atoms)
    ensures atoms == AtomsOf(Utf8Bytes(pattern))
  {
    ParseTransformBytes(Utf8Bytes(pattern));
    Parse(TransformToEncodedRegex(pattern)).value
  }

  /** An entry of `path_regex_list`: the pattern as written and its compiled regex. */
  datatype CompiledPattern = CompiledPattern(source: string, regex: seq<Atom>)

  datatype PathMatcher = PathMatcher(isExclusionList: bool, pathRegexList: seq<CompiledPattern>)

  /** `m` is what `PathMatcher::new(pathList, isExclusionList)` builds. */
  ghost predicate CompiledFrom(m: PathMatcher, pathList: seq<string>, isExclusionList: bool) {
    && m.isExclusionList == isExclusionList
    && |m.pathRegexList| == |pathList|
    && forall k :: 0 <= k < |pathList| ==>
         && m.pathRegexList[k].source == pathList[k]
         && Parse(TransformToEncodedRegex(pathList[k])) == Some(m.pathRegexList[k].regex)
  }

  /** `PathMatcher::new`: compile every pattern, in order. */
  method New(pathList: seq<string>, isExclusionList: bool) returns (m: PathMatcher)
    ensures CompiledFrom(m, pathList, isExclusionList)
  {
    var pathRegexList: seq<CompiledPattern> := [];
    for i := 0 to |pathList|
      invariant |pathRegexList| == i
      invariant forall k :: 0 <= k < i ==>
                  && pathRegexList[k].source == pathList[k]
                  && Parse(TransformToEncodedRegex(pathList[k])) == Some(pathRegexList[k].regex)
    {
      var pattern := pathList[i];
      pathRegexList := pathRegexList + [CompiledPattern(pattern, Compile(pattern))];
    }
    m := PathMatcher(isExclusionList, pathRegexList);
  }

  const DEFAULT_PATH_LIST: seq<string> := ["/login*", "/register*"]

  /** `PathMatcher::default`: everything is secured except what `/login*` and `/register*` hit. */
  method Default() returns (m: PathMatcher)
    ensures CompiledFrom(m, DEFAULT_PATH_LIST, true)
  {
    m := New(DEFAULT_PATH_LIST, true);
  }

  /** `iter().any(|p| p.1.is_match(hay))`. */
  function AnyMatch(list: seq<CompiledPattern>, hay: string): (r: bool)
    ensures r <==> exists k :: 0 <= k < |list| && IsMatch(list[k].regex, hay)
  {
    if list == [] then false
    else
      assert forall k :: 1 <= k < |list| ==> list[k] == list[1..][k - 1];
      IsMatch(list[0].regex, hay) || AnyMatch(list[1..], hay)
  }

  /** `iter().all(|p| !p.1.is_match(hay))`. */
  function NoneMatch(list: seq<CompiledPattern>, hay: string): (r: bool)
    ensures r <==> forall k :: 0 <= k < |list| ==> !IsMatch(list[k].regex, hay)
  {
    if list == [] then true
    else
      assert forall k :: 1 <= k < |list| ==> list[k] == list[1..][k - 1];
      !IsMatch(list[0].regex, hay) && NoneMatch(list[1..], hay)
  }

  /**
    `PathMatcher::matches`: whether the path requires authentication. In exclusion
    mode, exactly when no pattern occurs in the transformed path; otherwise exactly
    when some pattern does.
  */
  function Matches(m: PathMatcher, path: string): (r: bool)
    ensures |m.pathRegexList| == 0 ==> (r <==> m.isExclusionList)
    ensures m.isExclusionList ==>
      (r <==> forall k :: 0 <= k < |m.pathRegexList| ==> !Occurs(m.pathRegexList[k].regex, TransformToEncodedRegex(path)))
    ensures !m.isExclusionList ==>
      (r <==> exists k :: 0 <= k < |m.pathRegexList| && Occurs(m.pathRegexList[k].regex, TransformToEncodedRegex(path)))
  {
    var encodedPath := TransformToEncodedRegex(path);
    if m.isExclusionList then NoneMatch(m.pathRegexList, encodedPath)
    else AnyMatch(m.pathRegexList, encodedPath)
  }

  lemma {:induction false} TransformBytesAppend(x: seq<Byte>, y: seq<Byte>)
    ensures TransformBytes(x + y) == TransformBytes(x) + TransformBytes(y)
  {
    if x == [] {
      assert x + y == y;
    } else {
      assert (x + y)[0] == x[0] && (x + y)[1..] == x[1..] + y;
      TransformBytesAppend(x[1..], y);
    }
  }

  lemma {:induction false} AtomsOfAppend(x: seq<Byte>, y: seq<Byte>)
    ensures AtomsOf(x + y) == AtomsOf(x) + AtomsOf(y)
  {
    if x == [] {
      assert x + y == y;
    } else {
      assert (x + y)[0] == x[0] && (x + y)[1..] == x[1..] + y;
      AtomsOfAppend(x[1..], y);
    }
  }

  /** The transform distributes over concatenation. */
  lemma TransformAppend(a: string, b: string)
    ensures TransformToEncodedRegex(a + b) == TransformToEncodedRegex(a) + TransformToEncodedRegex(b)
  {
    Utf8BytesAppend(a, b);
    TransformBytesAppend(Utf8Bytes(a), Utf8Bytes(b));
  }

  lemma TransformAppend3(a: string, b: string, c: string)
    ensures TransformToEncodedRegex(a + b + c) == TransformToEncodedRegex(a) + (TransformToEncodedRegex(b) + TransformToEncodedRegex(c))
  {
    TransformAppend(a + b, c);
    TransformAppend(a, b);
    Reassociate(TransformToEncodedRegex(a + b + c), TransformToEncodedRegex(a + b),
      TransformToEncodedRegex(a), TransformToEncodedRegex(b), TransformToEncodedRegex(c));
  }

  /** Regrouping a concatenation of three transformed pieces. */
  lemma Reassociate(p: string, ab: string, a: string, b: string, c: string)
    requires p == ab + c && ab == a + b
    ensures p == a + (b + c)
  {
  }

  const DOT: Byte := 0x2E

  /** No `.` and no `*`: a pattern text with no wildcard in it. */
  ghost predicate Plain(s: string) {
    forall i :: 0 <= i < |s| ==> s[i] != '.' && s[i] != '*'
  }

  lemma PlainByteIsLiteral(b: Byte)
    requires b != STAR && b != DOT
    ensures AtomsOfByte(b) == Lits(TransformByte(b))
  {
    if Unreserved(b) {
      assert TransformByte(b) == [b as char];
    } else {
      assert TransformByte(b) == ['%', HexDigit(b as int / 16), HexDigit(b as int % 16)];
    }
  }

  lemma LitsAppend(x: string, y: string)
    ensures Lits(x + y) == Lits(x) + Lits(y)
  {
  }

  lemma {:induction false} PlainBytesAreLiteral(bs: seq<Byte>)
    requires forall i :: 0 <= i < |bs| ==> bs[i] != STAR && bs[i] != DOT
    ensures AtomsOf(bs) == Lits(TransformBytes(bs))
  {
    if bs != [] {
      PlainBytesAreLiteral(bs[1..]);
      PlainByteIsLiteral(bs[0]);
      LitsAppend(TransformByte(bs[0]), TransformBytes(bs[1..]));
    }
  }

  lemma {:induction false} PlainUtf8(s: string)
    requires Plain(s)
    ensures forall i :: 0 <= i < |Utf8Bytes(s)| ==> Utf8Bytes(s)[i] != STAR && Utf8Bytes(s)[i] != DOT
  {
    if s != [] {
      PlainUtf8(s[1..]);
      var head := Utf8(s[0]);
      assert forall i :: 0 <= i < |head| ==> head[i] != STAR && head[i] != DOT;
    }
  }

  /** A pattern without wildcard characters is matched literally, in encoded form. */
  lemma CompilePlain(w: string)
    requires Plain(w)
    ensures Compile(w) == Lits(TransformToEncodedRegex(w))
  {
    PlainUtf8(w);
    PlainBytesAreLiteral(Utf8Bytes(w));
  }

  /** `w*` with a wildcard-free `w` is `w`, encoded, followed by a run. */
  lemma CompilePlainThenStar(w: string)
    requires Plain(w)
    ensures Compile(w + "*") == Lits(TransformToEncodedRegex(w)) + [AnyRun]
  {
    CompilePlain(w);
    var bw := Utf8Bytes(w);
    assert Utf8Bytes("*") == [STAR];
    Utf8BytesAppend(w, "*");
    AtomsOfAppend(bw, [STAR]);
    assert AtomsOf([STAR]) == [AnyRun];
    assert Compile(w + "*") == AtomsOf(bw + [STAR]);
  }

  lemma TransformLiteralChar(c: char)
    requires UnreservedChar(c) && c != '*'
    ensures TransformToEncodedRegex([c]) == [c]
  {
    var b := c as int as Byte;
    assert Utf8Bytes([c]) == [b];
    assert TransformBytes([b]) == TransformByte(b) + TransformBytes([]);
    assert TransformByte(b) == [c];
  }

  /** A lower-case letter occurs in the transform of `s` exactly when it occurs in `s`. */
  lemma LowercaseSurvivesTransform(s: string, c: char)
    requires 'a' <= c <= 'z'
    ensures c in TransformToEncodedRegex(s) <==> c in s
  {
    LowercaseInTransformBytes(Utf8Bytes(s), c);
    AsciiByteInUtf8(s, c);
  }

  /** Hex digits are written in upper case, so none is a lower-case letter. */
  lemma HexDigitNotLowercase(n: int)
    requires 0 <= n < 16
    ensures !('a' <= HexDigit(n) <= 'z')
  {
    assert HexDigit(n) in HEX_UPPER;
  }

  /** A lower-case letter appears in the translation of a byte exactly when it is that byte. */
  lemma LowercaseInTransformByte(b: Byte, c: char)
    requires 'a' <= c <= 'z'
    ensures c in TransformByte(b) <==> b == c as int as Byte
  {
    if !Unreserved(b) && b != STAR {
      var hi, lo := HexDigit(b as int / 16), HexDigit(b as int % 16);
      assert TransformByte(b) == ['%', hi, lo];
      HexDigitNotLowercase(b as int / 16);
      HexDigitNotLowercase(b as int % 16);
    }
  }

  lemma {:induction false} LowercaseInTransformBytes(bs: seq<Byte>, c: char)
    requires 'a' <= c <= 'z'
    ensures c in TransformBytes(bs) <==> (c as int as Byte) in bs
  {
    if bs != [] {
      LowercaseInTransformBytes(bs[1..], c);
      LowercaseInTransformByte(bs[0], c);
      assert bs == [bs[0]] + bs[1..];
    }
  }

  lemma {:induction false} AsciiByteInUtf8(s: string, c: char)
    requires (c as int) < 0x80
    ensures (c as int as Byte) in Utf8Bytes(s) <==> c in s
  {
    if s != [] {
      AsciiByteInUtf8(s[1..], c);
      assert s == [s[0]] + s[1..];
      assert (c as int as Byte) in Utf8(s[0]) <==> s[0] == c;
    }
  }

  /** A lower-case letter is a literal of a compiled pattern exactly when the pattern text has it. */
  lemma LowercaseLiteralOfCompiled(p: string, c: char)
    requires 'a' <= c <= 'z'
    ensures Lit(c) in Compile(p) <==> c in p
  {
    LowercaseInAtoms(Utf8Bytes(p), c);
    AsciiByteInUtf8(p, c);
  }

  /** A lower-case letter is a literal of a byte's atoms exactly when it is that byte. */
  lemma LowercaseInAtomsOfByte(b: Byte, c: char)
    requires 'a' <= c <= 'z'
    ensures Lit(c) in AtomsOfByte(b) <==> b == c as int as Byte
  {
    if !Unreserved(b) && b != STAR {
      var hi, lo := HexDigit(b as int / 16), HexDigit(b as int % 16);
      HexDigitNotLowercase(b as int / 16);
      HexDigitNotLowercase(b as int % 16);
    }
  }

  lemma {:induction false} LowercaseInAtoms(bs: seq<Byte>, c: char)
    requires 'a' <= c <= 'z'
    ensures Lit(c) in AtomsOf(bs) <==> (c as int as Byte) in bs
  {
    if bs != [] {
      LowercaseInAtoms(bs[1..], c);
      LowercaseInAtomsOfByte(bs[0], c);
      assert bs == [bs[0]] + bs[1..];
    }
  }

  /** A pattern whose text has a lower-case letter the path lacks never matches that path. */
  lemma MissingLetterNoMatch(p: string, path: string, c: char)
    requires 'a' <= c <= 'z' && c in p && c !in path
    ensures !IsMatch(Compile(p), TransformToEncodedRegex(path))
  {
    LowercaseLiteralOfCompiled(p, c);
    LowercaseSurvivesTransform(path, c);
    if IsMatch(Compile(p), TransformToEncodedRegex(path)) {
      LiteralNeededInSearch(Compile(p), TransformToEncodedRegex(path), c);
    }
  }

  /** The compiled entries of a matcher built from `pathList`. */
  lemma CompiledEntries(m: PathMatcher, pathList: seq<string>, isExclusionList: bool)
    requires CompiledFrom(m, pathList, isExclusionList)
    ensures forall k :: 0 <= k < |pathList| ==> m.pathRegexList[k].regex == Compile(pathList[k])
  {
  }

  /** In inclusion mode one matching pattern is enough to require authentication. */
  lemma InclusionHit(m: PathMatcher, k: nat, path: string)
    requires !m.isExclusionList && k < |m.pathRegexList|
    requires IsMatch(m.pathRegexList[k].regex, TransformToEncodedRegex(path))
    ensures Matches(m, path)
  {
  }

  /** In exclusion mode one matching pattern makes the path public. */
  lemma ExclusionHit(m: PathMatcher, k: nat, path: string)
    requires m.isExclusionList && k < |m.pathRegexList|
    requires IsMatch(m.pathRegexList[k].regex, TransformToEncodedRegex(path))
    ensures !Matches(m, path)
  {
  }

  /** In exclusion mode a path no pattern matches requires authentication. */
  lemma ExclusionMiss(m: PathMatcher, path: string)
    requires m.isExclusionList
    requires forall k :: 0 <= k < |m.pathRegexList| ==> !IsMatch(m.pathRegexList[k].regex, TransformToEncodedRegex(path))
    ensures Matches(m, path)
  {
  }

  /**
    * An exclusion matcher over two patterns secures a path that lacks a lower-case letter of each.
    */
  lemma SecuredByMissingLetters(m: PathMatcher, p0: string, p1: string, path: string, c0: char, c1: char)
    requires CompiledFrom(m, [p0, p1], true)
    requires 'a' <= c0 <= 'z' && c0 in p0 && c0 !in path
    requires 'a' <= c1 <= 'z' && c1 in p1 && c1 !in path
    ensures Matches(m, path)
  {
    MissingLetterNoMatch(p0, path, c0);
    MissingLetterNoMatch(p1, path, c1);
    ExclusionMiss(m, path);
  }

  /** `w*` finds a match in any path that has `w` after some prefix. */
  lemma PlainThenStarOccurs(w: string, before: string, rest: string)
    requires Plain(w)
    ensures IsMatch(Compile(w + "*"), TransformToEncodedRegex(before + w + rest))
  {
    var tb, tw, tr := TransformToEncodedRegex(before), TransformToEncodedRegex(w), TransformToEncodedRegex(rest);
    CompilePlainThenStar(w);
    RunMatchesAnything(tr);
    LitsThen(tw, [AnyRun], tr);
    IsMatchAfter(Lits(tw) + [AnyRun], tb, tw + tr);
    TransformAppend3(before, w, rest);
  }

  /** A wildcard-free `w` finds a match in any path that has `w` after some prefix. */
  lemma PlainOccurs(w: string, before: string, rest: string)
    requires Plain(w)
    ensures IsMatch(Compile(w), TransformToEncodedRegex(before + w + rest))
  {
    var tb, tw, tr := TransformToEncodedRegex(before), TransformToEncodedRegex(w), TransformToEncodedRegex(rest);
    CompilePlain(w);
    assert MatchesPrefix([], tr);
    LitsThen(tw, [], tr);
    assert Lits(tw) + [] == Lits(tw);
    IsMatchAfter(Lits(tw), tb, tw + tr);
    TransformAppend3(before, w, rest);
  }

  /** `path_matcher_should_match_wildcard`. */
  lemma WildcardTest(m: PathMatcher)
    requires CompiledFrom(m, ["/api/users/*", "/some-other/route"], false)
    ensures Matches(m, "/api/users/231/edit")
  {
    CompiledEntries(m, ["/api/users/*", "/some-other/route"], false);
    assert "/api/users/*" == "/api/users/" + "*";
    assert "/api/users/231/edit" == [] + "/api/users/" + "231/edit";
    PlainThenStarOccurs("/api/users/", [], "231/edit");
    InclusionHit(m, 0, "/api/users/231/edit");
  }

  /** `path_matcher_should_match_any_path_that_is_not_in_list_when_excluded`. */
  lemma ExclusionTest(m: PathMatcher)
    requires CompiledFrom(m, ["/some-other/route"], true)
    ensures Matches(m, "/api/users/231/edit")
  {
    LetterOnlyInPattern();
    CompiledEntries(m, ["/some-other/route"], true);
    MissingLetterNoMatch("/some-other/route", "/api/users/231/edit", 'o');
  }

  /** `o` is in the pattern `/some-other/route` and not in the path `/api/users/231/edit`. */
  lemma LetterOnlyInPattern()
    ensures 'o' in "/some-other/route" && 'o' !in "/api/users/231/edit"
  {
    assert "/some-other/route"[2] == 'o';
  }

  /** `path_matcher_default_should_secure_any_but_login`, first half. */
  lemma DefaultSecuresOthers(m: PathMatcher)
    requires CompiledFrom(m, DEFAULT_PATH_LIST, true)
    ensures Matches(m, "/api/users/231/edit")
  {
    SecuredByMissingLetters(m, "/login*", "/register*", "/api/users/231/edit", 'l', 'g');
  }

  /** `path_matcher_default_should_secure_any_but_login`, second half. */
  lemma DefaultLeavesLoginPublic(m: PathMatcher)
    requires CompiledFrom(m, DEFAULT_PATH_LIST, true)
    ensures !Matches(m, "/login")
  {
    CompiledEntries(m, DEFAULT_PATH_LIST, true);
    assert "/login*" == "/login" + "*";
    assert "/login" == [] + "/login" + [];
    PlainThenStarOccurs("/login", [], []);
    ExclusionHit(m, 0, "/login");
  }

  /** A `.` between two wildcard-free texts compiles to a one-character wildcard. */
  lemma CompilePlainDotPlain(w1: string, w2: string)
    requires Plain(w1) && Plain(w2)
    ensures Compile(w1 + "." + w2) == Lits(TransformToEncodedRegex(w1)) + [AnyChar] + Lits(TransformToEncodedRegex(w2))
  {
    Utf8BytesAppend(w1 + ".", w2);
    Utf8BytesAppend(w1, ".");
    assert Utf8Bytes(".") == [DOT];
    AtomsOfAppend(Utf8Bytes(w1) + [DOT], Utf8Bytes(w2));
    AtomsOfAppend(Utf8Bytes(w1), [DOT]);
    assert AtomsOf([DOT]) == [AnyChar];
    CompilePlain(w1);
    CompilePlain(w2);
  }

  lemma TransformAroundChar(w1: string, c: char, w2: string)
    requires UnreservedChar(c) && c != '*'
    ensures TransformToEncodedRegex(w1 + [c] + w2) == TransformToEncodedRegex(w1) + ([c] + TransformToEncodedRegex(w2))
  {
    TransformAppend3(w1, [c], w2);
    TransformLiteralChar(c);
  }

  lemma LitsDotLits(x: string, y: string, c: char, rest: string)
    requires c != '\n'
    ensures MatchesPrefix(Lits(x) + [AnyChar] + Lits(y), x + ([c] + (y + rest)))
  {
    assert MatchesPrefix([], rest);
    LitsThen(y, [], rest);
    assert Lits(y) + [] == Lits(y);
    AnyCharThen(c, Lits(y), y + rest);
    LitsThen(x, [AnyChar] + Lits(y), [c] + (y + rest));
    assert Lits(x) + ([AnyChar] + Lits(y)) == Lits(x) + [AnyChar] + Lits(y);
  }

  lemma TransformAroundCharIn(before: string, w1: string, c: char, w2: string, rest: string)
    requires UnreservedChar(c) && c != '*'
    ensures TransformToEncodedRegex(before + (w1 + [c] + w2) + rest) ==
      TransformToEncodedRegex(before) + (TransformToEncodedRegex(w1) + ([c] + (TransformToEncodedRegex(w2) + TransformToEncodedRegex(rest))))
  {
    TransformAppend3(before, w1 + [c] + w2, rest);
    TransformAroundChar(w1, c, w2);
    Regroup(TransformToEncodedRegex(before + (w1 + [c] + w2) + rest), TransformToEncodedRegex(before),
      TransformToEncodedRegex(w1 + [c] + w2), TransformToEncodedRegex(rest),
      TransformToEncodedRegex(w1), c, TransformToEncodedRegex(w2));
  }

  /** Regrouping the pieces of a transformed path around one character. */
  lemma Regroup(p: string, x: string, m: string, z: string, u: string, c: char, v: string)
    requires p == x + (m + z) && m == u + ([c] + v)
    ensures p == x + (u + ([c] + (v + z)))
  {
  }

  /**
    * The `.` of a pattern stands for any one character of the path: `w1.w2` finds a
    * match in a path holding `w1`, then any unreserved character, then `w2`.
    */
  lemma DotStandsForAnyChar(w1: string, w2: string, c: char, before: string, rest: string)
    requires Plain(w1) && Plain(w2) && UnreservedChar(c)
    ensures IsMatch(Compile(w1 + "." + w2), TransformToEncodedRegex(before + (w1 + [c] + w2) + rest))
  {
    var tb, tw1, tw2, tr := TransformToEncodedRegex(before), TransformToEncodedRegex(w1),
      TransformToEncodedRegex(w2), TransformToEncodedRegex(rest);
    CompilePlainDotPlain(w1, w2);
    LitsDotLits(tw1, tw2, c, tr);
    IsMatchAfter(Lits(tw1) + [AnyChar] + Lits(tw2), tb, tw1 + ([c] + (tw2 + tr)));
    TransformAroundCharIn(before, w1, c, w2, rest);
  }

  /** The default matcher leaves public any path that merely contains `/login`. */
  lemma DefaultIsUnanchored(m: PathMatcher)
    requires CompiledFrom(m, DEFAULT_PATH_LIST, true)
    ensures !Matches(m, "/api/users/login")
  {
    CompiledEntries(m, DEFAULT_PATH_LIST, true);
    assert "/login*" == "/login" + "*";
    assert "/api/users/login" == "/api/users" + "/login" + [];
    PlainThenStarOccurs("/login", "/api/users", []);
    ExclusionHit(m, 0, "/api/users/login");
  }

  /** The pattern list src/app_factory.rs passes to a matcher in exclusion mode, as a test instance. */
  const APP_PATH_LIST: seq<string> := ["/api/login/*", "/api/test", "/web/index.html"]

  /** In exclusion mode a wildcard-free pattern makes public every path that contains it. */
  lemma PlainPatternExcludes(m: PathMatcher, pathList: seq<string>, k: nat, before: string, rest: string)
    requires CompiledFrom(m, pathList, true) && k < |pathList| && Plain(pathList[k])
    ensures !Matches(m, before + pathList[k] + rest)
  {
    CompiledEntries(m, pathList, true);
    PlainOccurs(pathList[k], before, rest);
    ExclusionHit(m, k, before + pathList[k] + rest);
  }

  /** In exclusion mode a pattern `w1.w2` makes public every path holding `w1`, any unreserved character, then `w2`. */
  lemma DotPatternExcludes(m: PathMatcher, pathList: seq<string>, k: nat, w1: string, w2: string, c: char,
                           before: string, rest: string)
    requires CompiledFrom(m, pathList, true) && k < |pathList| && pathList[k] == w1 + "." + w2
    requires Plain(w1) && Plain(w2) && UnreservedChar(c)
    ensures !Matches(m, before + (w1 + [c] + w2) + rest)
  {
    CompiledEntries(m, pathList, true);
    DotStandsForAnyChar(w1, w2, c, before, rest);
    ExclusionHit(m, k, before + (w1 + [c] + w2) + rest);
  }

  /** The shape of the listed patterns the two lemmas below rely on. */
  lemma AppPatterns()
    ensures APP_PATH_LIST[1] == "/api/test" && Plain(APP_PATH_LIST[1])
    ensures APP_PATH_LIST[2] == "/web/index" + "." + "html" && Plain("/web/index") && Plain("html")
  {
    assert "/web/index.html" == "/web/index" + "." + "html";
  }

  /** `/api/test` is searched unanchored: every path that contains it is public, `/api/testing` among them. */
  lemma AppPrefixIsPublic(m: PathMatcher)
    requires CompiledFrom(m, APP_PATH_LIST, true)
    ensures forall before, rest :: !Matches(m, before + "/api/test" + rest)
  {
    AppPatterns();
    forall before, rest ensures !Matches(m, before + "/api/test" + rest) {
      PlainPatternExcludes(m, APP_PATH_LIST, 1, before, rest);
    }
  }

  /**
    The `.` of `/web/index.html` stands for any unreserved character, and the search is
    unanchored: `/web/index_html` is public as well, and so is any path containing it.
  */
  lemma AppDotIsWildcard(m: PathMatcher)
    requires CompiledFrom(m, APP_PATH_LIST, true)
    ensures forall before, c, rest :: UnreservedChar(c) ==> !Matches(m, before + ("/web/index" + [c] + "html") + rest)
  {
    AppPatterns();
    forall before, c, rest | UnreservedChar(c) ensures !Matches(m, before + ("/web/index" + [c] + "html") + rest) {
      DotPatternExcludes(m, APP_PATH_LIST, 2, "/web/index", "html", c, before, rest);
    }
  }
}
