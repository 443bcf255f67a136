/** The path-segment validator of path_timeout.h: UTF-8 restricted to the basic multilingual
    plane (sections 3 and 4 of RFC 3629), with the reserved ASCII characters excluded. */
module Utf8Segment {
  import opened Bytes

  datatype Verdict = Valid | EmbeddedNul | InvalidCharacter

  /** Code points of the basic multilingual plane without surrogates. */
  predicate Bmp(c: int) { 0 <= c < 0x10000 && !(0xD800 <= c < 0xE000) }

  predicate AllowedAscii(c: int) {
    0x20 <= c < 0x7F && c != 0x3C && c != 0x3E && c != 0x22 && c != 0x7C && c != 0x3F && c != 0x2A && c != 0x3A
  }

  predicate Allowed(c: int) { Bmp(c) && (c < 0x80 ==> AllowedAscii(c)) }

  predicate IsText(cps: seq<int>) { forall i :: 0 <= i < |cps| ==> Allowed(cps[i]) }

  /** The UTF-8 encoding of one code point. */
  function EncodeOne(c: int): (r: seq<Byte>)
    requires Bmp(c)
    ensures 1 <= |r| <= 3
  {
    if c < 0x80 then [c]
    else if c < 0x800 then [0xC0 + c / 64, 0x80 + c % 64]
    else [0xE0 + c / 4096, 0x80 + c / 64 % 64, 0x80 + c % 64]
  }

  function Encode(cps: seq<int>): seq<Byte>
    requires IsText(cps)
  {
    if cps == [] then [] else EncodeOne(cps[0]) + Encode(cps[1..])
  }

  /** The byte sequences of section 3 of RFC 3629, from which the code point can be read back. */
  lemma EncodingBits(c: int)
    requires Bmp(c)
    ensures var r := EncodeOne(c);
      && (c < 0x80 ==> r == [c])
      && (0x80 <= c < 0x800 ==>
           && |r| == 2 && 0xC2 <= r[0] <= 0xDF && 0x80 <= r[1] <= 0xBF
           && c == (r[0] as int - 0xC0) * 64 + (r[1] as int - 0x80))
      && (0x800 <= c ==>
           && |r| == 3 && 0xE0 <= r[0] <= 0xEF && 0x80 <= r[1] <= 0xBF && 0x80 <= r[2] <= 0xBF
           && c == (r[0] as int - 0xE0) * 4096 + (r[1] as int - 0x80) * 64 + (r[2] as int - 0x80))
  {
  }

  /** The ASCII characters that a path may contain: the printable ones without seven reserved ones. */
  lemma AllowedCharacters(c: int)
    requires 0 <= c < 128
    ensures Allowed(c) <==> ' ' as int <= c <= '~' as int && c as char !in "<>\"|?*:"
  {
  }

  /** Beyond ASCII everything up to U+FFFF is allowed, except the surrogates. */
  lemma AllowedBeyondAscii(c: int)
    requires c >= 128
    ensures Allowed(c) <==> c <= 0xD7FF || 0xE000 <= c <= 0xFFFF
  {
  }

  lemma {:induction false} EncodeAppend(cps: seq<int>, c: int)
    requires IsText(cps) && Allowed(c)
    ensures IsText(cps + [c]) && Encode(cps + [c]) == Encode(cps) + EncodeOne(c)
  {
    if cps == [] {
      assert cps + [c] == [c];
    } else {
      assert (cps + [c])[1..] == cps[1..] + [c];
      EncodeAppend(cps[1..], c);
    }
  }

  /** No encoding is the beginning of another. */
  lemma HeadIsUnique(a: int, b: int, x: seq<Byte>, y: seq<Byte>)
    requires Bmp(a) && Bmp(b) && EncodeOne(a) + x == EncodeOne(b) + y
    ensures a == b && x == y
  {
    hide EncodeOne;
    var s, t := EncodeOne(a) + x, EncodeOne(b) + y;
    var m, n := |EncodeOne(a)|, |EncodeOne(b)|;
    assert s[..m] == EncodeOne(a) && t[..n] == EncodeOne(b) && x == s[m..] && y == t[n..];
    LeadTellsLength(a);
    LeadTellsLength(b);
    assert s[0] == t[0];
    OneEncoding(a, b);
  }

  lemma LeadTellsLength(c: int)
    requires Bmp(c)
    ensures |EncodeOne(c)| == (if EncodeOne(c)[0] < 0x80 then 1 else if EncodeOne(c)[0] < 0xE0 then 2 else 3)
  {
  }

  lemma OneEncoding(a: int, b: int)
    requires Bmp(a) && Bmp(b) && EncodeOne(a) == EncodeOne(b)
    ensures a == b
  {
    hide EncodeOne;
    DecodesBack(a);
    DecodesBack(b);
  }

  /** The inverse of `EncodeOne`. */
  function DecodeOne(s: seq<Byte>): int
    requires 1 <= |s| <= 3
  {
    var b0: int := s[0];
    if |s| == 1 then b0
    else
      var b1: int := s[1];
      if |s| == 2 then (b0 - 0xC0) * 64 + (b1 - 0x80)
      else var b2: int := s[2]; (b0 - 0xE0) * 4096 + (b1 - 0x80) * 64 + (b2 - 0x80)
  }

  lemma DecodesBack(c: int)
    requires Bmp(c)
    ensures DecodeOne(EncodeOne(c)) == c
  {
  }

  /** Texts whose encodings start alike start alike. */
  lemma {:induction false} PrefixDecodes(a: seq<int>, b: seq<int>, rest: seq<Byte>)
    requires IsText(a) && IsText(b) && Encode(a) + rest == Encode(b)
    ensures |a| <= |b| && a == b[..|a|] && rest == Encode(b[|a|..])
  {
    if a == [] {
      assert Encode(a) + rest == rest;
    } else {
      assert Encode(a) + rest == EncodeOne(a[0]) + (Encode(a[1..]) + rest);
      HeadIsUnique(a[0], b[0], Encode(a[1..]) + rest, Encode(b[1..]));
      PrefixDecodes(a[1..], b[1..], rest);
    }
  }

  ghost predicate Decodes(bytes: seq<Byte>, cps: seq<int>) { IsText(cps) && Encode(cps) == bytes }

  /** The text that a byte string encodes is unique. */
  lemma DecodingIsUnique(bytes: seq<Byte>, a: seq<int>, b: seq<int>)
    requires Decodes(bytes, a) && Decodes(bytes, b)
    ensures a == b
  {
    assert Encode(a) + [] == Encode(b);
    PrefixDecodes(a, b, []);
  }

  /** Some allowed character is encoded at the beginning of `rest`. */
  ghost predicate Continues(rest: seq<Byte>) { exists c :: Allowed(c) && EncodeOne(c) <= rest }

  /** The bytes before `i` encode `cps`, and no allowed character follows. */
  ghost predicate Stuck(bytes: seq<Byte>, i: nat, cps: seq<int>) {
    i < |bytes| && Decodes(bytes[..i], cps) && !Continues(bytes[i..])
  }

  lemma TextContinues(bytes: seq<Byte>, i: nat, cps: seq<int>, whole: seq<int>)
    requires i < |bytes| && Decodes(bytes[..i], cps) && Decodes(bytes, whole)
    ensures Continues(bytes[i..])
  {
    assert bytes == bytes[..i] + bytes[i..];
    PrefixDecodes(cps, whole, bytes[i..]);
    var tail := whole[|cps|..];
    assert bytes[i..] == Encode(tail) && tail != [];
    assert EncodeOne(tail[0]) <= bytes[i..];
  }

  /** There is at most one place where a text cannot go on. */
  lemma StuckIsUnique(bytes: seq<Byte>, i: nat, a: seq<int>, j: nat, b: seq<int>)
    requires Stuck(bytes, i, a) && Stuck(bytes, j, b)
    ensures i == j
  {
    if i < j {
      StuckBefore(bytes, i, a, j, b);
    } else if j < i {
      StuckBefore(bytes, j, b, i, a);
    }
  }

  lemma StuckBefore(bytes: seq<Byte>, i: nat, a: seq<int>, j: nat, b: seq<int>)
    requires i < j <= |bytes| && Decodes(bytes[..i], a) && Decodes(bytes[..j], b)
    ensures Continues(bytes[i..])
  {
    assert bytes[..j][..i] == bytes[..i];
    TextContinues(bytes[..j], i, a, b);
    var c :| Allowed(c) && EncodeOne(c) <= bytes[..j][i..];
    assert EncodeOne(c) <= bytes[i..];
  }

  predicate Continuation(b: int) { 0x80 <= b < 0xC0 }

  /** The well-formedness tests on a multi-byte sequence: no overlong form, no surrogate. */
  predicate MultiByte(rest: seq<Byte>)
    requires rest != []
  {
    || (0xC2 <= rest[0] < 0xE0 && |rest| >= 2 && Continuation(rest[1]))
    || (0xE0 <= rest[0] < 0xF0 && |rest| >= 3 && Continuation(rest[1]) && Continuation(rest[2])
        && (rest[0] == 0xE0 ==> rest[1] >= 0xA0) && (rest[0] == 0xED ==> rest[1] < 0xA0))
  }

  /** The code point of a well-formed sequence. */
  function CodePoint(rest: seq<Byte>): int
    requires rest != [] && MultiByte(rest)
  {
    var b0: int, b1: int := rest[0], rest[1];
    if b0 < 0xE0 then (b0 - 0xC0) * 64 + (b1 - 0x80)
    else var b2: int := rest[2]; (b0 - 0xE0) * 4096 + (b1 - 0x80) * 64 + (b2 - 0x80)
  }

  lemma WellFormedContinues(rest: seq<Byte>)
    requires rest != [] && MultiByte(rest)
    ensures var c := CodePoint(rest); c >= 0x80 && Allowed(c) && EncodeOne(c) == rest[..if rest[0] < 0xE0 then 2 else 3]
  {
    var c := CodePoint(rest);
    var b1: int := rest[1];
    if rest[0] < 0xE0 {
      assert c / 64 == rest[0] - 0xC0 && c % 64 == b1 - 0x80;
    } else {
      var b0: int, b2: int := rest[0], rest[2];
      var high := (b0 - 0xE0) * 64 + (b1 - 0x80);
      assert c == high * 64 + (b2 - 0x80);
      assert c / 64 == high && c % 64 == b2 - 0x80;
      assert high / 64 == b0 - 0xE0 && high % 64 == b1 - 0x80;
      assert c / 4096 == high / 64;
    }
  }

  lemma NothingFollows(rest: seq<Byte>)
    requires rest != [] && (if rest[0] < 0x80 then !AllowedAscii(rest[0]) else !MultiByte(rest))
    ensures !Continues(rest)
  {
  }

  /** `r4_path_segment_valid`: accepts exactly the encodings of texts of allowed characters and
      counts their characters; otherwise it reports the first place where none follows. */
  method SegmentValid(segment: seq<Byte>) returns (verdict: Verdict, chars: nat)
    ensures verdict.Valid? <==> exists cps :: Decodes(segment, cps)
    ensures verdict.Valid? ==> forall cps :: Decodes(segment, cps) ==> |cps| == chars
    ensures !verdict.Valid? ==>
      exists i: nat, cps :: Stuck(segment, i, cps) && (verdict.EmbeddedNul? <==> segment[i] == 0)
  {
    hide EncodeOne, Encode;
    chars := 0;
    var i := 0;
    ghost var cps: seq<int> := [];
    EncodeNothing();
    while i < |segment|
      invariant i <= |segment| && Decodes(segment[..i], cps) && |cps| == chars
    {
      var byte := segment[i];
      ghost var rest := segment[i..];
      if byte < 0x80 {
        if !AllowedAscii(byte) {
          NothingFollows(rest);
          assert Stuck(segment, i, cps);
          NoDecoding(segment, i, cps);
          return if byte == 0 then EmbeddedNul else InvalidCharacter, chars;
        }
        EncodeAscii(byte);
        EncodeAppend(cps, byte);
        assert segment[..i + 1] == segment[..i] + [byte];
        i, chars, cps := i + 1, chars + 1, cps + [byte];
      } else {
        var width := if byte < 0xE0 then 2 else 3;
        if !MultiByte(segment[i..]) {
          NothingFollows(rest);
          assert Stuck(segment, i, cps);
          NoDecoding(segment, i, cps);
          return InvalidCharacter, chars;
        }
        ghost var c := CodePoint(rest);
        WellFormedContinues(rest);
        EncodeAppend(cps, c);
        assert segment[..i + width] == segment[..i] + rest[..width];
        i, chars, cps := i + width, chars + 1, cps + [c];
      }
    }
    assert segment[..i] == segment;
    forall other | Decodes(segment, other) ensures |other| == chars {
      DecodingIsUnique(segment, cps, other);
    }
    verdict := Valid;
  }

  lemma NoDecoding(segment: seq<Byte>, i: nat, cps: seq<int>)
    requires Stuck(segment, i, cps)
    ensures !exists other :: Decodes(segment, other)
  {
    if other :| Decodes(segment, other) {
      TextContinues(segment, i, cps, other);
    }
  }

  lemma EncodeNothing()
    ensures Encode([]) == []
  {
  }

  lemma EncodeAscii(c: int)
    requires AllowedAscii(c)
    ensures Allowed(c) && EncodeOne(c) == [c]
  {
  }
}
