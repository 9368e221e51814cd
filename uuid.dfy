/**
 * Version-4 UUIDs (section 4.4 of RFC 4122) as the middleware uses them:
 * the textual parse done by `UUID(s, version=4)`, which either yields a 128-bit value
 * or fails, and the generator `str(uuid4())`, whose 16 random bytes are a parameter.
 */
module Uuid {
  import opened Wrappers
  import opened Strings

  predicate IsHexDigit(c: char)
  {
    '0' <= c <= '9' || 'a' <= c <= 'f' || 'A' <= c <= 'F'
  }

  function DigitValue(c: char): (v: nat)
    requires IsHexDigit(c)
    ensures v < 16
  {
    if c <= '9' then c as int - '0' as int
    else if c <= 'F' then c as int - 'A' as int + 10
    else c as int - 'a' as int + 10
  }

  function Pow16(n: nat): (p: nat)
    ensures p >= 1
  {
    if n == 0 then 1 else 16 * Pow16(n - 1)
  }

  predicate AllHex(h: string)
  {
    forall i :: 0 <= i < |h| ==> IsHexDigit(h[i])
  }

  /** `int(h, 16)` for a string of hexadecimal digits: an `|h|`-digit base-16 number. */
  function HexValue(h: string): (v: nat)
    requires AllHex(h)
    ensures v < Pow16(|h|)
  {
    if h == [] then 0
    else
      var w := HexValue(h[..|h| - 1]);
      var d := DigitValue(h[|h| - 1]);
      assert w * 16 + d < (w + 1) * 16 <= Pow16(|h| - 1) * 16;
      w * 16 + d
  }

  /** The hexadecimal part of a UUID string, as `UUID(hex=...)` extracts it:
      `urn:` and `uuid:` removed, `{` and `}` stripped from the ends, hyphens removed. */
  function HexPart(s: string): (h: string)
    ensures |h| <= |s|
  {
    RemoveAll(Strip(RemoveAll(RemoveAll(s, "urn:"), "uuid:"), "{}"), "-")
  }

  /** A comma is none of the characters the UUID parser removes, so it reaches the hexadecimal part. */
  lemma CommaReachesHexPart(s: string)
    ensures ',' in s ==> ',' in HexPart(s)
  {
    if ',' in s {
      var s1 := RemoveAll(s, "urn:");
      RemoveAllKeeps(s, "urn:", ',');
      var s2 := RemoveAll(s1, "uuid:");
      RemoveAllKeeps(s1, "uuid:", ',');
      var s3 := Strip(s2, "{}");
      StripKeeps(s2, "{}", ',');
      RemoveAllKeeps(s3, "-", ',');
    }
  }

  /** `UUID(s, version=4)`: the 128-bit value when the hexadecimal part is 32 digits, otherwise
      `None` (the `ValueError` the source catches). Only strings of at least 32 characters parse,
      and none of them holds a comma, so a UUID is always one whole token of a header. */
  function ParseUuid(s: string): (r: Option<nat>)
    ensures r.Some? ==> r.value < Pow16(32)
    ensures r.Some? ==> |s| >= 32 && ',' !in s
  {
    var h := HexPart(s);
    CommaReachesHexPart(s);
    if |h| == 32 && AllHex(h) then Some(HexValue(h)) else None
  }

  /** The `try: UUID(request_id, version=4)` test of `_request_id_unique`: the string parses. */
  function IsUuid(s: string): (parses: bool)
    ensures parses ==> |s| >= 32 && ',' !in s
  {
    ParseUuid(s).Some?
  }

  // ---------------------------------------------------------------- generation

  type Byte = b: int | 0 <= b < 256

  /** What `uuid4()` does to its 16 random bytes: the high nibble of byte 6 becomes the
      version 4 and the two top bits of byte 8 become the variant `10`; all other bits are kept. */
  function SetVersion4(random: seq<Byte>): (bs: seq<Byte>)
    requires |random| == 16
    ensures |bs| == 16
    ensures bs[6] / 16 == 4 && bs[6] % 16 == random[6] % 16
    ensures bs[8] / 64 == 2 && bs[8] % 64 == random[8] % 64
    ensures forall i :: 0 <= i < 16 && i != 6 && i != 8 ==> bs[i] == random[i]
  {
    random[6 := random[6] % 16 + 0x40][8 := random[8] % 64 + 0x80]
  }

  /** The big-endian value of a byte string. */
  function BytesValue(bs: seq<Byte>): nat
  {
    if bs == [] then 0 else BytesValue(bs[..|bs| - 1]) * 256 + bs[|bs| - 1]
  }

  const LowerHexDigits: string := "0123456789abcdef"

  predicate IsLowerHexDigit(c: char)
  {
    '0' <= c <= '9' || 'a' <= c <= 'f'
  }

  /** `'%032x' % value` for the bytes: two lower-case digits per byte, most significant first. */
  function HexOfBytes(bs: seq<Byte>): (h: string)
    ensures |h| == 2 * |bs|
    ensures forall i :: 0 <= i < |h| ==> IsLowerHexDigit(h[i])
  {
    if bs == [] then []
    else
      var b := bs[|bs| - 1];
      HexOfBytes(bs[..|bs| - 1]) + [LowerHexDigits[b / 16], LowerHexDigits[b % 16]]
  }

  lemma {:induction false} HexOfBytesAt(bs: seq<Byte>, k: nat)
    requires k < |bs|
    ensures HexOfBytes(bs)[2 * k] == LowerHexDigits[bs[k] / 16]
    ensures HexOfBytes(bs)[2 * k + 1] == LowerHexDigits[bs[k] % 16]
    decreases |bs|
  {
    if k < |bs| - 1 {
      HexOfBytesAt(bs[..|bs| - 1], k);
    }
  }

  lemma DigitValueOfLowerHex(k: nat)
    requires k < 16
    ensures IsHexDigit(LowerHexDigits[k]) && DigitValue(LowerHexDigits[k]) == k
  {
  }

  /** Two more digits at the end multiply the value by 256 and add the byte they spell. */
  lemma HexValueAppendTwo(h: string, x: char, y: char)
    requires AllHex(h) && IsHexDigit(x) && IsHexDigit(y)
    ensures AllHex(h + [x, y])
    ensures HexValue(h + [x, y]) == HexValue(h) * 256 + DigitValue(x) * 16 + DigitValue(y)
  {
    var hx := h + [x];
    assert (h + [x, y])[..|h| + 1] == hx && hx[..|h|] == h;
    assert HexValue(h + [x, y]) == HexValue(hx) * 16 + DigitValue(y);
    assert HexValue(hx) == HexValue(h) * 16 + DigitValue(x);
  }

  /** Reading the hexadecimal text back gives the value of the bytes written. */
  lemma {:induction false} HexOfBytesValue(bs: seq<Byte>)
    ensures AllHex(HexOfBytes(bs))
    ensures HexValue(HexOfBytes(bs)) == BytesValue(bs)
    decreases |bs|
  {
    if bs != [] {
      var front := bs[..|bs| - 1];
      var b := bs[|bs| - 1];
      HexOfBytesValue(front);
      DigitValueOfLowerHex(b / 16);
      DigitValueOfLowerHex(b % 16);
      HexValueAppendTwo(HexOfBytes(front), LowerHexDigits[b / 16], LowerHexDigits[b % 16]);
      assert (b / 16) * 16 + b % 16 == b;
    }
  }

  predicate IsHyphenPosition(i: int)
  {
    i == 8 || i == 13 || i == 18 || i == 23
  }

  /** The canonical text of a version-4 UUID: 36 characters, hyphens after the 8th, 12th, 16th and
      20th digit, lower-case digits elsewhere, version digit `4` and a variant digit of `89ab`. */
  predicate IsCanonicalUuid4(s: string)
  {
    && |s| == 36
    && (forall i :: 0 <= i < 36 ==> if IsHyphenPosition(i) then s[i] == '-' else IsLowerHexDigit(s[i]))
    && s[14] == '4'
    && s[19] in "89ab"
  }

  /** `str(uuid)` for 32 hexadecimal digits: the 8-4-4-4-12 grouping. */
  function Hyphenate(h: string): (s: string)
    requires |h| == 32
  {
    h[..8] + "-" + h[8..12] + "-" + h[12..16] + "-" + h[16..20] + "-" + h[20..]
  }

  /** Where each character of the grouped text comes from: a hyphen, or the digit it shows. */
  lemma HyphenateAt(h: string)
    requires |h| == 32
    ensures |Hyphenate(h)| == 36
    ensures forall i :: 0 <= i < 36 && IsHyphenPosition(i) ==> Hyphenate(h)[i] == '-'
    ensures forall i :: 0 <= i < 8 ==> Hyphenate(h)[i] == h[i]
    ensures forall i :: 9 <= i < 13 ==> Hyphenate(h)[i] == h[i - 1]
    ensures forall i :: 14 <= i < 18 ==> Hyphenate(h)[i] == h[i - 2]
    ensures forall i :: 19 <= i < 23 ==> Hyphenate(h)[i] == h[i - 3]
    ensures forall i :: 24 <= i < 36 ==> Hyphenate(h)[i] == h[i - 4]
  {
  }

  /** Removing the hyphens from the grouped text gives back the 32 digits. */
  lemma RemoveHyphensOfHyphenated(h: string)
    requires |h| == 32 && '-' !in h
    ensures RemoveAll(Hyphenate(h), "-") == h
  {
    var p1, p2, p3, p4, p5 := h[..8], h[8..12], h[12..16], h[16..20], h[20..];
    assert '-' !in p1 && '-' !in p2 && '-' !in p3 && '-' !in p4 && '-' !in p5;
    var a2 := p1 + "-" + p2;
    var a3 := a2 + "-" + p3;
    var a4 := a3 + "-" + p4;
    assert Hyphenate(h) == a4 + "-" + p5;
    RemoveAllAbsent(p1, "-", '-');
    RemoveCharJoin(p1, p2, '-');
    RemoveCharJoin(a2, p3, '-');
    RemoveCharJoin(a3, p4, '-');
    RemoveCharJoin(a4, p5, '-');
    assert p1 + p2 + p3 + p4 + p5 == h;
  }

  /** The parser recovers the digits, in either case, from their hyphenated text. */
  lemma HexPartOfHyphenated(h: string)
    requires |h| == 32 && AllHex(h)
    ensures HexPart(Hyphenate(h)) == h
  {
    var s := Hyphenate(h);
    HyphenateAt(h);
    assert ':' !in s by {
      forall i | 0 <= i < 36 ensures s[i] != ':' {
        if !IsHyphenPosition(i) {
          if i < 8 { assert s[i] == h[i]; }
          else if i < 13 { assert s[i] == h[i - 1]; }
          else if i < 18 { assert s[i] == h[i - 2]; }
          else if i < 23 { assert s[i] == h[i - 3]; }
          else { assert s[i] == h[i - 4]; }
        }
      }
    }
    RemoveAllAbsent(s, "urn:", ':');
    RemoveAllAbsent(s, "uuid:", ':');
    assert s[0] == h[0] && s[35] == h[31];
    StripUnchanged(s, "{}");
    assert '-' !in h by {
      forall i | 0 <= i < 32 ensures h[i] != '-' {
        assert IsHexDigit(h[i]);
      }
    }
    RemoveHyphensOfHyphenated(h);
  }

  /** Any 32 hexadecimal digits pass the `UUID(s, version=4)` test in the 8-4-4-4-12 form, in
      either case and whatever their version and variant digits: the parser never checks them. */
  lemma HyphenatedIsUuid(h: string)
    requires |h| == 32 && AllHex(h)
    ensures IsUuid(Hyphenate(h)) && ParseUuid(Hyphenate(h)) == Some(HexValue(h))
  {
    HexPartOfHyphenated(h);
  }

  /** The same 32 digits pass without hyphens: nothing is removed from them. */
  lemma UnhyphenatedIsUuid(h: string)
    requires |h| == 32 && AllHex(h)
    ensures IsUuid(h) && ParseUuid(h) == Some(HexValue(h))
  {
    assert ':' !in h && '-' !in h by {
      forall i | 0 <= i < 32 ensures h[i] != ':' && h[i] != '-' {
        assert IsHexDigit(h[i]);
      }
    }
    RemoveAllAbsent(h, "urn:", ':');
    RemoveAllAbsent(h, "uuid:", ':');
    assert IsHexDigit(h[0]) && IsHexDigit(h[31]);
    StripUnchanged(h, "{}");
    RemoveAllAbsent(h, "-", '-');
  }

  /** The 32 digits of a 36-character UUID text, hyphens dropped. */
  function Unhyphenate(s: string): (h: string)
    requires |s| == 36
    ensures |h| == 32
  {
    s[..8] + s[9..13] + s[14..18] + s[19..23] + s[24..]
  }

  lemma UnhyphenateAt(s: string)
    requires |s| == 36
    ensures forall i :: 0 <= i < 8 ==> Unhyphenate(s)[i] == s[i]
    ensures forall i :: 8 <= i < 12 ==> Unhyphenate(s)[i] == s[i + 1]
    ensures forall i :: 12 <= i < 16 ==> Unhyphenate(s)[i] == s[i + 2]
    ensures forall i :: 16 <= i < 20 ==> Unhyphenate(s)[i] == s[i + 3]
    ensures forall i :: 20 <= i < 32 ==> Unhyphenate(s)[i] == s[i + 4]
  {
  }

  lemma UnhyphenateLowerHex(s: string)
    requires IsCanonicalUuid4(s)
    ensures forall i :: 0 <= i < 32 ==> IsLowerHexDigit(Unhyphenate(s)[i])
  {
    var h := Unhyphenate(s);
    UnhyphenateAt(s);
    forall i | 0 <= i < 32 ensures IsLowerHexDigit(h[i]) {
      if i < 8 { assert !IsHyphenPosition(i); }
      else if i < 12 { assert !IsHyphenPosition(i + 1); }
      else if i < 16 { assert !IsHyphenPosition(i + 2); }
      else if i < 20 { assert !IsHyphenPosition(i + 3); }
      else { assert !IsHyphenPosition(i + 4); }
    }
  }

  /** Grouping the digits of a hyphenated text again rebuilds that text. */
  lemma HyphenateUnhyphenate(s: string)
    requires |s| == 36 && forall i :: 0 <= i < 36 && IsHyphenPosition(i) ==> s[i] == '-'
    ensures Hyphenate(Unhyphenate(s)) == s
  {
    var h := Unhyphenate(s);
    UnhyphenateAt(s);
    HyphenateAt(h);
    forall i | 0 <= i < 36 ensures Hyphenate(h)[i] == s[i] {
      if IsHyphenPosition(i) { }
      else if i < 8 { }
      else if i < 13 { assert h[i - 1] == s[i]; }
      else if i < 18 { assert h[i - 2] == s[i]; }
      else if i < 23 { assert h[i - 3] == s[i]; }
      else { assert h[i - 4] == s[i]; }
    }
  }

  /** Every canonically written version-4 UUID parses, and parses to the number its digits spell. */
  lemma CanonicalIsUuid(s: string)
    requires IsCanonicalUuid4(s)
    ensures IsUuid(s)
    ensures AllHex(Unhyphenate(s)) && ParseUuid(s) == Some(HexValue(Unhyphenate(s)))
  {
    var h := Unhyphenate(s);
    UnhyphenateLowerHex(s);
    HyphenateUnhyphenate(s);
    assert AllHex(h) by {
      forall i | 0 <= i < |h| ensures IsHexDigit(h[i]) {
        assert IsLowerHexDigit(h[i]);
      }
    }
    HexPartOfHyphenated(h);
    assert HexPart(s) == h;
  }

  /** The text of 16 bytes whose version and variant bits are set is a canonical version-4 UUID. */
  lemma CanonicalOfVersion4Bytes(bs: seq<Byte>)
    requires |bs| == 16 && bs[6] / 16 == 4 && bs[8] / 64 == 2
    ensures IsCanonicalUuid4(Hyphenate(HexOfBytes(bs)))
  {
    var h := HexOfBytes(bs);
    HyphenateAt(h);
    var s := Hyphenate(h);
    forall i | 0 <= i < 36 && !IsHyphenPosition(i) ensures IsLowerHexDigit(s[i]) {
      if i < 8 { }
      else if i < 13 { assert s[i] == h[i - 1]; }
      else if i < 18 { assert s[i] == h[i - 2]; }
      else if i < 23 { assert s[i] == h[i - 3]; }
      else { assert s[i] == h[i - 4]; }
    }
    HexOfBytesAt(bs, 6);
    HexOfBytesAt(bs, 8);
    assert s[14] == h[12] && s[19] == h[16];
    assert 8 <= bs[8] / 16 < 12;
  }

  /** `str(uuid4())` with `random` standing for `os.urandom(16)`: a canonical version-4 UUID whose
      parse gives back the random bytes with the version and variant bits set. */
  function GenerateRequestId(random: seq<Byte>): (id: string)
    requires |random| == 16
    ensures IsCanonicalUuid4(id)
    ensures IsUuid(id) && ',' !in id
    ensures ParseUuid(id) == Some(BytesValue(SetVersion4(random)))
  {
    var bs := SetVersion4(random);
    var h := HexOfBytes(bs);
    CanonicalOfVersion4Bytes(bs);
    HexOfBytesValue(bs);
    HyphenatedIsUuid(h);
    Hyphenate(h)
  }
}
