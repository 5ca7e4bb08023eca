/** UUIDs of version 7 (section 5.7 of RFC 9562): layout, text form and validation. */
module Uuids {
  import Lists
  import opened Strings

  type Byte = b: int | 0 <= b < 256

  // ---------------------------------------------------------------- text

  function HexDigit(n: int): char
    requires 0 <= n < 16
  {
    if n < 10 then '0' + n as char else 'a' + (n - 10) as char
  }

  function HexByte(b: Byte): string {
    [HexDigit(b / 16), HexDigit(b % 16)]
  }

  lemma DigitsLowerCase(n: int)
    requires 0 <= n < 16
    ensures HexDigit(n) == "0123456789abcdef"[n]
  {
  }

  /** Two lower-case hexadecimal digits for each byte. */
  function Hex(bs: seq<Byte>): (s: string)
    ensures |s| == 2 * |bs|
  {
    if bs == [] then "" else Hex(bs[..|bs| - 1]) + HexByte(bs[|bs| - 1])
  }

  /** Groups of 8, 4, 4, 4 and 12 digits. */
  function Format(bs: seq<Byte>): (s: string)
    requires |bs| == 16
    ensures |s| == 36
  {
    Hex(bs[..4]) + "-" + Hex(bs[4..6]) + "-" + Hex(bs[6..8]) + "-" + Hex(bs[8..10]) + "-" + Hex(bs[10..])
  }

  method HexEncode(dst: array<char>, at: nat, src: seq<Byte>)
    requires at + 2 * |src| <= dst.Length
    modifies dst
    ensures dst[..] == old(dst[..at]) + Hex(src) + old(dst[at + 2 * |src|..])
  {
    var i := 0;
    while i < |src|
      invariant 0 <= i <= |src|
      invariant dst[..at + 2 * i] == old(dst[..at]) + Hex(src[..i])
      invariant dst[at + 2 * i..] == old(dst[at + 2 * i..])
    {
      HexMore(src, i);
      Lists.Assoc(old(dst[..at]), Hex(src[..i]), HexByte(src[i]));
      ghost var pos, rest := at + 2 * i, dst[at + 2 * i..];
      assert dst[pos + 2..] == rest[2..] == old(dst[pos + 2..]);
      PutByte(dst, at + 2 * i, src[i]);
      assert dst[..pos + 2] == old(dst[..at]) + Hex(src[..i + 1]);
      i := i + 1;
      assert at + 2 * i == pos + 2;
    }
    assert src[..i] == src;
    assert dst[..] == dst[..at + 2 * i] + dst[at + 2 * i..];
  }

  /** The body of the loop: the two digits of one byte. */
  method PutByte(dst: array<char>, at: nat, b: Byte)
    requires at + 2 <= dst.Length
    modifies dst
    ensures dst[..at + 2] == old(dst[..at]) + HexByte(b)
    ensures dst[at + 2..] == old(dst[at + 2..])
  {
    ghost var rest := dst[at + 2..];
    dst[at] := HexDigit(b / 16);
    dst[at + 1] := HexDigit(b % 16);
    assert dst[at + 2..] == rest;
  }

  lemma HexMore(src: seq<Byte>, i: nat)
    requires i < |src|
    ensures Hex(src[..i + 1]) == Hex(src[..i]) + HexByte(src[i])
  {
    assert src[..i + 1][..i] == src[..i];
  }

  /** One group of digits and the hyphen after it. */
  method EncodeGroup(dst: array<char>, at: nat, src: seq<Byte>)
    requires at + 2 * |src| < dst.Length
    modifies dst
    ensures dst[..at + 2 * |src| + 1] == old(dst[..at]) + Hex(src) + "-"
  {
    HexEncode(dst, at, src);
    ghost var done := dst[..at + 2 * |src|];
    assert done == old(dst[..at]) + Hex(src);
    dst[at + 2 * |src|] := '-';
    assert dst[..at + 2 * |src| + 1] == done + ['-'];
  }

  /** The groups that a hyphen follows. */
  method EncodeGroups(out: array<char>, b: array<Byte>)
    requires out.Length == 36 && b.Length == 16
    modifies out
    ensures var bs := b[..];
            out[..24] == Hex(bs[..4]) + "-" + Hex(bs[4..6]) + "-" + Hex(bs[6..8]) + "-" + Hex(bs[8..10]) + "-"
  {
    assert out[..0] == "";
    EncodeGroup(out, 0, b[0..4]);
    ghost var bs, first := b[..], out[..9];
    assert first == Hex(bs[..4]) + "-";
    EncodeGroup(out, 9, b[4..6]);
    EncodeGroup(out, 14, b[6..8]);
    EncodeGroup(out, 19, b[8..10]);
  }

  method FormatUuid(b: array<Byte>) returns (s: string)
    requires b.Length == 16
    ensures s == Format(b[..])
  {
    var out := new char[36];
    EncodeGroups(out, b);
    ghost var bs, groups := b[..], out[..24];
    assert out[36..] == "" && b[10..16] == bs[10..];
    HexEncode(out, 24, b[10..16]);
    s := out[..];
    assert s == groups + Hex(bs[10..]) + "";
  }

  // ---------------------------------------------------------------- layout

  /** The low 48 bits of `ms`, most significant byte first. */
  function TimeBytes(ms: nat): (r: seq<Byte>)
    ensures |r| == 6
  {
    [ms / 0x100_0000_0000 % 256, ms / 0x1_0000_0000 % 256, ms / 0x100_0000 % 256,
     ms / 0x1_0000 % 256, ms / 0x100 % 256, ms % 256]
  }

  /** Time, then random bytes whose version nibble is set to 7 and variant bits to 10. */
  function Layout(ms: nat, random: seq<Byte>): (r: seq<Byte>)
    requires |random| == 10
    ensures |r| == 16
  {
    TimeBytes(ms) + [random[0] % 16 + 0x70, random[1], random[2] % 64 + 0x80] + random[3..]
  }

  /** The bytes as they are written: time first, then random bytes, then the fixed bits. */
  method NewUuid7(ms: nat, random: seq<Byte>) returns (s: string)
    requires |random| == 10
    ensures s == Format(Layout(ms, random))
  {
    var b := new Byte[16](_ => 0);
    b[0] := ms / 0x100_0000_0000 % 256;
    b[1] := ms / 0x1_0000_0000 % 256;
    b[2] := ms / 0x100_0000 % 256;
    b[3] := ms / 0x1_0000 % 256;
    b[4] := ms / 0x100 % 256;
    b[5] := ms % 256;
    forall i | 6 <= i < 16 {
      b[i] := random[i - 6];
    }
    b[6] := b[6] % 16 + 0x70;
    b[8] := b[8] % 64 + 0x80;
    assert b[..] == Layout(ms, random);
    s := FormatUuid(b);
  }

  /** The big-endian value of some bytes. */
  function Value(bs: seq<Byte>): nat {
    if bs == [] then 0 else 256 * Value(bs[..|bs| - 1]) + bs[|bs| - 1]
  }

  function BigEndian(n: nat, k: nat): (r: seq<Byte>)
    ensures |r| == k
  {
    if k == 0 then [] else BigEndian(n / 256, k - 1) + [n % 256]
  }

  function Pow256(k: nat): nat {
    if k == 0 then 1 else 256 * Pow256(k - 1)
  }

  lemma {:induction false} BigEndianValue(n: nat, k: nat)
    requires n < Pow256(k)
    ensures Value(BigEndian(n, k)) == n
  {
    if k != 0 {
      BigEndianValue(n / 256, k - 1);
      assert BigEndian(n, k)[..k - 1] == BigEndian(n / 256, k - 1);
    }
  }

  /** The shifts take the bytes of the big-endian form. */
  lemma TimeBytesBigEndian(ms: nat)
    requires ms < 0x1_0000_0000_0000
    ensures TimeBytes(ms) == BigEndian(ms, 6)
  {
    var n1 := ms / 256;
    var n2 := n1 / 256;
    var n3 := n2 / 256;
    var n4 := n3 / 256;
    var n5 := n4 / 256;
    assert n2 == ms / 0x1_0000 && n3 == ms / 0x100_0000;
    assert n4 == ms / 0x1_0000_0000 && n5 == ms / 0x100_0000_0000;
    assert BigEndian(n5, 1) == [n5];
    assert BigEndian(n4, 2) == [n5, n4 % 256];
    assert BigEndian(n3, 3) == [n5, n4 % 256, n3 % 256];
    assert BigEndian(n2, 4) == [n5, n4 % 256, n3 % 256, n2 % 256];
    assert BigEndian(n1, 5) == [n5, n4 % 256, n3 % 256, n2 % 256, n1 % 256];
  }

  /** The time is recoverable from the bytes, up to 48 bits. */
  lemma TimeRecovered(ms: nat)
    requires ms < 0x1_0000_0000_0000
    ensures Value(TimeBytes(ms)) == ms
  {
    TimeBytesBigEndian(ms);
    assert Pow256(3) == 0x100_0000;
    BigEndianValue(ms, 6);
  }

  /** Version 7 and the RFC variant, whatever the random bytes. */
  lemma FixedBits(ms: nat, random: seq<Byte>)
    requires |random| == 10
    ensures Layout(ms, random)[6] / 16 == 7 && Layout(ms, random)[8] / 64 == 2
  {
  }

  // ---------------------------------------------------------------- the text determines the bytes

  lemma {:induction false} HexAt(bs: seq<Byte>, i: nat)
    requires i < |bs|
    ensures Hex(bs)[2 * i] == HexDigit(bs[i] / 16) && Hex(bs)[2 * i + 1] == HexDigit(bs[i] % 16)
  {
    if i < |bs| - 1 {
      HexAt(bs[..|bs| - 1], i);
    }
  }

  predicate HyphenAt(i: int) {
    i == 8 || i == 13 || i == 18 || i == 23
  }

  /** Where the two digits of byte `i` stand in the text. */
  function TextPos(i: nat): nat
    requires i < 16
  {
    2 * i + (if i < 4 then 0 else if i < 6 then 1 else if i < 8 then 2 else if i < 10 then 3 else 4)
  }

  lemma FormatAt(bs: seq<Byte>, i: nat)
    requires |bs| == 16 && i < 16
    ensures Format(bs)[TextPos(i)] == HexDigit(bs[i] / 16)
    ensures Format(bs)[TextPos(i) + 1] == HexDigit(bs[i] % 16)
  {
    GroupsAt(Hex(bs[..4]), Hex(bs[4..6]), Hex(bs[6..8]), Hex(bs[8..10]), Hex(bs[10..]));
    var s := Format(bs);
    if i < 4 {
      HexAt(bs[..4], i);
      assert s[..8][2 * i] == s[TextPos(i)] && s[..8][2 * i + 1] == s[TextPos(i) + 1];
    } else if i < 6 {
      HexAt(bs[4..6], i - 4);
      assert s[9..13][2 * i - 8] == s[TextPos(i)] && s[9..13][2 * i - 7] == s[TextPos(i) + 1];
    } else if i < 8 {
      HexAt(bs[6..8], i - 6);
      assert s[14..18][2 * i - 12] == s[TextPos(i)] && s[14..18][2 * i - 11] == s[TextPos(i) + 1];
    } else if i < 10 {
      HexAt(bs[8..10], i - 8);
      assert s[19..23][2 * i - 16] == s[TextPos(i)] && s[19..23][2 * i - 15] == s[TextPos(i) + 1];
    } else {
      HexAt(bs[10..], i - 10);
      assert s[24..][2 * i - 20] == s[TextPos(i)] && s[24..][2 * i - 19] == s[TextPos(i) + 1];
    }
  }

  /** Where the five groups stand. */
  lemma GroupsAt(g1: string, g2: string, g3: string, g4: string, g5: string)
    requires |g1| == 8 && |g2| == |g3| == |g4| == 4 && |g5| == 12
    ensures var s := g1 + "-" + g2 + "-" + g3 + "-" + g4 + "-" + g5;
            s[..8] == g1 && s[9..13] == g2 && s[14..18] == g3 && s[19..23] == g4 && s[24..] == g5
  {
  }

  /** Different bytes have different texts. */
  lemma FormatInjective(a: seq<Byte>, b: seq<Byte>)
    requires |a| == 16 && |b| == 16 && Format(a) == Format(b)
    ensures a == b
  {
    forall i | 0 <= i < 16
      ensures a[i] == b[i]
    {
      FormatAt(a, i);
      FormatAt(b, i);
    }
  }

  /** Two random strings agree but for the bits that version and variant replace. */
  predicate SameFreeBits(r: seq<Byte>, t: seq<Byte>)
    requires |r| == 10 && |t| == 10
  {
    r[0] % 16 == t[0] % 16 && r[1] == t[1] && r[2] % 64 == t[2] % 64 && r[3..] == t[3..]
  }

  lemma LayoutParts(ms: nat, random: seq<Byte>)
    requires |random| == 10
    ensures var b := Layout(ms, random);
            && b[..6] == TimeBytes(ms) && b[6] == random[0] % 16 + 0x70 && b[7] == random[1]
            && b[8] == random[2] % 64 + 0x80 && b[9..] == random[3..]
  {
  }

  /** Two texts are equal exactly when time and random bits are, the six fixed bits apart. */
  lemma TextTellsTimeAndRandom(ms: nat, r: seq<Byte>, ms': nat, r': seq<Byte>)
    requires ms < 0x1_0000_0000_0000 && ms' < 0x1_0000_0000_0000 && |r| == 10 && |r'| == 10
    ensures Format(Layout(ms, r)) == Format(Layout(ms', r')) <==> ms == ms' && SameFreeBits(r, r')
  {
    LayoutParts(ms, r);
    LayoutParts(ms', r');
    if Format(Layout(ms, r)) == Format(Layout(ms', r')) {
      FormatInjective(Layout(ms, r), Layout(ms', r'));
      TimeRecovered(ms);
      TimeRecovered(ms');
    }
  }

  // ---------------------------------------------------------------- order

  /** Strings compare by their first difference, as Go compares them. */
  ghost predicate FirstDifferenceLess(s: string, t: string, k: nat) {
    k < |s| && k < |t| && s[..k] == t[..k] && s[k] < t[k]
  }

  lemma {:induction false} FirstByteLess(a: seq<Byte>, b: seq<Byte>) returns (k: nat)
    requires |a| == |b| && Value(a) < Value(b)
    ensures k < |a| && a[..k] == b[..k] && a[k] < b[k]
  {
    var n := |a| - 1;
    if Value(a[..n]) < Value(b[..n]) {
      k := FirstByteLess(a[..n], b[..n]);
      assert a[..k] == a[..n][..k] && b[..k] == b[..n][..k];
    } else {
      ValueInjective(a[..n], b[..n]);
      k := n;
    }
  }

  lemma {:induction false} ValueInjective(a: seq<Byte>, b: seq<Byte>)
    requires |a| == |b| && Value(a) == Value(b)
    ensures a == b
  {
    if a == [] {
    } else {
      var n := |a| - 1;
      ValueInjective(a[..n], b[..n]);
      assert a == a[..n] + [a[n]] && b == b[..n] + [b[n]];
    }
  }

  /** The byte whose digit stands at position `p` of the first two groups. */
  function ByteAt(p: nat): nat {
    if p < 8 then p / 2 else (p - 1) / 2
  }

  lemma SameDigit(a: seq<Byte>, b: seq<Byte>, p: nat)
    requires |a| == 16 && |b| == 16 && p < 13
    requires p == 8 || a[ByteAt(p)] == b[ByteAt(p)]
    ensures Format(a)[p] == Format(b)[p]
  {
    if p != 8 {
      FormatAt(a, ByteAt(p));
      FormatAt(b, ByteAt(p));
      assert p == TextPos(ByteAt(p)) || p == TextPos(ByteAt(p)) + 1;
    }
  }

  /** Texts agree before the digits of the first byte that differs. */
  lemma SameTextBefore(a: seq<Byte>, b: seq<Byte>, k: nat)
    requires |a| == 16 && |b| == 16 && k < 6 && a[..k] == b[..k]
    ensures Format(a)[..TextPos(k)] == Format(b)[..TextPos(k)]
  {
    var s, t := Format(a), Format(b);
    forall p | 0 <= p < TextPos(k)
      ensures s[p] == t[p]
    {
      if p != 8 {
        assert ByteAt(p) < k;
        assert a[..k][ByteAt(p)] == b[..k][ByteAt(p)];
      }
      SameDigit(a, b, p);
    }
  }

  lemma ByteDifferenceShows(a: seq<Byte>, b: seq<Byte>, k: nat) returns (p: nat)
    requires |a| == 16 && |b| == 16 && k < 6 && a[..k] == b[..k] && a[k] < b[k]
    ensures FirstDifferenceLess(Format(a), Format(b), p)
  {
    SameTextBefore(a, b, k);
    FormatAt(a, k);
    FormatAt(b, k);
    p := DigitsDiffer(Format(a), Format(b), TextPos(k), a[k], b[k]);
  }

  lemma DigitsDiffer(s: string, t: string, p: nat, x: Byte, y: Byte) returns (q: nat)
    requires p + 1 < |s| && p + 1 < |t| && s[..p] == t[..p] && x < y
    requires s[p] == HexDigit(x / 16) && s[p + 1] == HexDigit(x % 16)
    requires t[p] == HexDigit(y / 16) && t[p + 1] == HexDigit(y % 16)
    ensures FirstDifferenceLess(s, t, q)
  {
    q := p;
    if x / 16 == y / 16 {
      assert s[..p + 1] == s[..p] + [s[p]] && t[..p + 1] == t[..p] + [t[p]];
      q := p + 1;
    }
  }

  /** Texts made at strictly later milliseconds are strictly greater strings. */
  lemma TextOrderFollowsTime(ms1: nat, r1: seq<Byte>, ms2: nat, r2: seq<Byte>) returns (p: nat)
    requires |r1| == 10 && |r2| == 10 && ms1 < ms2 < 0x1_0000_0000_0000
    ensures FirstDifferenceLess(Format(Layout(ms1, r1)), Format(Layout(ms2, r2)), p)
  {
    var a, b := Layout(ms1, r1), Layout(ms2, r2);
    TimeRecovered(ms1);
    TimeRecovered(ms2);
    assert a[..6] == TimeBytes(ms1) && b[..6] == TimeBytes(ms2);
    var k := FirstByteLess(a[..6], b[..6]);
    assert a[..k] == a[..6][..k] && b[..k] == b[..6][..k];
    p := ByteDifferenceShows(a, b, k);
  }

  // ---------------------------------------------------------------- validation

  function LowerChar(c: char): char {
    if 'A' <= c <= 'Z' then 'a' + (c - 'A') else c
  }

  function ToLower(s: string): (r: string)
    ensures |r| == |s| && forall i :: 0 <= i < |s| ==> r[i] == LowerChar(s[i])
  {
    seq(|s|, i requires 0 <= i < |s| => LowerChar(s[i]))
  }

  predicate IsHex(c: char) {
    '0' <= c <= '9' || 'a' <= c <= 'f' || 'A' <= c <= 'F'
  }

  /** The string without its hyphens. */
  function Strip(s: string): (r: string)
    ensures |r| <= |s|
  {
    if s == "" then "" else Strip(s[..|s| - 1]) + (if s[|s| - 1] == '-' then "" else [s[|s| - 1]])
  }

  /** 8-4-4-4-12 hexadecimal digits of either case. */
  predicate IsUuidText(s: string) {
    |s| == 36 && forall i :: 0 <= i < 36 ==> if HyphenAt(i) then s[i] == '-' else IsHex(s[i])
  }

  datatype UuidCheck = UuidOk | BadLength | MissingHyphens | BadHexLength | BadHex

  method ValidateUuid(s: string) returns (r: UuidCheck)
    ensures r.UuidOk? <==> IsUuidText(TrimSpace(s))
  {
    var t := ToLower(TrimSpace(s));
    LowerKeepsShape(TrimSpace(s));
    if |t| != 36 {
      return BadLength;
    }
    if t[8] != '-' || t[13] != '-' || t[18] != '-' || t[23] != '-' {
      return MissingHyphens;
    }
    var hexPart := Strip(t);
    StripHyphens(t);
    if |hexPart| != 32 {
      return BadHexLength;
    }
    if exists i :: 0 <= i < |hexPart| && !IsHex(hexPart[i]) {
      return BadHex;
    }
    r := UuidOk;
  }

  lemma LowerKeepsShape(s: string)
    ensures IsUuidText(ToLower(s)) <==> IsUuidText(s)
  {
    forall i | 0 <= i < |s|
      ensures IsHex(ToLower(s)[i]) <==> IsHex(s[i])
      ensures ToLower(s)[i] == '-' <==> s[i] == '-'
    {
    }
  }

  lemma {:induction false} StripConcat(a: string, b: string)
    ensures Strip(a + b) == Strip(a) + Strip(b)
  {
    if b == "" {
      assert a + b == a;
    } else {
      StripConcat(a, b[..|b| - 1]);
      assert (a + b)[..|a + b| - 1] == a + b[..|b| - 1];
    }
  }

  /** A string that loses nothing by stripping has no hyphen and is left as it is. */
  lemma {:induction false} StripNone(s: string)
    ensures |Strip(s)| == |s| <==> '-' !in s
    ensures '-' !in s ==> Strip(s) == s
  {
    if s == "" {
    } else {
      var init := s[..|s| - 1];
      StripNone(init);
      assert s == init + [s[|s| - 1]];
    }
  }

  lemma StripAfterHyphen(a: string, b: string)
    ensures Strip(a + "-" + b) == Strip(a) + Strip(b)
  {
    StripConcat(a + "-", b);
    assert (a + "-")[..|a|] == a;
  }

  /** Five groups joined by hyphens keep all their characters exactly when they have no other. */
  lemma StripGroups(g1: string, g2: string, g3: string, g4: string, g5: string)
    ensures var t := Strip(g1 + "-" + g2 + "-" + g3 + "-" + g4 + "-" + g5);
            var all := g1 + g2 + g3 + g4 + g5;
            (|t| == |all| <==> '-' !in all) && ('-' !in all ==> t == all)
  {
    StripAfterHyphen(g1 + "-" + g2 + "-" + g3 + "-" + g4, g5);
    StripAfterHyphen(g1 + "-" + g2 + "-" + g3, g4);
    StripAfterHyphen(g1 + "-" + g2, g3);
    StripAfterHyphen(g1, g2);
    StripConcat(g1 + g2 + g3 + g4, g5);
    StripConcat(g1 + g2 + g3, g4);
    StripConcat(g1 + g2, g3);
    StripConcat(g1, g2);
    StripNone(g1 + g2 + g3 + g4 + g5);
  }

  /** With hyphens in the four places, 32 characters are left only when there are no others,
      and then they are the five groups. */
  lemma StripHyphens(s: string)
    requires |s| == 36 && s[8] == s[13] == s[18] == s[23] == '-'
    ensures |Strip(s)| == 32 && (forall i :: 0 <= i < 32 ==> IsHex(Strip(s)[i])) <==> IsUuidText(s)
  {
    var g1, g2, g3, g4, g5 := s[..8], s[9..13], s[14..18], s[19..23], s[24..];
    var all := g1 + g2 + g3 + g4 + g5;
    assert s == g1 + "-" + g2 + "-" + g3 + "-" + g4 + "-" + g5;
    StripGroups(g1, g2, g3, g4, g5);
    GroupPositions(s, all);
  }

  /** Position of character `i` of the groups in the text. */
  function GroupPos(i: nat): nat {
    i + (if i < 8 then 0 else if i < 12 then 1 else if i < 16 then 2 else if i < 20 then 3 else 4)
  }

  lemma GroupPositions(s: string, all: string)
    requires |s| == 36 && s[8] == s[13] == s[18] == s[23] == '-'
    requires all == s[..8] + s[9..13] + s[14..18] + s[19..23] + s[24..]
    ensures |all| == 32
    ensures (forall i :: 0 <= i < 32 ==> IsHex(all[i])) <==> IsUuidText(s)
    ensures IsUuidText(s) ==> '-' !in all
  {
    forall i | 0 <= i < 32
      ensures all[i] == s[GroupPos(i)] && GroupPos(i) < 36 && !HyphenAt(GroupPos(i))
    {
    }
    if forall i :: 0 <= i < 32 ==> IsHex(all[i]) {
      forall p | 0 <= p < 36
        ensures if HyphenAt(p) then s[p] == '-' else IsHex(s[p])
      {
        if !HyphenAt(p) {
          var i := p - (if p < 8 then 0 else if p < 13 then 1 else if p < 18 then 2 else if p < 23 then 3 else 4);
          assert GroupPos(i) == p;
          assert IsHex(all[i]);
        }
      }
    }
  }

  lemma DigitPlace(bs: seq<Byte>, i: nat)
    requires |bs| == 16 && i < 36 && !HyphenAt(i)
    ensures IsHex(Format(bs)[i])
  {
    var b := if i < 8 then i / 2 else if i < 13 then (i - 1) / 2 else if i < 18 then (i - 2) / 2
             else if i < 23 then (i - 3) / 2 else (i - 4) / 2;
    FormatAt(bs, b);
  }

  /** Every formatted UUID is valid. */
  lemma FormatIsValid(bs: seq<Byte>)
    requires |bs| == 16
    ensures IsUuidText(Format(bs)) && TrimSpace(Format(bs)) == Format(bs)
  {
    var s := Format(bs);
    forall i | 0 <= i < 36
      ensures if HyphenAt(i) then s[i] == '-' else IsHex(s[i])
    {
      if !HyphenAt(i) {
        DigitPlace(bs, i);
      }
    }
    TrimSpaceId(s);
  }
}
