/** UTF-8 (section 3 of RFC 3629). The sources' shifts and masks are written as division and remainder. */
module Utf8 {
  import opened Bytes

  /** The encoding of one code point: the table of section 3 of RFC 3629. */
  function Encode(pt: int): (s: bytes)
    requires 0 <= pt <= 0x10FFFF
    ensures 1 <= |s| <= 4
  {
    if pt < 0x80 then
      [pt]
    else if pt < 0x800 then
      [0xC0 + pt / 0x40, 0x80 + pt % 0x40]
    else if pt < 0x10000 then
      [0xE0 + pt / 0x1000, 0x80 + pt / 0x40 % 0x40, 0x80 + pt % 0x40]
    else
      [0xF0 + pt / 0x40000, 0x80 + pt / 0x1000 % 0x40, 0x80 + pt / 0x40 % 0x40, 0x80 + pt % 0x40]
  }

  predicate IsTail(b: byte) {
    0x80 <= b <= 0xBF
  }

  function Two(s: bytes): int
    requires |s| >= 2
  {
    (s[0] as int - 0xC0) * 0x40 + (s[1] as int - 0x80)
  }

  function Three(s: bytes): int
    requires |s| >= 3
  {
    (s[0] as int - 0xE0) * 0x1000 + (s[1] as int - 0x80) * 0x40 + (s[2] as int - 0x80)
  }

  function Four(s: bytes): int
    requires |s| >= 4
  {
    (s[0] as int - 0xF0) * 0x40000 + (s[1] as int - 0x80) * 0x1000 + (s[2] as int - 0x80) * 0x40 + (s[3] as int - 0x80)
  }

  /** Reads one code point off the front; the lead byte alone says how many bytes it takes, and a code point in more
      bytes than it needs is refused. */
  function Decode(s: bytes): Option<(int, bytes)> {
    if s == [] then None
    else if s[0] < 0x80 then
      Some((s[0], s[1..]))
    else if 0xC0 <= s[0] < 0xE0 && |s| >= 2 && IsTail(s[1]) && Two(s) >= 0x80 then
      Some((Two(s), s[2..]))
    else if 0xE0 <= s[0] < 0xF0 && |s| >= 3 && IsTail(s[1]) && IsTail(s[2]) && Three(s) >= 0x800 then
      Some((Three(s), s[3..]))
    else if 0xF0 <= s[0] && |s| >= 4 && IsTail(s[1]) && IsTail(s[2]) && IsTail(s[3])
            && 0x10000 <= Four(s) <= 0x10FFFF then
      Some((Four(s), s[4..]))
    else None
  }

  lemma DecodeFour(pt: int, s: bytes)
    requires 0x10000 <= pt <= 0x10FFFF && Encode(pt) <= s
    ensures Decode(s) == Some((pt, s[4..]))
  {
    assert s[0] == Encode(pt)[0] && s[1] == Encode(pt)[1] && s[2] == Encode(pt)[2] && s[3] == Encode(pt)[3];
    assert pt / 0x40 == pt / 0x1000 * 0x40 + pt / 0x40 % 0x40;
    assert pt / 0x1000 == pt / 0x40000 * 0x40 + pt / 0x1000 % 0x40;
  }

  lemma DecodeThree(pt: int, s: bytes)
    requires 0x800 <= pt < 0x10000 && Encode(pt) <= s
    ensures Decode(s) == Some((pt, s[3..]))
  {
    assert s[0] == Encode(pt)[0] && s[1] == Encode(pt)[1] && s[2] == Encode(pt)[2];
    assert pt / 0x40 == pt / 0x1000 * 0x40 + pt / 0x40 % 0x40;
  }

  /** Decoding inverts encoding, whatever follows. */
  lemma DecodeEncode(pt: int, rest: bytes)
    requires 0 <= pt <= 0x10FFFF
    ensures Decode(Encode(pt) + rest) == Some((pt, rest))
  {
    var s := Encode(pt) + rest;
    assert s[|Encode(pt)|..] == rest;
    if pt < 0x80 {
      assert s[0] == pt;
    } else if pt < 0x800 {
      assert s[0] == 0xC0 + pt / 0x40 && s[1] == 0x80 + pt % 0x40;
    } else if pt < 0x10000 {
      DecodeThree(pt, s);
    } else {
      DecodeFour(pt, s);
    }
  }

  lemma ThreeDigits(pt: int, a: int, b: int, c: int)
    requires pt == a * 0x1000 + b * 0x40 + c && 0 <= b < 0x40 && 0 <= c < 0x40
    ensures pt / 0x1000 == a && pt / 0x40 % 0x40 == b && pt % 0x40 == c
  {
    assert pt / 0x40 == a * 0x40 + b;
  }

  lemma FourDigits(pt: int, a: int, b: int, c: int, d: int)
    requires pt == a * 0x40000 + b * 0x1000 + c * 0x40 + d && 0 <= b < 0x40 && 0 <= c < 0x40 && 0 <= d < 0x40
    ensures pt / 0x40000 == a && pt / 0x1000 % 0x40 == b && pt / 0x40 % 0x40 == c && pt % 0x40 == d
  {
    ThreeDigits(pt, a * 0x40 + b, c, d);
    assert pt / 0x1000 == a * 0x40 + b;
  }

  lemma EncodeThree(s: bytes)
    requires |s| >= 3 && 0xE0 <= s[0] < 0xF0 && IsTail(s[1]) && IsTail(s[2]) && Three(s) >= 0x800
    ensures Three(s) < 0x10000 && s == Encode(Three(s)) + s[3..]
  {
    ThreeDigits(Three(s), s[0] as int - 0xE0, s[1] as int - 0x80, s[2] as int - 0x80);
    assert Encode(Three(s)) == s[..3];
  }

  lemma EncodeFour(s: bytes)
    requires |s| >= 4 && 0xF0 <= s[0] && IsTail(s[1]) && IsTail(s[2]) && IsTail(s[3]) && 0x10000 <= Four(s) <= 0x10FFFF
    ensures s == Encode(Four(s)) + s[4..]
  {
    FourDigits(Four(s), s[0] as int - 0xF0, s[1] as int - 0x80, s[2] as int - 0x80, s[3] as int - 0x80);
    assert Encode(Four(s)) == s[..4];
  }

  /** Encoding inverts decoding: nothing but encodings is decoded. */
  lemma EncodeDecode(s: bytes)
    requires Decode(s).Some?
    ensures var (pt, rest) := Decode(s).value; 0 <= pt <= 0x10FFFF && s == Encode(pt) + rest
  {
    if s[0] < 0x80 {
      assert Encode(s[0]) == s[..1];
    } else if s[0] < 0xE0 {
      assert Encode(Two(s)) == s[..2];
    } else if s[0] < 0xF0 {
      EncodeThree(s);
    } else {
      EncodeFour(s);
    }
  }

  predicate IsLead(u: int) {
    0xD800 <= u <= 0xDBFF
  }

  predicate IsTrail(u: int) {
    0xDC00 <= u <= 0xDFFF
  }

  /** The astral code point of a surrogate pair. */
  function Pair(lead: int, trail: int): (pt: int)
    requires IsLead(lead) && IsTrail(trail)
    ensures 0x10000 <= pt <= 0x10FFFF
  {
    (lead - 0xD800) * 0x400 + (trail - 0xDC00) + 0x10000
  }

  /** Pairing is one-to-one, and reaches every code point beyond the basic plane. */
  lemma PairBijective(pt: int)
    requires 0x10000 <= pt <= 0x10FFFF
    ensures exists lead, trail :: IsLead(lead) && IsTrail(trail) && Pair(lead, trail) == pt
    ensures forall l, t, l', t' ::
              IsLead(l) && IsTrail(t) && IsLead(l') && IsTrail(t') && Pair(l, t) == Pair(l', t') ==> l == l' && t == t'
  {
    var lead := 0xD800 + (pt - 0x10000) / 0x400;
    var trail := 0xDC00 + (pt - 0x10000) % 0x400;
    assert IsLead(lead) && IsTrail(trail) && Pair(lead, trail) == pt;
  }
}
