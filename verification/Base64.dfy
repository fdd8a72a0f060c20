/** The base64 codec, section 4 of RFC 4648, with a decoder that skips what is not in the alphabet. */
module Base64 {
  import opened Bytes

  const PAD: byte := 61

  predicate IsBase64(c: byte) {
    65 <= c <= 90 || 97 <= c <= 122 || 48 <= c <= 57 || c == 43 || c == 47
  }

  predicate AllBase64(s: bytes) {
    forall k :: 0 <= k < |s| ==> IsBase64(s[k])
  }

  /** `base64_chars[i]` */
  function Letter(i: nat): (c: byte)
    requires i < 64
    ensures IsBase64(c)
  {
    if i < 26 then 65 + i
    else if i < 52 then 97 + (i - 26)
    else if i < 62 then 48 + (i - 52)
    else if i == 62 then 43
    else 47
  }

  /** `strchr(base64_chars, c) - base64_chars`; the terminating NUL is found at 64. */
  function Index(c: byte): (i: byte)
    requires IsBase64(c) || c == NUL
    ensures i <= 64 && (i == 64 <==> c == NUL)
  {
    if c == NUL then 64
    else if 65 <= c <= 90 then c - 65
    else if 97 <= c <= 122 then c - 97 + 26
    else if 48 <= c <= 57 then c - 48 + 52
    else if c == 43 then 62
    else 63
  }

  lemma IndexInvertsLetter(i: nat)
    requires i < 64
    ensures Index(Letter(i)) == i
  {
  }

  // ----- encoding

  function Letters(sextets: seq<byte>): (s: bytes)
    requires forall k :: 0 <= k < |sextets| ==> sextets[k] < 64
    ensures |s| == |sextets| && AllBase64(s)
  {
    seq(|sextets|, k requires 0 <= k < |sextets| => Letter(sextets[k]))
  }

  function MiddleHigh(x: byte, y: byte): byte { x % 4 * 16 + y / 16 }
  function MiddleLow(y: byte, z: byte): byte { y % 16 * 4 + z / 64 }

  /** The 24 bits of three bytes, six at a time. */
  function Sextets(x: byte, y: byte, z: byte): (s: seq<byte>)
    ensures |s| == 4 && forall k :: 0 <= k < 4 ==> s[k] < 64
  {
    [x / 4, MiddleHigh(x, y), MiddleLow(y, z), z % 64]
  }

  function Quad(x: byte, y: byte, z: byte): (s: bytes)
    ensures |s| == 4 && AllBase64(s)
  {
    Letters(Sextets(x, y, z))
  }

  /** Three bytes to four letters; one or two bytes left over, with zero bits after them, to two or three letters and
      padding. */
  function Encoded(b: bytes): bytes {
    if b == [] then []
    else if |b| == 1 then Quad(b[0], 0, 0)[..2] + [PAD, PAD]
    else if |b| == 2 then Quad(b[0], b[1], 0)[..3] + [PAD]
    else Quad(b[0], b[1], b[2]) + Encoded(b[3..])
  }

  /** `b64len` */
  function EncodedLength(n: nat): nat {
    (n + 2 - (n + 2) % 3) * 4 / 3
  }

  lemma FourForThree(k: nat, n: nat)
    requires 3 * k <= n + 2 < 3 * k + 3
    ensures EncodedLength(n) == 4 * k
  {
    assert n + 2 - (n + 2) % 3 == 3 * k;
  }

  lemma {:induction false} WholeQuads(b: bytes) returns (k: nat)
    ensures |Encoded(b)| == 4 * k
    ensures 3 * k <= |b| + 2 < 3 * k + 3
  {
    hide Quad;
    if |b| > 2 {
      k := WholeQuads(b[3..]);
      k := k + 1;
    } else {
      k := if b == [] then 0 else 1;
    }
  }

  /** The encoder produces the length it computes beforehand: four letters for every three bytes begun. */
  lemma EncodedHasItsLength(b: bytes)
    ensures |Encoded(b)| == EncodedLength(|b|)
    ensures 0 < |b| < 3 ==> |Encoded(b)| == 4
    ensures b == [] ==> Encoded(b) == []
  {
    hide EncodedLength, Encoded;
    var k := WholeQuads(b);
    FourForThree(k, |b|);
  }

  // ----- what section 4 of RFC 4648 asks for

  const UPPER := Ascii("ABCDEFGHIJKLMNOPQRSTUVWXYZ")
  const LOWER := Ascii("abcdefghijklmnopqrstuvwxyz")
  const OTHERS := Ascii("0123456789+/")
  const ALPHABET := UPPER + LOWER + OTHERS

  /** The place of a character in the alphabet; 64 when it has none. */
  function Place(c: byte, from: nat): nat
    requires from <= 64
    decreases 64 - from
  {
    if from == 64 then 64 else if ALPHABET[from] == c then from else Place(c, from + 1)
  }

  lemma UpperCase(i: nat)
    requires i < 26
    ensures UPPER[i] == 65 + i
  {
  }

  lemma LowerCase(i: nat)
    requires i < 26
    ensures LOWER[i] == 97 + i
  {
  }

  lemma Other(i: nat)
    requires i < 12
    ensures OTHERS[i] == if i < 10 then 48 + i else if i == 10 then 43 else 47
  {
  }

  lemma AlphabetIsLetters(i: nat)
    requires i < 64
    ensures |ALPHABET| == 64 && ALPHABET[i] == Letter(i)
  {
    if i < 26 {
      UpperCase(i);
    } else if i < 52 {
      LowerCase(i - 26);
    } else {
      Other(i - 52);
    }
  }

  lemma {:induction false} PlaceOfLetter(i: nat, from: nat)
    requires from <= i < 64
    ensures Place(Letter(i), from) == i
    decreases i - from
  {
    hide Letter;
    AlphabetIsLetters(from);
    if from < i {
      IndexInvertsLetter(from);
      IndexInvertsLetter(i);
      hide Index;
      PlaceOfLetter(i, from + 1);
    }
  }

  /** Four letters spell three bytes: as a number to base 64 and as a number to base 256 they are the same. */
  predicate Spells(letters: bytes, b: bytes)
    requires |letters| == 4 && |b| == 3
  {
    && (forall k :: 0 <= k < 4 ==> Place(letters[k], 0) < 64)
    && Place(letters[0], 0) * 262_144 + Place(letters[1], 0) * 4_096 + Place(letters[2], 0) * 64 + Place(letters[3], 0)
       == b[0] as int * 65_536 + b[1] as int * 256 + b[2] as int
  }

  lemma QuadSpells(x: byte, y: byte, z: byte)
    ensures Spells(Quad(x, y, z), [x, y, z])
  {
    hide Letter, Place;
    var s := Sextets(x, y, z);
    PlaceOfLetter(s[0], 0);
    PlaceOfLetter(s[1], 0);
    PlaceOfLetter(s[2], 0);
    PlaceOfLetter(s[3], 0);
  }

  /** The rest of the text behind the whole groups: two letters for one byte, three for two, with zero bits after them,
      and padding. */
  predicate SpellsRest(t: bytes, b: bytes) {
    && (b == [] ==> t == [])
    && (|b| == 1 ==> |t| == 4 && t[2..] == Ascii("==") && Spells(t[..2] + Ascii("AA"), [b[0], 0, 0]))
    && (|b| == 2 ==> |t| == 4 && t[3..] == Ascii("=") && Spells(t[..3] + Ascii("A"), [b[0], b[1], 0]))
  }

  /** The `k`-th four letters of a text, and the `k`-th three bytes. */
  function FourAt(t: bytes, k: nat): (g: bytes)
    requires 4 * k + 4 <= |t|
    ensures |g| == 4
  {
    t[4 * k..4 * k + 4]
  }

  function ThreeAt(b: bytes, k: nat): (g: bytes)
    requires 3 * k + 3 <= |b|
    ensures |g| == 3
  {
    b[3 * k..3 * k + 3]
  }

  /** `t` is the encoding of `b`. */
  ghost predicate IsEncoding(t: bytes, b: bytes) {
    var n := |b| / 3;
    && 4 * n <= |t| && SpellsRest(t[4 * n..], b[3 * n..])
    && forall k :: 0 <= k < n ==> Spells(FourAt(t, k), ThreeAt(b, k))
  }

  lemma PaddingAndZeros()
    ensures Ascii("==") == [PAD, PAD] && Ascii("=") == [PAD]
    ensures Ascii("AA") == [65, 65] && Ascii("A") == [65]
  {
  }

  lemma EmptySextets(x: byte, y: byte)
    ensures Quad(x, y, 0)[3] == 65 && (y == 0 ==> Quad(x, y, 0)[2] == 65)
  {
  }

  lemma OneByteSpells(x: byte)
    ensures SpellsRest(Quad(x, 0, 0)[..2] + [PAD, PAD], [x])
  {
    hide Spells, Quad, Ascii;
    var q := Quad(x, 0, 0);
    PaddingAndZeros();
    QuadSpells(x, 0, 0);
    EmptySextets(x, 0);
    assert q == q[..2] + [65, 65];
    var t := q[..2] + [PAD, PAD];
    assert t[..2] == q[..2] && t[2..] == [PAD, PAD];
  }

  lemma TwoBytesSpell(x: byte, y: byte)
    ensures SpellsRest(Quad(x, y, 0)[..3] + [PAD], [x, y])
  {
    hide Spells, Quad, Ascii;
    var q := Quad(x, y, 0);
    PaddingAndZeros();
    QuadSpells(x, y, 0);
    EmptySextets(x, y);
    assert q == q[..3] + [65];
    var t := q[..3] + [PAD];
    assert t[..3] == q[..3] && t[3..] == [PAD];
  }

  lemma ShortEncodings(x: byte, y: byte)
    ensures Encoded([]) == []
    ensures Encoded([x]) == Quad(x, 0, 0)[..2] + [PAD, PAD]
    ensures Encoded([x, y]) == Quad(x, y, 0)[..3] + [PAD]
  {
    hide Quad;
  }

  lemma RestSpells(b: bytes)
    requires |b| < 3
    ensures SpellsRest(Encoded(b), b)
  {
    hide Quad, Encoded, Spells, Ascii;
    var x, y := if |b| > 0 then b[0] else 0, if |b| > 1 then b[1] else 0;
    ShortEncodings(x, y);
    if b != [] {
      hide SpellsRest;
      OneByteSpells(x);
      TwoBytesSpell(x, y);
      assert b == [x] || b == [x, y];
    }
  }

  lemma GroupsBehind(quad: bytes, t: bytes, three: bytes, b: bytes, k: nat)
    requires |quad| == 4 && |three| == 3
    ensures FourAt(quad + t, 0) == quad && ThreeAt(three + b, 0) == three
    ensures 4 * k + 4 <= |t| ==> FourAt(quad + t, k + 1) == FourAt(t, k)
    ensures 3 * k + 3 <= |b| ==> ThreeAt(three + b, k + 1) == ThreeAt(b, k)
  {
  }

  lemma OneMoreGroup(quad: bytes, t: bytes, three: bytes, b: bytes)
    requires |quad| == 4 && |three| == 3 && Spells(quad, three) && IsEncoding(t, b)
    ensures IsEncoding(quad + t, three + b)
  {
    hide Spells, SpellsRest, FourAt, ThreeAt;
    var n := |b| / 3;
    assert |three + b| / 3 == n + 1;
    assert (quad + t)[4 * (n + 1)..] == t[4 * n..] && (three + b)[3 * (n + 1)..] == b[3 * n..];
    forall k | 0 <= k < n + 1 ensures Spells(FourAt(quad + t, k), ThreeAt(three + b, k)) {
      if k > 0 {
        GroupsBehind(quad, t, three, b, k - 1);
        assert Spells(FourAt(t, k - 1), ThreeAt(b, k - 1));
      } else {
        GroupsBehind(quad, t, three, b, 0);
      }
    }
  }

  /** Every text the encoder makes is the encoding the standard asks for. */
  lemma {:induction false} EncodedIsEncoding(b: bytes)
    ensures IsEncoding(Encoded(b), b)
  {
    hide Quad, Spells, SpellsRest, FourAt, ThreeAt;
    if |b| < 3 {
      RestSpells(b);
      assert Encoded(b)[0..] == Encoded(b) && b[0..] == b;
    } else {
      EncodedIsEncoding(b[3..]);
      QuadSpells(b[0], b[1], b[2]);
      assert b == [b[0], b[1], b[2]] + b[3..];
      hide IsEncoding;
      OneMoreGroup(Quad(b[0], b[1], b[2]), Encoded(b[3..]), [b[0], b[1], b[2]], b[3..]);
    }
  }

  lemma {:induction false} PlaceFound(c: byte, from: nat)
    requires from <= 64
    ensures Place(c, from) < 64 ==> ALPHABET[Place(c, from)] == c
    decreases 64 - from
  {
    if from < 64 && ALPHABET[from] != c { PlaceFound(c, from + 1); }
  }

  lemma SamePlace(c: byte, d: byte)
    requires Place(c, 0) == Place(d, 0) < 64
    ensures c == d
  {
    PlaceFound(c, 0);
    PlaceFound(d, 0);
  }

  /** Four digits to base 64 are determined by their number. */
  lemma SameDigits(a: nat, b: nat, c: nat, d: nat, a': nat, b': nat, c': nat, d': nat)
    requires a < 64 && b < 64 && c < 64 && d < 64 && a' < 64 && b' < 64 && c' < 64 && d' < 64
    requires a * 262_144 + b * 4_096 + c * 64 + d == a' * 262_144 + b' * 4_096 + c' * 64 + d'
    ensures a == a' && b == b' && c == c' && d == d'
  {
  }

  lemma SpellsOnce(q: bytes, q': bytes, three: bytes)
    requires |q| == |q'| == 4 && |three| == 3 && Spells(q, three) && Spells(q', three)
    ensures q == q'
  {
    hide Place;
    SameDigits(Place(q[0], 0), Place(q[1], 0), Place(q[2], 0), Place(q[3], 0),
               Place(q'[0], 0), Place(q'[1], 0), Place(q'[2], 0), Place(q'[3], 0));
    forall k | 0 <= k < 4 ensures q[k] == q'[k] {
      SamePlace(q[k], q'[k]);
    }
  }

  lemma RestSpellsOnce(t: bytes, t': bytes, b: bytes)
    requires |b| < 3 && SpellsRest(t, b) && SpellsRest(t', b)
    ensures t == t'
  {
    hide Spells, Ascii;
    if |b| == 1 {
      SpellsOnce(t[..2] + Ascii("AA"), t'[..2] + Ascii("AA"), [b[0], 0, 0]);
      assert t[..2] == (t[..2] + Ascii("AA"))[..2] && t'[..2] == (t'[..2] + Ascii("AA"))[..2];
      assert t == t[..2] + t[2..] && t' == t'[..2] + t'[2..];
    } else if |b| == 2 {
      SpellsOnce(t[..3] + Ascii("A"), t'[..3] + Ascii("A"), [b[0], b[1], 0]);
      assert t[..3] == (t[..3] + Ascii("A"))[..3] && t'[..3] == (t'[..3] + Ascii("A"))[..3];
      assert t == t[..3] + t[3..] && t' == t'[..3] + t'[3..];
    }
  }

  /** A text and its bytes from the second group on. */
  lemma OneGroupLess(t: bytes, b: bytes)
    requires |b| >= 3 && IsEncoding(t, b)
    ensures |t| >= 4 && Spells(t[..4], b[..3]) && IsEncoding(t[4..], b[3..])
  {
    hide Spells, SpellsRest;
    var n := |b| / 3;
    assert Spells(FourAt(t, 0), ThreeAt(b, 0));
    assert t[4..][4 * (n - 1)..] == t[4 * n..] && b[3..][3 * (n - 1)..] == b[3 * n..];
    forall k | 0 <= k < n - 1 ensures Spells(FourAt(t[4..], k), ThreeAt(b[3..], k)) {
      assert FourAt(t[4..], k) == FourAt(t, k + 1) && ThreeAt(b[3..], k) == ThreeAt(b, k + 1);
      assert Spells(FourAt(t, k + 1), ThreeAt(b, k + 1));
    }
  }

  /** The encoder's text is the only one the standard allows. */
  lemma {:induction false} EncodingIsUnique(t: bytes, b: bytes)
    ensures IsEncoding(t, b) <==> t == Encoded(b)
    decreases |b|
  {
    EncodedIsEncoding(b);
    if IsEncoding(t, b) {
      if |b| < 3 {
        hide SpellsRest, Encoded;
        RestSpells(b);
        assert t[0..] == t && b[0..] == b;
        RestSpellsOnce(t, Encoded(b), b);
      } else {
        OneGroupLess(t, b);
        EncodingIsUnique(t[4..], b[3..]);
        QuadSpells(b[0], b[1], b[2]);
        hide IsEncoding, Spells, Quad;
        assert b[..3] == [b[0], b[1], b[2]];
        SpellsOnce(t[..4], Quad(b[0], b[1], b[2]), b[..3]);
        assert t == t[..4] + t[4..];
      }
    }
  }

  lemma LetterOfIndex(c: byte)
    requires IsBase64(c)
    ensures Index(c) < 64 && Letter(Index(c)) == c
  {
  }

  /** `is_base64` holds of the alphabet and of nothing else. */
  lemma AlphabetExactly(c: byte)
    ensures IsBase64(c) <==> Place(c, 0) < 64
  {
    hide Place, Letter;
    if IsBase64(c) {
      LetterOfIndex(c);
      PlaceOfLetter(Index(c), 0);
    }
    PlaceFound(c, 0);
    if Place(c, 0) < 64 {
      AlphabetIsLetters(Place(c, 0));
    }
  }

  /** The shifts and masks, as in the body of the encoder's loop and again after it. */
  method SpreadBits(three: array<byte>, four: array<byte>)
    requires three.Length == 3 && four.Length == 4
    modifies four
    ensures four[..] == Sextets(old(three[0]), old(three[1]), old(three[2]))
  {
    var x, y, z := three[0], three[1], three[2];
    four[0] := x / 4;
    four[1] := x % 4 * 16 + y / 16;
    four[2] := y % 16 * 4 + z / 64;
    four[3] := z % 64;
  }

  /** The inner loop that writes letters to the output. */
  method Emit(four: array<byte>, n: nat, out: array<byte>, start: nat) returns (s: nat)
    requires n <= four.Length == 4 && start + n <= out.Length && four != out
    requires forall k :: 0 <= k < n ==> four[k] < 64
    modifies out
    ensures s == start + n && out[..s] == old(out[..start]) + Letters(four[..n])
  {
    hide Letter;
    s := start;
    var i := 0;
    while i < n
      invariant 0 <= i <= n && s == start + i
      invariant out[..start] == old(out[..start])
      invariant forall k :: 0 <= k < i ==> out[start + k] == Letter(four[k])
    {
      out[s] := Letter(four[i]);
      i, s := i + 1, s + 1;
    }
  }

  /** Three bytes are complete. */
  method EmitGroup(three: array<byte>, four: array<byte>, out: array<byte>, start: nat) returns (s: nat)
    requires three.Length == 3 && four.Length == 4 && start + 4 <= out.Length
    requires three != four && three != out && four != out
    modifies four, out
    ensures s == start + 4 && out[..s] == old(out[..start]) + old(Quad(three[..3][0], three[..3][1], three[..3][2]))
  {
    hide Letters, Sextets;
    SpreadBits(three, four);
    assert four[..4] == four[..];
    s := Emit(four, 4, out, start);
  }

  lemma LettersOfPrefix(sextets: seq<byte>, n: nat)
    requires forall k :: 0 <= k < |sextets| ==> sextets[k] < 64
    requires n <= |sextets|
    ensures Letters(sextets)[..n] == Letters(sextets[..n])
  {
    hide Letter;
  }

  /** The one or two bytes the loop leaves over. */
  method EmitRest(three: array<byte>, n: nat, four: array<byte>, out: array<byte>, start: nat)
    requires three.Length == 3 && four.Length == 4 && 0 < n < 3 && start + 4 == out.Length
    requires three != four && three != out && four != out
    modifies three, four, out
    ensures out[..] == old(out[..start]) + Encoded(old(three[..n]))
  {
    hide Letters, Sextets;
    var j := n;
    while j < 3
      modifies three
      invariant n <= j <= 3 && three[..n] == old(three[..n])
      invariant forall k :: n <= k < j ==> three[k] == NUL
    {
      three[j] := NUL;
      j := j + 1;
    }
    ghost var group := three[..n];
    assert group[0] == three[0] && (n == 2 ==> group[1] == three[1]);
    SpreadBits(three, four);
    var s := Emit(four, n + 1, out, start);
    LettersOfPrefix(four[..], n + 1);
    ghost var letters := out[..s];
    assert four[..][..n + 1] == four[..n + 1];
    while s < out.Length
      modifies out
      invariant s <= out.Length && out[..start + n + 1] == letters && start + n + 1 <= s
      invariant forall k :: start + n + 1 <= k < s ==> out[k] == PAD
    {
      out[s] := PAD;
      s := s + 1;
    }
    assert out[..] == letters + seq(3 - n, _ => PAD);
  }

  /** Three bytes more of the input, four letters more of the output. */
  lemma EncodedGroup(done: bytes, three: bytes, more: bytes)
    requires |three| == 3
    ensures done + Encoded(three + more) == (done + Quad(three[0], three[1], three[2])) + Encoded(more)
    ensures 4 <= |Encoded(three + more)|
  {
    hide Quad;
    assert (three + more)[3..] == more;
  }

  lemma OneMore(held: bytes, input: bytes, next: nat)
    requires next < |input|
    ensures held + input[next..] == held + [input[next]] + input[next + 1..]
  {
  }

  /** `base64_encode` and its string wrapper: the text fills the buffer that was made for it. */
  method Encode(input: bytes) returns (text: bytes)
    ensures text == Encoded(input) && IsEncoding(text, input)
  {
    hide Quad, Encoded, EncodedLength, IsEncoding;
    EncodedHasItsLength(input);
    var three, four := new byte[3](_ => NUL), new byte[4](_ => NUL);
    var out := new byte[EncodedLength(|input|)](_ => NUL);
    var i, s, next := 0, 0, 0;
    assert three[..0] + input[0..] == input;
    while next < |input|
      invariant 0 <= i < 3 && 0 <= next <= |input| && 0 <= s <= out.Length
      invariant out[..s] + Encoded(three[..i] + input[next..]) == Encoded(input)
    {
      ghost var held := three[..i];
      OneMore(held, input, next);
      three[i] := input[next];
      i, next := i + 1, next + 1;
      assert three[..i] == held + [input[next - 1]];
      if i == 3 {
        EncodedGroup(out[..s], three[..3], input[next..]);
        s := EmitGroup(three, four, out, s);
        i := 0;
        assert three[..0] + input[next..] == input[next..];
      }
    }
    assert three[..i] + input[next..] == three[..i];
    ghost var done := out[..s];
    if i > 0 {
      EncodedHasItsLength(three[..i]);
      EmitRest(three, i, four, out, s);
    } else {
      EncodedHasItsLength([]);
      assert out[..] == done;
    }
    text := out[..];
    EncodedIsEncoding(input);
  }

  // ----- decoding

  /** What the decoder looks at: everything before the first `=` that is in the alphabet. */
  function Kept(s: bytes): (t: bytes)
    ensures |t| <= |s| && AllBase64(t)
  {
    if s == [] || s[0] == PAD then []
    else if IsBase64(s[0]) then [s[0]] + Kept(s[1..])
    else Kept(s[1..])
  }

  function Byte0(a: nat, b: nat): byte { (a * 4 + b / 16 % 4) % 256 }
  function Byte1(b: nat, c: nat): byte { (b % 16 * 16 + c / 4 % 16) % 256 }
  function Byte2(c: nat, d: nat): byte { (c % 4 * 64 + d) % 256 }

  /** The masks and shifts of the decoder, on four indices. */
  function Triple(a: nat, b: nat, c: nat, d: nat): (s: bytes)
    ensures |s| == 3
  {
    [Byte0(a, b), Byte1(b, c), Byte2(c, d)]
  }

  /** Four letters to three bytes; a rest of two or three letters to one or two bytes; a single letter to nothing. */
  function BytesOfLetters(t: bytes): bytes
    requires AllBase64(t)
  {
    if |t| <= 1 then []
    else if |t| == 2 then Triple(Index(t[0]), Index(t[1]), 0, 0)[..1]
    else if |t| == 3 then Triple(Index(t[0]), Index(t[1]), Index(t[2]), 0)[..2]
    else Triple(Index(t[0]), Index(t[1]), Index(t[2]), Index(t[3])) + BytesOfLetters(t[4..])
  }

  function Decoded(s: bytes): bytes {
    BytesOfLetters(Kept(s))
  }

  lemma {:induction false} BytesOfLettersLength(t: bytes)
    requires AllBase64(t)
    ensures |BytesOfLetters(t)| == |t| * 3 / 4
  {
    hide Triple;
    if |t| > 3 {
      BytesOfLettersLength(t[4..]);
    }
  }

  /** The decoder never produces more than the `length * 3 / 4` bytes it allocates. */
  lemma DecodedFits(s: bytes)
    ensures |Decoded(s)| <= |s| * 3 / 4
  {
    BytesOfLettersLength(Kept(s));
  }

  lemma {:induction false} KeptOfLetters(t: bytes, rest: bytes)
    requires AllBase64(t)
    ensures Kept(t + rest) == t + Kept(rest)
  {
    if t == [] {
      assert t + rest == rest;
    } else {
      KeptOfLetters(t[1..], rest);
      assert (t + rest)[1..] == t[1..] + rest;
    }
  }

  lemma FirstByte(x: byte, y: byte)
    ensures Byte0(x / 4, MiddleHigh(x, y)) == x
  {
    assert MiddleHigh(x, y) / 16 == x % 4;
  }

  lemma MiddleHighEnds(x: byte, y: byte)
    ensures MiddleHigh(x, y) % 16 == y / 16
  {
  }

  lemma MiddleLowStarts(y: byte, z: byte)
    ensures MiddleLow(y, z) / 4 == y % 16
  {
  }

  lemma SecondByte(x: byte, y: byte, z: byte)
    ensures Byte1(MiddleHigh(x, y), MiddleLow(y, z)) == y
  {
    MiddleHighEnds(x, y);
    MiddleLowStarts(y, z);
    hide MiddleHigh, MiddleLow;
    assert y / 16 * 16 + y % 16 == y;
  }

  lemma ThirdByte(y: byte, z: byte)
    ensures Byte2(MiddleLow(y, z), z % 64) == z
  {
    assert MiddleLow(y, z) % 4 == z / 64;
  }

  lemma SextetsGather(x: byte, y: byte, z: byte)
    ensures var q := Sextets(x, y, z); Triple(q[0], q[1], q[2], q[3]) == [x, y, z]
  {
    hide MiddleHigh, MiddleLow, Byte0, Byte1, Byte2;
    FirstByte(x, y);
    SecondByte(x, y, z);
    ThirdByte(y, z);
  }

  /** The bytes that come out of a group do not depend on the indices of letters that are not there. */
  lemma MissingLetters(a: nat, b: nat, c: nat, d: nat, c': nat, d': nat)
    ensures Triple(a, b, c, d)[..1] == Triple(a, b, c', d')[..1]
    ensures Triple(a, b, c, d)[..2] == Triple(a, b, c, d')[..2]
  {
  }

  lemma QuadGathers(x: byte, y: byte, z: byte)
    ensures var q := Quad(x, y, z); Triple(Index(q[0]), Index(q[1]), Index(q[2]), Index(q[3])) == [x, y, z]
  {
    hide Letter, Index, Triple;
    var q := Sextets(x, y, z);
    forall k | 0 <= k < 4 ensures Index(Letters(q)[k]) == q[k] {
      IndexInvertsLetter(q[k]);
    }
    SextetsGather(x, y, z);
  }

  /** Decoding inverts encoding on every byte string. */
  lemma {:induction false} DecodeEncode(b: bytes)
    ensures Decoded(Encoded(b)) == b
  {
    hide Letter, Index, Letters, Sextets, Triple, Quad;
    if b != [] {
      var y, z := if |b| > 1 then b[1] else 0, if |b| > 2 then b[2] else 0;
      var q := Quad(b[0], y, z);
      QuadGathers(b[0], y, z);
      if |b| == 1 {
        KeptOfLetters(q[..2], [PAD, PAD]);
        MissingLetters(Index(q[0]), Index(q[1]), Index(q[2]), Index(q[3]), 0, 0);
        assert b == [b[0], y, z][..1];
      } else if |b| == 2 {
        KeptOfLetters(q[..3], [PAD]);
        MissingLetters(Index(q[0]), Index(q[1]), Index(q[2]), Index(q[3]), 0, 0);
        assert b == [b[0], y, z][..2];
      } else {
        KeptOfLetters(q, Encoded(b[3..]));
        DecodeEncode(b[3..]);
        assert (q + Kept(Encoded(b[3..])))[4..] == Kept(Encoded(b[3..]));
        assert b == [b[0], b[1], b[2]] + b[3..];
      }
    }
  }

  lemma KeptOne(c: byte, s: bytes)
    ensures Kept([c] + s) == if c == PAD then [] else if IsBase64(c) then [c] + Kept(s) else Kept(s)
  {
    hide IsBase64, AllBase64;
    assert ([c] + s)[1..] == s;
  }

  lemma {:induction false} KeptWithout(before: bytes, c: byte, after: bytes)
    requires PAD !in before && c != PAD && !IsBase64(c)
    ensures Kept(before + [c] + after) == Kept(before + after)
  {
    hide IsBase64, AllBase64, Kept;
    if before == [] {
      assert before + [c] + after == [c] + after && before + after == after;
      KeptOne(c, after);
    } else {
      var tail := before[1..];
      KeptWithout(tail, c, after);
      assert before + [c] + after == [before[0]] + (tail + [c] + after);
      assert before + after == [before[0]] + (tail + after);
      KeptOne(before[0], tail + [c] + after);
      KeptOne(before[0], tail + after);
    }
  }

  /** A character outside the alphabet, in front of any `=`, may be deleted. */
  lemma StrayIsIgnored(before: bytes, c: byte, after: bytes)
    requires PAD !in before && c != PAD && !IsBase64(c)
    ensures Decoded(before + [c] + after) == Decoded(before + after)
  {
    KeptWithout(before, c, after);
  }

  /** Nothing from the first `=` on matters. */
  lemma {:induction false} PaddingEnds(before: bytes, after: bytes)
    ensures Kept(before + [PAD] + after) == Kept(before)
    ensures Decoded(before + [PAD] + after) == Decoded(before)
  {
    if before != [] {
      PaddingEnds(before[1..], after);
      assert (before + [PAD] + after)[1..] == before[1..] + [PAD] + after;
    }
  }

  /** Each letter in `four` becomes its index, and then four indices three bytes. */
  method GatherBits(four: array<byte>, three: array<byte>)
    requires four.Length == 4 && three.Length == 3 && four != three
    requires forall k :: 0 <= k < 4 ==> IsBase64(four[k]) || four[k] == NUL
    modifies four, three
    ensures three[..] == old(Triple(Index(four[0]), Index(four[1]), Index(four[2]), Index(four[3])))
  {
    hide Index;
    var i := 0;
    while i < 4
      modifies four
      invariant 0 <= i <= 4
      invariant forall k :: 0 <= k < i ==> four[k] == Index(old(four[k]))
      invariant forall k :: i <= k < 4 ==> four[k] == old(four[k])
    {
      four[i] := Index(four[i]);
      i := i + 1;
    }
    var a: nat, b: nat, c: nat, d: nat := four[0], four[1], four[2], four[3];
    three[0] := (a * 4 + b / 16 % 4) % 256;
    three[1] := (b % 16 * 16 + c / 4 % 16) % 256;
    three[2] := (c % 4 * 64 + d) % 256;
  }

  /** The inner loop that writes bytes to the output. */
  method Store(three: array<byte>, n: nat, out: array<byte>, start: nat) returns (r: nat)
    requires n <= three.Length == 3 && start + n <= out.Length && three != out
    modifies out
    ensures r == start + n && out[..r] == old(out[..start]) + three[..n]
  {
    r := start;
    var i := 0;
    while i < n
      invariant 0 <= i <= n && r == start + i
      invariant out[..start] == old(out[..start])
      invariant forall k :: 0 <= k < i ==> out[start + k] == three[k]
    {
      out[r] := three[i];
      i, r := i + 1, r + 1;
    }
  }

  /** Four letters are complete. */
  method StoreGroup(four: array<byte>, three: array<byte>, out: array<byte>, start: nat) returns (r: nat)
    requires four.Length == 4 && three.Length == 3 && start + 3 <= out.Length
    requires three != four && three != out && four != out
    requires AllBase64(four[..4])
    modifies three, four, out
    ensures r == start + 3 && out[..r] == old(out[..start]) + BytesOfLetters(old(four[..4]))
  {
    hide Index, IsBase64, Triple;
    ghost var group := four[..4];
    assert forall k :: 0 <= k < 4 ==> IsBase64(group[k]) && four[k] == group[k];
    GatherBits(four, three);
    assert BytesOfLetters(group[4..]) == [] && three[..3] == three[..];
    r := Store(three, 3, out, start);
  }

  /** The letters the loop leaves over; the missing ones are looked up as NUL, and found at index 64. */
  method StoreRest(four: array<byte>, n: nat, three: array<byte>, out: array<byte>, start: nat) returns (r: nat)
    requires four.Length == 4 && three.Length == 3 && 0 < n < 4 && start + n - 1 <= out.Length
    requires three != four && three != out && four != out
    requires AllBase64(four[..n])
    modifies three, four, out
    ensures r <= out.Length && out[..r] == old(out[..start]) + BytesOfLetters(old(four[..n]))
  {
    hide Index, IsBase64, Triple;
    ghost var group := four[..n];
    assert forall k :: 0 <= k < n ==> IsBase64(group[k]);
    var j := n;
    while j < 4
      modifies four
      invariant n <= j <= 4 && four[..n] == group
      invariant forall k :: n <= k < j ==> four[k] == NUL
    {
      four[j] := NUL;
      j := j + 1;
    }
    assert forall k :: 0 <= k < n ==> four[k] == group[k];
    MissingLetters(Index(four[0]), Index(four[1]), Index(four[2]), Index(four[3]), 0, 0);
    GatherBits(four, three);
    assert BytesOfLetters(group) == three[..][..n - 1];
    assert three[..][..n - 1] == three[..n - 1];
    r := Store(three, n - 1, out, start);
  }

  /** One more letter after those already in hand. */
  lemma KeptStep(held: bytes, s: bytes)
    requires s != [] && s[0] != PAD && AllBase64(held)
    ensures !IsBase64(s[0]) ==> Kept(s) == Kept(s[1..])
    ensures IsBase64(s[0]) ==> held + Kept(s) == (held + [s[0]]) + Kept(s[1..]) && AllBase64(held + [s[0]])
  {
  }

  lemma NothingKept(s: bytes)
    requires s == [] || s[0] == PAD
    ensures Kept(s) == []
    ensures BytesOfLetters(Kept(s)) == []
  {
  }

  /** Four letters more, three bytes more. */
  lemma StoredGroup(done: bytes, group: bytes, more: bytes)
    requires |group| == 4 && AllBase64(group) && AllBase64(more) && AllBase64(group + more)
    ensures done + BytesOfLetters(group + more) == (done + BytesOfLetters(group)) + BytesOfLetters(more)
    ensures |BytesOfLetters(group)| == 3
  {
    hide Triple, Index;
    assert (group + more)[4..] == more;
    assert BytesOfLetters(group[4..]) == [];
  }

  /** `base64_decode` and its string wrapper. */
  method Decode(input: bytes) returns (data: bytes)
    ensures data == Decoded(input)
  {
    hide IsBase64, AllBase64, Kept, BytesOfLetters;
    var four, three := new byte[4](_ => NUL), new byte[3](_ => NUL);
    var out := new byte[|input| * 3 / 4](_ => NUL);
    var i, r, idx := 0, 0, 0;
    assert input[0..] == input && four[..0] + Kept(input) == Kept(input);
    NothingKept([]);
    assert four[..0] == Kept([]);
    while idx < |input| && input[idx] != PAD
      invariant 0 <= i < 4 && i <= idx <= |input| && r >= 0
      invariant 4 * r + 3 * i <= 3 * idx && AllBase64(four[..i])
      invariant AllBase64(four[..i] + Kept(input[idx..]))
      invariant out[..r] + BytesOfLetters(four[..i] + Kept(input[idx..])) == Decoded(input)
    {
      ghost var rest, held := input[idx..], four[..i];
      assert rest[0] == input[idx] && rest[1..] == input[idx + 1..];
      KeptStep(held, rest);
      if !IsBase64(input[idx]) {
        idx := idx + 1;
        continue;
      }
      four[i] := input[idx];
      i, idx := i + 1, idx + 1;
      assert four[..i] == held + [rest[0]];
      if i == 4 {
        StoredGroup(out[..r], four[..4], Kept(input[idx..]));
        r := StoreGroup(four, three, out, r);
        i := 0;
        assert four[..0] + Kept(input[idx..]) == Kept(input[idx..]);
      }
    }
    NothingKept(input[idx..]);
    assert four[..i] + [] == four[..i];
    ghost var done := out[..r];
    if i > 0 {
      r := StoreRest(four, i, three, out, r);
    } else {
      assert BytesOfLetters(four[..0]) == [] && done + [] == done;
    }
    data := out[..r];
  }
}
