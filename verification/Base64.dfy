/** Base64, section 4 of RFC 4648: `encodeBase64`, `decodeBase64` and their `std::string` forms. */
module Base64 {
  import opened CStrings
  import opened BitStreams

  const EQUALS: Byte := '=' as int

  // ---------- the alphabet ----------

  /** `from_6_bit`: A to Z, a to z, 0 to 9, plus, slash. */
  function FromSixBit(v: int): Byte
    requires 0 <= v < 64
  {
    if v < 26 then 65 + v else if v < 52 then 71 + v else if v < 62 then v - 4 else if v == 62 then 43 else 47
  }

  /** `to_6_bit`; -1 where it throws. The padding character reads as zero. */
  function ToSixBit(c: Byte): int {
    if 65 <= c <= 90 then c - 65
    else if 97 <= c <= 122 then c - 71
    else if 48 <= c <= 57 then c + 4
    else if c == 43 then 62
    else if c == 47 then 63
    else if c == EQUALS then 0
    else -1
  }

  /** Table 1 of RFC 4648. */
  function Letter(v: nat): Byte
    requires v < 64
  {
    if v < 26 then 'A' as int + v
    else if v < 52 then 'a' as int + (v - 26)
    else if v < 62 then '0' as int + (v - 52)
    else if v == 62 then '+' as int else '/' as int
  }

  lemma LetterOfValue(v: nat)
    requires v < 64
    ensures FromSixBit(v) == Letter(v)
  {
  }

  /** The letters, and no other characters but the padding, have a value. */
  lemma ValueOfLetter(c: Byte)
    ensures ToSixBit(c) ==
              if 'A' as int <= c <= 'Z' as int then c - 'A' as int
              else if 'a' as int <= c <= 'z' as int then 26 + c - 'a' as int
              else if '0' as int <= c <= '9' as int then 52 + c - '0' as int
              else if c == '+' as int then 62 else if c == '/' as int then 63
              else if c == '=' as int then 0 else -1
    ensures InAlphabet(c) <==> ToSixBit(c) >= 0 && c != '=' as int
  {
  }

  predicate InAlphabet(c: Byte) {
    ToSixBit(c) >= 0 && c != EQUALS
  }

  function Letters(six: seq<int>): (text: CString)
    requires forall i :: 0 <= i < |six| ==> 0 <= six[i] < 64
    ensures |text| == |six| && forall i :: 0 <= i < |six| ==> text[i] == FromSixBit(six[i])
  {
    if six == [] then [] else [FromSixBit(six[0])] + Letters(six[1..])
  }

  function Sixes(text: seq<Byte>): (six: seq<int>)
    ensures |six| == |text| && forall i :: 0 <= i < |text| ==> six[i] == ToSixBit(text[i])
  {
    seq(|text|, i requires 0 <= i < |text| => ToSixBit(text[i]))
  }

  function Repeat(c: Byte, n: nat): (s: seq<Byte>)
    ensures |s| == n && forall i :: 0 <= i < n ==> s[i] == c
  {
    seq(n, _ => c)
  }

  // ---------- what encoding and decoding compute ----------

  /** How many padding characters follow the encoding of `n` bytes. */
  function PadLength(n: nat): nat {
    (3 - n % 3) % 3
  }

  /** How many zero bits complete the last six bits of `n` bytes. */
  function ZeroFill(n: nat): nat {
    2 * PadLength(n)
  }

  lemma Powers()
    ensures Pow2(6) == 64 && Pow2(8) == 256
  {
    assert Pow2(3) == 8;
    assert Pow2(6) == 64;
  }

  function SixBits(s: seq<Byte>): (six: seq<int>)
    ensures forall i :: 0 <= i < |six| ==> 0 <= six[i] < 64
  {
    Powers();
    Groups(Stream(s, 8) + Zeros(ZeroFill(|s|)), 6)
  }

  function Encode(s: seq<Byte>): CString {
    Letters(SixBits(s)) + Repeat(EQUALS, PadLength(|s|))
  }

  function Bytes(six: seq<int>): seq<Byte> {
    Powers();
    Groups(Stream(six, 6), 8)
  }

  /** The padding is stripped by the last two characters of the text. */
  function Strip(text: seq<Byte>, binary: seq<Byte>): seq<Byte>
    requires |binary| > 1 ==> |text| > 1
  {
    if |binary| > 2 && text[|text| - 1] == EQUALS && text[|text| - 2] == EQUALS then binary[..|binary| - 2]
    else if |binary| > 1 && text[|text| - 1] == EQUALS then binary[..|binary| - 1]
    else binary
  }

  predicate Decodable(text: CString) {
    |text| % 4 != 1 && forall i :: 0 <= i < |text| ==> ToSixBit(text[i]) >= 0
  }

  lemma BytesLength(six: seq<int>)
    ensures |Bytes(six)| == |six| * 6 / 8
  {
    StreamLength(six, 6);
    GroupsLength(Stream(six, 6), 8, |six| * 6 / 8, |six| * 6 % 8);
  }

  lemma {:induction false} GroupsLength(bits: seq<bool>, w: nat, n: nat, r: nat)
    requires w > 0 && |bits| == n * w + r && r < w
    ensures |Groups(bits, w)| == n
  {
    if n > 0 {
      OneGroupMore(n, w);
      GroupsLength(bits[w..], w, n - 1, r);
    }
  }

  /** What decoding gives; nothing when a character is rejected or the text ends inside a byte. */
  function Decode(text: CString): Option<seq<Byte>> {
    BytesLength(Sixes(text));
    if Decodable(text) then Some(Strip(text, Bytes(Sixes(text)))) else None
  }

  // ---------- the methods ----------

  lemma FillIs(n: nat, k: nat, z: nat)
    requires k * 6 == n * 8 + z && z < 6
    ensures z == ZeroFill(n)
  {
    var q, r := n / 3, n % 3;
    var d := k - 4 * q;
    assert n == 3 * q + r && 6 * d == 8 * r + z;
    if r == 0 {
      assert d == 0;
    } else if r == 1 {
      assert d == 2;
    } else {
      assert d == 3;
    }
  }

  /** The six-bit values of `plain` as the iterators yield them. */
  method CollectSixes(plain: seq<Byte>) returns (six: seq<int>)
    ensures six == SixBits(plain)
  {
    Powers();
    var it := new TransformWidth(6, 8, plain, |plain|);
    assert it.source[..0] == [] && it.Conserved([], 0) by {
      assert Stream([], 6) + it.Left() == Stream([], 8) + Zeros(0);
    }
    var ok, out, rest, zeros := Collect(it);
    assert it.source[..it.end] == plain;
    StreamLength(out, 6);
    StreamLength(plain, 8);
    FillIs(|plain|, |out|, zeros);
    GroupsOfStream(out, [], 6);
    assert Stream(out, 6) + [] == Stream(plain, 8) + Zeros(zeros);
    six := out;
  }

  /** `encodeBase64FromStr`, and `encodeBase64` on the bytes before the terminator. */
  method EncodeBase64FromStr(plain: seq<Byte>) returns (text: CString)
    ensures text == Encode(plain)
  {
    var six := CollectSixes(plain);
    text := Letters(six);
    text := text + Repeat(EQUALS, (3 - |plain| % 3) % 3);
  }

  /** Bytes that end inside a group of six bits leave at least six bits over exactly after 4k + 1 characters. */
  lemma BitsLeftOver(n: nat, bytes: nat, rest: nat)
    requires bytes * 8 + rest == n * 6 && rest < 8
    ensures n % 4 == 1 <==> rest >= 6
  {
    var q, r := n / 4, n % 4;
    var d := bytes - 3 * q;
    assert n == 4 * q + r && 8 * d + rest == 6 * r;
    if r <= 1 {
      assert d == 0;
    } else if r == 2 {
      assert d == 1;
    } else {
      assert d == 2;
    }
  }

  /** The bytes of a text as the iterators yield them, padding included. */
  method CollectBytes(text: CString) returns (ok: bool, binary: seq<Byte>)
    ensures ok <==> Decodable(text)
    ensures ok ==> binary == Bytes(Sixes(text))
  {
    Powers();
    var source := Sixes(text) + [ToSixBit(NUL)];
    var it := new TransformWidth(8, 6, source, |text|);
    assert it.source[..0] == [] && it.Conserved([], 0) by {
      assert Stream([], 8) + it.Left() == Stream([], 6) + Zeros(0);
    }
    var collected, out, rest, zeros := Collect(it);
    ok := collected;
    assert it.source[..it.end] == Sixes(text);
    assert forall i :: 0 <= i < |text| ==> source[i] == ToSixBit(text[i]);
    StreamLength(out, 8);
    StreamLength(Sixes(text), 6);
    binary := [];
    if ok {
      assert Stream(out, 8) + rest == Stream(Sixes(text), 6);
      BitsLeftOver(|text|, |out|, |rest|);
      GroupsOfStream(out, rest, 8);
      binary := out;
    } else if forall i :: 0 <= i < |text| ==> ToSixBit(text[i]) >= 0 {
      BitsLeftOver(|text|, |out|, |rest|);
    }
  }

  /** `decodeBase64ToStr`; `decodeBase64` returns the same bytes and a terminator. */
  method DecodeBase64ToStr(text: CString) returns (plain: Option<seq<Byte>>)
    ensures plain == Decode(text)
  {
    var ok, binary := CollectBytes(text);
    if !ok {
      return None;
    }
    BytesLength(Sixes(text));
    var length := |text|;
    if |binary| > 2 && text[length - 1] == EQUALS && text[length - 2] == EQUALS {
      binary := binary[..|binary| - 2];
    } else if |binary| > 1 && text[length - 1] == EQUALS {
      binary := binary[..|binary| - 1];
    }
    plain := Some(binary);
  }

  // ---------- decoding inverts encoding ----------

  lemma {:induction false} ZeroWords(n: nat, w: nat)
    ensures Stream(Repeat(0, n), w) == Zeros(n * w)
  {
    if n > 0 {
      ZeroWords(n - 1, w);
      ZeroBits(w);
      assert Repeat(0, n)[1..] == Repeat(0, n - 1);
      assert n * w == w + (n - 1) * w;
      assert Zeros(n * w) == Zeros(w) + Zeros((n - 1) * w);
    }
  }

  lemma Thirds(n: nat, q: nat, r: nat)
    requires n == 3 * q + r && r < 3
    ensures n / 3 == q && n % 3 == r
  {
  }

  /** The number of characters that `n` bytes take. */
  lemma PadArithmetic(n: nat, k: nat)
    requires k * 6 == n * 8 + ZeroFill(n)
    ensures k + PadLength(n) == 4 * ((n + 2) / 3)
    ensures n == 0 <==> k == 0
  {
    var q, r := n / 3, n % 3;
    assert n == 3 * q + r;
    if r == 0 {
      Thirds(n + 2, q, 2);
      assert k == 4 * q;
    } else {
      Thirds(n + 2, q + 1, r - 1);
      assert k == 4 * q + r + 1;
    }
  }

  lemma FillsUp(n: nat) returns (k: nat)
    ensures n * 8 + ZeroFill(n) == k * 6
  {
    k := n / 3 * 4 + if n % 3 == 0 then 0 else n % 3 + 1;
  }

  /** The six-bit values of `s` hold its bits and the zeros that complete the last value. */
  lemma SixBitsStream(s: seq<Byte>)
    ensures Stream(SixBits(s), 6) == Stream(s, 8) + Zeros(ZeroFill(|s|))
    ensures |SixBits(s)| * 6 == |s| * 8 + ZeroFill(|s|)
  {
    StreamLength(s, 8);
    var k := FillsUp(|s|);
    StreamOfGroups(Stream(s, 8) + Zeros(ZeroFill(|s|)), 6, k);
  }

  lemma EncodedSixes(s: seq<Byte>)
    ensures Sixes(Encode(s)) == SixBits(s) + Repeat(0, PadLength(|s|))
  {
  }

  /** Read back, padding included, an encoded text gives the bytes and one zero byte per padding character. */
  lemma EncodedBytes(s: seq<Byte>)
    ensures Bytes(Sixes(Encode(s))) == s + Repeat(0, PadLength(|s|))
  {
    var p, z := PadLength(|s|), ZeroFill(|s|);
    var padded: seq<int> := s + Repeat(0, p);
    SixBitsStream(s);
    EncodedSixes(s);
    StreamConcat(SixBits(s), Repeat(0, p), 6);
    StreamConcat(s, Repeat(0, p), 8);
    ZeroWords(p, 6);
    ZeroWords(p, 8);
    assert Zeros(z) + Zeros(p * 6) == Zeros(p * 8);
    assert Stream(s, 8) + Zeros(z) + Zeros(p * 6) == Stream(s, 8) + (Zeros(z) + Zeros(p * 6));
    assert Stream(Sixes(Encode(s)), 6) + [] == Stream(padded, 8) + [];
    Powers();
    GroupsOfStream(padded, [], 8);
    assert Stream(padded, 8) + [] == Stream(padded, 8);
  }

  /** The characters of an encoded text: letters, then the padding. */
  lemma EncodedText(s: seq<Byte>)
    ensures var p := PadLength(|s|);
            && |Encode(s)| == 4 * ((|s| + 2) / 3) && p <= |Encode(s)| && Padded(Encode(s), p)
  {
    SixBitsStream(s);
    PadArithmetic(|s|, |SixBits(s)|);
    forall i | 0 <= i < |SixBits(s)|
      ensures InAlphabet(Encode(s)[i])
    {
      assert Encode(s)[i] == FromSixBit(SixBits(s)[i]);
    }
  }

  /** The last `p` characters, and only they, are padding. */
  predicate Padded(text: seq<Byte>, p: nat)
    requires p <= |text|
  {
    && (forall i :: 0 <= i < |text| - p ==> InAlphabet(text[i]))
    && (forall i :: |text| - p <= i < |text| ==> text[i] == EQUALS)
  }

  lemma StripPadding(text: seq<Byte>, binary: seq<Byte>, p: nat)
    requires p <= 2 && 1 < |text| && p <= |text| && Padded(text, p) && |binary| > p
    ensures Strip(text, binary) == binary[..|binary| - p]
  {
  }

  /** Decoding inverts encoding, for every string of bytes. */
  lemma RoundTrip(s: seq<Byte>)
    ensures Decode(Encode(s)) == Some(s)
  {
    hide Encode, Bytes, Sixes;
    var text, p := Encode(s), PadLength(|s|);
    EncodedText(s);
    EncodedBytes(s);
    assert Decodable(text);
    if s != [] {
      StripPadding(text, s + Repeat(0, p), p);
      Cut(s, Repeat(0, p), |s|);
    }
  }

  lemma LetterReads(v: int)
    requires 0 <= v < 64
    ensures ToSixBit(FromSixBit(v)) == v && InAlphabet(FromSixBit(v))
  {
  }

  lemma LettersRead(six: seq<int>)
    requires forall i :: 0 <= i < |six| ==> 0 <= six[i] < 64
    ensures Sixes(Letters(six)) == six
    ensures forall i :: 0 <= i < |six| ==> InAlphabet(Letters(six)[i])
  {
    hide Letters, FromSixBit, ToSixBit, InAlphabet;
    forall i | 0 <= i < |six|
      ensures ToSixBit(Letters(six)[i]) == six[i] && InAlphabet(Letters(six)[i])
    {
      LetterReads(six[i]);
    }
    assert Sixes(Letters(six)) == six;
  }

  /** Decoding needs no padding: the letters alone give the bytes, too. */
  lemma UnpaddedRoundTrip(s: seq<Byte>)
    ensures Decode(Letters(SixBits(s))) == Some(s)
  {
    hide Stream, Groups;
    var six, rest := SixBits(s), Zeros(ZeroFill(|s|));
    var text := Letters(six);
    LettersRead(six);
    SixBitsStream(s);
    BitsLeftOver(|six|, |s|, |rest|);
    Powers();
    GroupsOfStream(s, rest, 8);
    assert Decodable(text) && Bytes(Sixes(text)) == s;
  }

  /** The C-string pair: what `decodeBase64` returns, read up to its terminator, is the text encoded. */
  lemma CStringRoundTrip(s: CString)
    ensures Decode(Encode(s)).Some? && UpToNul(Decode(Encode(s)).value + [NUL]) == s
  {
    RoundTrip(s);
    UpToNulReads(s, []);
    assert s + [NUL] + [] == s + [NUL];
  }

  // ---------- the shape of encoded text ----------

  /** How many of the last two characters are padding. */
  function PadCount(text: seq<Byte>): (p: nat)
    ensures p <= |text|
  {
    if |text| >= 2 && text[|text| - 1] == EQUALS && text[|text| - 2] == EQUALS then 2
    else if |text| >= 1 && text[|text| - 1] == EQUALS then 1 else 0
  }

  /** Whole groups of four characters, padded at the end alone. */
  predicate WellPadded(text: seq<Byte>) {
    |text| % 4 == 0 && forall i :: 0 <= i < |text| - PadCount(text) ==> InAlphabet(text[i])
  }

  /** Canonical text, section 3.5 of RFC 4648: the bits that the padding leaves unused are zero. */
  predicate Canonical(text: seq<Byte>) {
    WellPadded(text) && PadBitsZero(text, PadCount(text))
  }

  /** The low bits of the last of the characters before the padding, two per padding character, are zero. */
  predicate PadBitsZero(text: seq<Byte>, p: nat) {
    p < |text| && ToSixBit(text[|text| - p - 1]) >= 0 ==> Mask(ToSixBit(text[|text| - p - 1]), 2 * p) == 0
  }

  lemma PaddedCount(text: seq<Byte>, p: nat)
    requires p <= 2 && p <= |text| && Padded(text, p)
    ensures PadCount(text) == p
  {
  }

  /** `n` bytes give four characters per three bytes begun, and the padding that their number asks for. */
  lemma EncodedShape(s: seq<Byte>)
    ensures |Encode(s)| == 4 * ((|s| + 2) / 3)
    ensures PadCount(Encode(s)) == PadLength(|s|) && WellPadded(Encode(s))
  {
    EncodedText(s);
    PaddedCount(Encode(s), PadLength(|s|));
  }

  // ---------- encoding inverts decoding, on canonical text ----------

  /** The low `z` bits of a value are zero exactly when they show as zeros in its bits. */
  lemma LowZeros(v: nat, z: nat)
    ensures Bits(v, z) == Zeros(z) <==> Mask(v, z) == 0
  {
    MaskKeeps(v, z);
    ValueOfBits(Mask(v, z), z);
    ZeroBits(z);
    ValueOfBits(0, z);
  }

  /** The last value of a stream and its low bits end the stream. */
  lemma StreamEnds(six: seq<int>, z: nat)
    requires six != [] && z <= 6 && six[|six| - 1] >= 0
    ensures |Stream(six, 6)| >= z
    ensures Stream(six, 6)[|Stream(six, 6)| - z..] == Bits(six[|six| - 1], z)
  {
    var last := six[|six| - 1];
    assert six == six[..|six| - 1] + [last];
    StreamOneMore(six[..|six| - 1], last, 6);
    BitsSplit(last, 6, z);
  }

  lemma Ends(a: seq<bool>, b: seq<bool>)
    ensures (a + b)[|a + b| - |b|..] == b
  {
  }

  lemma SixBitsEnd(s: seq<Byte>)
    ensures var six := SixBits(s); six != [] ==> Mask(six[|six| - 1], ZeroFill(|s|)) == 0
  {
    var six, z := SixBits(s), ZeroFill(|s|);
    if six != [] {
      SixBitsStream(s);
      StreamEnds(six, z);
      Ends(Stream(s, 8), Zeros(z));
      LowZeros(six[|six| - 1], z);
    }
  }

  /** The character before the padding encodes the last value. */
  lemma EncodedPadBits(s: seq<Byte>)
    ensures PadBitsZero(Encode(s), PadLength(|s|))
  {
    hide Mask, Groups;
    var six, text, p := SixBits(s), Encode(s), PadLength(|s|);
    if p < |text| {
      SixBitsEnd(s);
      assert text[|text| - p - 1] == FromSixBit(six[|six| - 1]);
    }
  }

  lemma EncodedIsCanonical(s: seq<Byte>)
    ensures Canonical(Encode(s))
  {
    EncodedShape(s);
    EncodedPadBits(s);
  }

  /** Bits whose last ones are zeros, without them. */
  lemma DropZeros(bits: seq<bool>, z: nat)
    requires z <= |bits| && bits[|bits| - z..] == Zeros(z)
    ensures bits == bits[..|bits| - z] + Zeros(z)
  {
  }

  /** The bits of the letters of a canonical text: whole bytes, and zeros. */
  lemma BitsOfLetters(a: seq<int>, m: nat, p: nat) returns (y: seq<bool>)
    requires p <= 2 && |a| + p == 4 * m && forall i :: 0 <= i < |a| ==> 0 <= a[i] < 64
    requires a != [] ==> Mask(a[|a| - 1], 2 * p) == 0
    ensures |y| == (3 * m - p) * 8 && Stream(a, 6) == y + Zeros(2 * p)
  {
    StreamLength(a, 6);
    var bits := Stream(a, 6);
    if a == [] {
      return [];
    }
    StreamEnds(a, 2 * p);
    LowZeros(a[|a| - 1], 2 * p);
    DropZeros(bits, 2 * p);
    y := bits[..|bits| - 2 * p];
  }

  lemma SixBitsAre(s: seq<Byte>, a: seq<int>)
    requires Stream(a, 6) == Stream(s, 8) + Zeros(ZeroFill(|s|)) && forall i :: 0 <= i < |a| ==> 0 <= a[i] < 64
    ensures SixBits(s) == a
  {
    Powers();
    GroupsOfStream(a, [], 6);
    assert Stream(a, 6) + [] == Stream(a, 6);
  }

  lemma PadFits(m: nat, p: nat)
    requires p <= 2 && p <= 3 * m
    ensures PadLength(3 * m - p) == p
  {
    if p == 0 {
      Thirds(3 * m, m, 0);
    } else {
      Thirds(3 * m - p, m - 1, 3 - p);
    }
  }

  /** The values of the letters of a canonical text are the bits of some bytes, filled up with zeros. */
  lemma BytesOfLetters(a: seq<int>, m: nat, p: nat) returns (s: seq<Byte>)
    requires p <= 2 && |a| + p == 4 * m && forall i :: 0 <= i < |a| ==> 0 <= a[i] < 64
    requires a != [] ==> Mask(a[|a| - 1], 2 * p) == 0
    ensures PadLength(|s|) == p && SixBits(s) == a
  {
    Powers();
    var y := BitsOfLetters(a, m, p);
    s := Groups(y, 8);
    StreamOfGroups(y, 8, 3 * m - p);
    PadFits(m, p);
    SixBitsAre(s, a);
  }

  lemma LettersOfSixes(letters: seq<Byte>)
    requires forall c :: c in letters ==> InAlphabet(c)
    ensures forall i :: 0 <= i < |letters| ==> 0 <= Sixes(letters)[i] < 64
    ensures Letters(Sixes(letters)) == letters
  {
    forall i | 0 <= i < |letters|
      ensures 0 <= Sixes(letters)[i] < 64 && FromSixBit(Sixes(letters)[i]) == letters[i]
    {
      assert InAlphabet(letters[i]);
    }
  }

  /** A well padded text is its letters and its padding. */
  lemma TextParts(text: seq<Byte>, p: nat)
    requires WellPadded(text) && p == PadCount(text)
    ensures text == text[..|text| - p] + Repeat(EQUALS, p)
    ensures forall c :: c in text[..|text| - p] ==> InAlphabet(c)
  {
  }

  lemma CanonicalIsEncoded(text: CString) returns (s: seq<Byte>)
    requires Canonical(text)
    ensures Encode(s) == text
  {
    var p := PadCount(text);
    var letters := text[..|text| - p];
    TextParts(text, p);
    LettersOfSixes(letters);
    s := BytesOfLetters(Sixes(letters), |text| / 4, p);
  }

  /** Encoding gives a decoded text back exactly when the text is canonical. */
  lemma EncodeInvertsDecode(text: CString)
    ensures Decode(text).Some? && Encode(Decode(text).value) == text <==> Canonical(text)
  {
    if Canonical(text) {
      var s := CanonicalIsEncoded(text);
      RoundTrip(s);
    }
    if Decode(text).Some? {
      EncodedIsCanonical(Decode(text).value);
    }
  }

  // ---------- the block arithmetic that the iterators replaced ----------

  /** Six-bit values by blocks of three bytes, the last block filled up with zeros. */
  function BlockSixes(s: seq<Byte>): (six: seq<int>)
    ensures forall i :: 0 <= i < |six| ==> 0 <= six[i] < 64
  {
    if |s| == 0 then []
    else if |s| == 1 then [s[0] / 4, 16 * (s[0] % 4)]
    else if |s| == 2 then [s[0] / 4, 16 * (s[0] % 4) + s[1] / 16, 4 * (s[1] % 16)]
    else [s[0] / 4, 16 * (s[0] % 4) + s[1] / 16, 4 * (s[1] % 16) + s[2] / 64, s[2] % 64] + BlockSixes(s[3..])
  }

  lemma Shifts(q: nat)
    ensures ShiftLeft(q, 2) == 4 * q && ShiftLeft(q, 4) == 16 * q && ShiftLeft(q, 6) == 64 * q
  {
    assert ShiftLeft(q, 2) == 2 * ShiftLeft(q, 1);
    assert ShiftLeft(q, 4) == 2 * ShiftLeft(q, 3) == 4 * ShiftLeft(q, 2);
    assert ShiftLeft(q, 6) == 2 * ShiftLeft(q, 5) == 4 * ShiftLeft(q, 4);
  }

  /** A number put together from high bits and two, four or six low ones. */
  lemma TwoLowBits(v: nat, q: nat, r: nat, w: nat)
    requires v == 4 * q + r && r < 4
    ensures Bits(v, w + 2) == Bits(q, w) + Bits(r, 2)
  {
    Shifts(q);
    BitsAppend(q, w, 2, r);
  }

  lemma FourLowBits(v: nat, q: nat, r: nat, w: nat)
    requires v == 16 * q + r && r < 16
    ensures Bits(v, w + 4) == Bits(q, w) + Bits(r, 4)
  {
    Shifts(q);
    BitsAppend(q, w, 4, r);
  }

  lemma SixLowBits(v: nat, q: nat, r: nat, w: nat)
    requires v == 64 * q + r && r < 64
    ensures Bits(v, w + 6) == Bits(q, w) + Bits(r, 6)
  {
    Shifts(q);
    Powers();
    BitsAppend(q, w, 6, r);
  }

  lemma Regroup(a: seq<bool>, a': seq<bool>, b: seq<bool>, b': seq<bool>, c: seq<bool>, c': seq<bool>)
    ensures a + (a' + b) + (b' + c) + c' == (a + a') + (b + b') + (c + c')
    ensures a + (a' + b) + (b' + c) == (a + a') + (b + b') + c
    ensures a + (a' + b) == (a + a') + b
  {
  }

  /** A whole block: four values hold the bits of three bytes. */
  lemma {:induction false} BlockBits(a: nat, b: nat, c: nat, a1: nat, a2: nat, b1: nat, b2: nat, c1: nat,
          c2: nat, x: nat, y: nat)
    requires a == 4 * a1 + a2 && b == 16 * b1 + b2 && c == 64 * c1 + c2 && x == 16 * a2 + b1 && y == 4 * b2 + c1
    requires a2 < 4 && b1 < 16 && b2 < 16 && c1 < 4 && c2 < 64
    ensures Bits(a1, 6) + Bits(x, 6) + Bits(y, 6) + Bits(c2, 6) == Bits(a, 8) + Bits(b, 8) + Bits(c, 8)
  {
    hide Bits, Pow2;
    TwoLowBits(a, a1, a2, 6);
    FourLowBits(x, a2, b1, 2);
    FourLowBits(b, b1, b2, 4);
    TwoLowBits(y, b2, c1, 4);
    SixLowBits(c, c1, c2, 2);
    Regroup(Bits(a1, 6), Bits(a2, 2), Bits(b1, 4), Bits(b2, 4), Bits(c1, 2), Bits(c2, 6));
  }

  /** One byte and four zeros. */
  lemma OneByteBits(a: nat, a1: nat, a2: nat, x: nat)
    requires a == 4 * a1 + a2 && a2 < 4 && x == 16 * a2
    ensures Bits(a1, 6) + Bits(x, 6) == Bits(a, 8) + Zeros(4)
  {
    TwoLowBits(a, a1, a2, 6);
    FourLowBits(x, a2, 0, 2);
    ZeroBits(4);
    Regroup(Bits(a1, 6), Bits(a2, 2), Zeros(4), [], [], []);
  }

  /** Two bytes and two zeros. */
  lemma TwoByteBits(a: nat, b: nat, a1: nat, a2: nat, b1: nat, b2: nat, x: nat, y: nat)
    requires a == 4 * a1 + a2 && b == 16 * b1 + b2 && x == 16 * a2 + b1 && y == 4 * b2
    requires a2 < 4 && b1 < 16 && b2 < 16
    ensures Bits(a1, 6) + Bits(x, 6) + Bits(y, 6) == Bits(a, 8) + Bits(b, 8) + Zeros(2)
  {
    TwoLowBits(a, a1, a2, 6);
    FourLowBits(x, a2, b1, 2);
    FourLowBits(b, b1, b2, 4);
    TwoLowBits(y, b2, 0, 4);
    ZeroBits(2);
    Regroup(Bits(a1, 6), Bits(a2, 2), Bits(b1, 4), Bits(b2, 4), Zeros(2), []);
  }

  lemma StreamOfOne(x: int, w: nat)
    ensures Stream([x], w) == Bits(x, w)
  {
    assert [x][1..] == [];
  }

  lemma StreamOfTwo(x: int, y: int, w: nat)
    ensures Stream([x, y], w) == Bits(x, w) + Bits(y, w)
  {
    assert [x, y][1..] == [y];
    StreamOfOne(y, w);
  }

  lemma StreamOfThree(x: int, y: int, z: int, w: nat)
    ensures Stream([x, y, z], w) == Bits(x, w) + Bits(y, w) + Bits(z, w)
  {
    assert [x, y, z][1..] == [y, z];
    StreamOfTwo(y, z, w);
  }

  lemma LastByte(a: Byte)
    ensures Stream(BlockSixes([a]), 6) == Stream([a], 8) + Zeros(4)
  {
    assert BlockSixes([a]) == [a / 4, 16 * (a % 4)];
    StreamOfTwo(a / 4, 16 * (a % 4), 6);
    StreamOfOne(a, 8);
    OneByteBits(a, a / 4, a % 4, 16 * (a % 4));
  }

  lemma LastTwoBytes(a: Byte, b: Byte)
    ensures Stream(BlockSixes([a, b]), 6) == Stream([a, b], 8) + Zeros(2)
  {
    assert BlockSixes([a, b]) == [a / 4, 16 * (a % 4) + b / 16, 4 * (b % 16)];
    StreamOfThree(a / 4, 16 * (a % 4) + b / 16, 4 * (b % 16), 6);
    StreamOfTwo(a, b, 8);
    TwoByteBits(a, b, a / 4, a % 4, b / 16, b % 16, 16 * (a % 4) + b / 16, 4 * (b % 16));
  }

  lemma BlockSixesFront(a: Byte, b: Byte, c: Byte, rest: seq<Byte>)
    ensures BlockSixes([a, b, c] + rest) ==
              [a / 4, 16 * (a % 4) + b / 16, 4 * (b % 16) + c / 64] + [c % 64] + BlockSixes(rest)
  {
    assert ([a, b, c] + rest)[3..] == rest;
  }

  lemma ValuesFront(a: Byte, b: Byte, c: Byte, rest: seq<Byte>)
    ensures Stream(BlockSixes([a, b, c] + rest), 6) ==
              Bits(a, 8) + Bits(b, 8) + Bits(c, 8) + Stream(BlockSixes(rest), 6)
  {
    BlockSixesFront(a, b, c, rest);
    var x, y, z := a / 4, 16 * (a % 4) + b / 16, 4 * (b % 16) + c / 64;
    StreamConcat([x, y, z] + [c % 64], BlockSixes(rest), 6);
    StreamOneMore([x, y, z], c % 64, 6);
    StreamOfThree(x, y, z, 6);
    BlockBits(a, b, c, a / 4, a % 4, b / 16, b % 16, c / 64, c % 64, y, z);
  }

  lemma BytesFront(a: Byte, b: Byte, c: Byte, rest: seq<Byte>)
    ensures Stream([a, b, c] + rest, 8) == Bits(a, 8) + Bits(b, 8) + Bits(c, 8) + Stream(rest, 8)
  {
    StreamConcat([a, b, c], rest, 8);
    StreamOfThree(a, b, c, 8);
  }

  /** A whole block in front adds its bits to the stream of values and to the stream of bytes alike. */
  lemma WholeBlock(a: Byte, b: Byte, c: Byte, rest: seq<Byte>, z: seq<bool>)
    requires Stream(BlockSixes(rest), 6) == Stream(rest, 8) + z
    ensures Stream(BlockSixes([a, b, c] + rest), 6) == Stream([a, b, c] + rest, 8) + z
  {
    ValuesFront(a, b, c, rest);
    BytesFront(a, b, c, rest);
    Assoc(Bits(a, 8) + Bits(b, 8) + Bits(c, 8), Stream(rest, 8), z);
  }

  lemma FirstThree(s: seq<Byte>)
    requires |s| >= 3
    ensures s == [s[0], s[1], s[2]] + s[3..] && ZeroFill(|s|) == ZeroFill(|s[3..]|)
  {
  }

  lemma {:induction false} BlockStream(s: seq<Byte>)
    ensures Stream(BlockSixes(s), 6) == Stream(s, 8) + Zeros(ZeroFill(|s|))
  {
    if |s| >= 3 {
      FirstThree(s);
      BlockStream(s[3..]);
      WholeBlock(s[0], s[1], s[2], s[3..], Zeros(ZeroFill(|s|)));
    } else if |s| == 2 {
      assert s == [s[0], s[1]];
      LastTwoBytes(s[0], s[1]);
    } else if |s| == 1 {
      assert s == [s[0]];
      LastByte(s[0]);
    }
  }

  /** The iterators compute what block arithmetic does: encoding is by blocks of three bytes. */
  lemma EncodeIsBlockwise(s: seq<Byte>)
    ensures Encode(s) == Letters(BlockSixes(s)) + Repeat(EQUALS, PadLength(|s|))
  {
    BlockStream(s);
    SixBitsAre(s, BlockSixes(s));
  }

  // ---------- every character and every byte, in numbers ----------

  function ByteAt(s: seq<Byte>, j: nat): Byte {
    if j < |s| then s[j] else 0
  }

  /** The 24 bits that the block of byte `3 * q` holds, as a number; missing bytes are zero. */
  function Block(s: seq<Byte>, q: nat): nat {
    65536 * ByteAt(s, 3 * q) + 256 * ByteAt(s, 3 * q + 1) + ByteAt(s, 3 * q + 2)
  }

  /** The `k`-th group of six of those bits. */
  function Group(n: nat, k: nat): nat
    requires k < 4
  {
    match k
    case 0 => n / 262144 % 64
    case 1 => n / 4096 % 64
    case 2 => n / 64 % 64
    case 3 => n % 64
  }

  lemma GroupsOf(n: nat, a: nat, b: nat, c: nat, d: nat)
    requires a < 64 && b < 64 && c < 64 && d < 64 && n == 262144 * a + 4096 * b + 64 * c + d
    ensures Group(n, 0) == a && Group(n, 1) == b && Group(n, 2) == c && Group(n, 3) == d
  {
    assert n / 262144 == a;
    assert n / 4096 == 64 * a + b;
    assert n / 64 == 64 * (64 * a + b) + c;
    assert n == 64 * (64 * (64 * a + b) + c) + d;
  }

  lemma BlockGroups(a: Byte, b: Byte, c: Byte)
    ensures var n := 65536 * a + 256 * b + c;
            && Group(n, 0) == a / 4 && Group(n, 1) == 16 * (a % 4) + b / 16
            && Group(n, 2) == 4 * (b % 16) + c / 64 && Group(n, 3) == c % 64
  {
    GroupsOf(65536 * a + 256 * b + c, a / 4, 16 * (a % 4) + b / 16, 4 * (b % 16) + c / 64, c % 64);
  }

  lemma BlockBehind(s: seq<Byte>, q: nat)
    requires |s| >= 3 && q > 0
    ensures Block(s, q) == Block(s[3..], q - 1)
  {
  }

  lemma {:induction false} BlockSixesLength(s: seq<Byte>)
    ensures |BlockSixes(s)| == (4 * |s| + 2) / 3
  {
    if |s| >= 3 {
      BlockSixesLength(s[3..]);
    }
  }

  lemma {:induction false} BlockSixesAt(s: seq<Byte>, q: nat, k: nat)
    requires k < 4 && 4 * q + k < |BlockSixes(s)|
    ensures BlockSixes(s)[4 * q + k] == Group(Block(s, q), k)
    decreases q
  {
    hide Group;
    if q > 0 {
      assert |s| > 3;
      BlockSixesAt(s[3..], q - 1, k);
      BlockBehind(s, q);
    } else {
      BlockGroups(ByteAt(s, 0), ByteAt(s, 1), ByteAt(s, 2));
    }
  }

  /**
   * Encoded text, character by character: letter `i` stands for six bits of the block of three bytes it
   * belongs to, missing bytes read as zero, and behind the letters there is padding up to whole groups of
   * four.
   */
  lemma EncodedCharacter(s: seq<Byte>, i: nat)
    requires i < 4 * ((|s| + 2) / 3)
    ensures |Encode(s)| == 4 * ((|s| + 2) / 3)
    ensures Encode(s)[i] ==
              if i < (4 * |s| + 2) / 3 then Letter(Group(Block(s, i / 4), i % 4)) else '=' as int
  {
    EncodedShape(s);
    EncodeIsBlockwise(s);
    BlockSixesLength(s);
    if i < |BlockSixes(s)| {
      BlockSixesAt(s, i / 4, i % 4);
      LetterOfValue(BlockSixes(s)[i]);
    }
  }

  /** Decoding rejects exactly a character that is neither a letter nor padding, and a length of 4k + 1. */
  lemma DecodesIff(text: CString)
    ensures Decode(text).Some? <==>
              && |text| % 4 != 1
              && forall i :: 0 <= i < |text| ==>
                   text[i] == '=' as int || exists v :: 0 <= v < 64 && text[i] == Letter(v)
  {
    forall i | 0 <= i < |text|
      ensures ToSixBit(text[i]) >= 0 <==> text[i] == '=' as int || exists v :: 0 <= v < 64 && text[i] == Letter(v)
    {
      ValueOfLetter(text[i]);
      var v := ToSixBit(text[i]);
      if v >= 0 && text[i] != '=' as int {
        assert text[i] == Letter(v);
      }
    }
  }

  /** The whole bytes of six-bit values, by blocks of four values. */
  function BlockBytes(six: seq<int>): seq<Byte>
    requires forall i :: 0 <= i < |six| ==> 0 <= six[i] < 64
  {
    if |six| < 2 then []
    else if |six| == 2 then [4 * six[0] + six[1] / 16]
    else if |six| == 3 then [4 * six[0] + six[1] / 16, 16 * (six[1] % 16) + six[2] / 4]
    else
      [4 * six[0] + six[1] / 16, 16 * (six[1] % 16) + six[2] / 4, 64 * (six[2] % 4) + six[3]] + BlockBytes(six[4..])
  }

  lemma PeelByte(v: Byte, rest: seq<bool>)
    ensures Groups(Bits(v, 8) + rest, 8) == [v] + Groups(rest, 8)
  {
    Powers();
    ValueOfBits(v, 8);
    Cut(Bits(v, 8), rest, 8);
  }

  lemma StreamFront(x: int, y: int, rest: seq<int>)
    ensures Stream([x, y] + rest, 6) == Bits(x, 6) + Bits(y, 6) + Stream(rest, 6)
  {
    StreamConcat([x, y], rest, 6);
    StreamOfTwo(x, y, 6);
  }

  /** Two values: one byte and four bits. */
  lemma TwoValues(v: nat, w: nat)
    requires v < 64 && w < 64
    ensures Bits(v, 6) + Bits(w, 6) == Bits(4 * v + w / 16, 8) + Bits(w % 16, 4)
  {
    hide Bits, Pow2;
    TwoLowBits(4 * v + w / 16, v, w / 16, 6);
    FourLowBits(w, w / 16, w % 16, 2);
    Regroup(Bits(v, 6), Bits(w / 16, 2), Bits(w % 16, 4), [], [], []);
  }

  /** Three values: two bytes and two bits. */
  lemma ThreeValues(v: nat, w: nat, x: nat)
    requires v < 64 && w < 64 && x < 64
    ensures Bits(v, 6) + Bits(w, 6) + Bits(x, 6) ==
              Bits(4 * v + w / 16, 8) + Bits(16 * (w % 16) + x / 4, 8) + Bits(x % 4, 2)
  {
    hide Bits, Pow2;
    TwoValues(v, w);
    FourLowBits(16 * (w % 16) + x / 4, w % 16, x / 4, 4);
    TwoLowBits(x, x / 4, x % 4, 4);
    Regroup(Bits(4 * v + w / 16, 8), [], Bits(w % 16, 4), Bits(x / 4, 4), Bits(x % 4, 2), []);
    Assoc(Bits(4 * v + w / 16, 8), Bits(w % 16, 4), Bits(x / 4, 4) + Bits(x % 4, 2));
    Assoc(Bits(4 * v + w / 16, 8), Bits(w % 16, 4) + Bits(x / 4, 4), Bits(x % 4, 2));
    Assoc(Bits(w % 16, 4), Bits(x / 4, 4), Bits(x % 4, 2));
  }

  /** Four values: three bytes. */
  lemma FourValues(v: nat, w: nat, x: nat, y: nat)
    requires v < 64 && w < 64 && x < 64 && y < 64
    ensures Bits(v, 6) + Bits(w, 6) + Bits(x, 6) + Bits(y, 6) ==
              Bits(4 * v + w / 16, 8) + Bits(16 * (w % 16) + x / 4, 8) + Bits(64 * (x % 4) + y, 8)
  {
    hide Bits, Pow2;
    BlockBits(4 * v + w / 16, 16 * (w % 16) + x / 4, 64 * (x % 4) + y, v, w / 16, w % 16, x / 4, x % 4, y, w, x);
  }

  /** Decoded bytes, in numbers: every block of four values gives the three bytes of its 24 bits. */
  lemma {:induction false} BytesAreBlocks(six: seq<int>)
    requires forall i :: 0 <= i < |six| ==> 0 <= six[i] < 64
    ensures Bytes(six) == BlockBytes(six)
  {
    hide Stream, Groups;
    if |six| >= 4 {
      BytesAreBlocks(six[4..]);
      WholeValues(six[0], six[1], six[2], six[3], six[4..]);
      assert six == [six[0], six[1], six[2], six[3]] + six[4..];
    } else if |six| == 3 {
      assert six == [six[0], six[1], six[2]];
      LastThreeValues(six[0], six[1], six[2]);
    } else if |six| == 2 {
      assert six == [six[0], six[1]];
      LastTwoValues(six[0], six[1]);
    } else {
      StreamLength(six, 6);
      FewBits(Stream(six, 6));
    }
  }

  /** What decoding gives: the bytes of the blocks, less one or two for padding at the end. */
  lemma DecodedBytes(text: CString)
    requires Decode(text).Some?
    ensures forall i :: 0 <= i < |text| ==> 0 <= Sixes(text)[i] < 64
    ensures var bytes, n := BlockBytes(Sixes(text)), |text|;
            var two := |bytes| > 2 && text[n - 2] == text[n - 1] == '=' as int;
            var one := |bytes| > 1 && text[n - 1] == '=' as int;
            Decode(text) == Some(bytes[..|bytes| - if two then 2 else if one then 1 else 0])
  {
    hide BlockBytes, Groups, Stream;
    BytesLength(Sixes(text));
    BytesAreBlocks(Sixes(text));
    var bytes := Bytes(Sixes(text));
    assert bytes[..|bytes|] == bytes;
  }

  lemma LastTwoValues(v: nat, w: nat)
    requires v < 64 && w < 64
    ensures Groups(Stream([v, w], 6), 8) == [4 * v + w / 16]
  {
    StreamOfTwo(v, w, 6);
    TwoValues(v, w);
    PeelByte(4 * v + w / 16, Bits(w % 16, 4));
  }

  lemma LastThreeValues(v: nat, w: nat, x: nat)
    requires v < 64 && w < 64 && x < 64
    ensures Groups(Stream([v, w, x], 6), 8) == [4 * v + w / 16, 16 * (w % 16) + x / 4]
  {
    hide Bits, Pow2, Groups;
    StreamOfThree(v, w, x, 6);
    ThreeValues(v, w, x);
    var a, b, rest := 4 * v + w / 16, 16 * (w % 16) + x / 4, Bits(x % 4, 2);
    Assoc(Bits(a, 8), Bits(b, 8), rest);
    PeelByte(a, Bits(b, 8) + rest);
    PeelByte(b, rest);
    FewBits(rest);
  }

  lemma FewBits(bits: seq<bool>)
    requires |bits| < 8
    ensures Groups(bits, 8) == []
  {
  }

  lemma WholeValues(v: nat, w: nat, x: nat, y: nat, rest: seq<int>)
    requires v < 64 && w < 64 && x < 64 && y < 64
    ensures Groups(Stream([v, w, x, y] + rest, 6), 8) ==
              [4 * v + w / 16, 16 * (w % 16) + x / 4, 64 * (x % 4) + y] + Groups(Stream(rest, 6), 8)
  {
    hide Bits, Pow2, Groups, Stream;
    var a, b, c, bits := 4 * v + w / 16, 16 * (w % 16) + x / 4, 64 * (x % 4) + y, Stream(rest, 6);
    assert [v, w, x, y] + rest == [v, w] + ([x, y] + rest);
    StreamFront(v, w, [x, y] + rest);
    StreamFront(x, y, rest);
    FourValues(v, w, x, y);
    var front := Bits(v, 6) + Bits(w, 6);
    Assoc(front, Bits(x, 6) + Bits(y, 6), bits);
    Assoc(front, Bits(x, 6), Bits(y, 6));
    Assoc(Bits(a, 8) + Bits(b, 8), Bits(c, 8), bits);
    Assoc(Bits(a, 8), Bits(b, 8), Bits(c, 8) + bits);
    PeelByte(a, Bits(b, 8) + (Bits(c, 8) + bits));
    PeelByte(b, Bits(c, 8) + bits);
    PeelByte(c, bits);
  }
}
