/**
 Nix base32: bytes repacked least significant bit first into five-bit digits,
 written most significant digit first.

 Bit k of the data is bit k % 8 of byte k / 8; bit k of a string is bit k % 5 of
 the digit k / 5 places from its end. Encoding and decoding keep every bit where
 it is, which gives the round trips and the equality of the numbers written.
 */
module Base32 {

  type Byte = bv8

  const ALPHABET: string := "0123456789abcdfghijklmnpqrsvwxyz"
  const NO_DIGIT: Byte := 0xFF

  /** Bit j of a byte. */
  predicate Bit(b: Byte, j: nat)
    requires j < 8
  {
    b & (if j == 0 then 1 else if j == 1 then 2 else if j == 2 then 4 else if j == 3 then 8
         else if j == 4 then 16 else if j == 5 then 32 else if j == 6 then 64 else 128) != 0
  }

  /** b >> j, the shift amount taken case by case so that every shift is by a constant. */
  function Shr(b: Byte, j: nat): Byte
    requires j <= 8
  {
    if j == 0 then b else if j == 1 then b >> 1 else if j == 2 then b >> 2 else if j == 3 then b >> 3
    else if j == 4 then b >> 4 else if j == 5 then b >> 5 else if j == 6 then b >> 6 else if j == 7 then b >> 7 else 0
  }

  /** b << j, bits beyond the byte being lost. */
  function Shl(b: Byte, j: nat): Byte
    requires j <= 8
  {
    if j == 0 then b else if j == 1 then b << 1 else if j == 2 then b << 2 else if j == 3 then b << 3
    else if j == 4 then b << 4 else if j == 5 then b << 5 else if j == 6 then b << 6 else if j == 7 then b << 7 else 0
  }

  function OutputLength(n: nat): nat
  {
    if n == 0 then 0 else (n * 8 - 1) / 5 + 1
  }

  // ---- digits ---------------------------------------------------------------

  /** The place of a character in the alphabet, or -1. */
  function Place(c: char): (i: int)
    ensures -1 <= i < 32
    ensures i >= 0 ==> ALPHABET[i] == c
    ensures i < 0 ==> c !in ALPHABET
  {
    FindPlace(c, 32)
  }

  function FindPlace(c: char, n: nat): (i: int)
    requires n <= 32
    ensures -1 <= i < n
    ensures i >= 0 ==> ALPHABET[i] == c
    ensures i < 0 ==> c !in ALPHABET[..n]
  {
    if n == 0 then -1
    else if ALPHABET[n - 1] == c then n - 1
    else
      assert ALPHABET[..n] == ALPHABET[..n - 1] + [ALPHABET[n - 1]];
      FindPlace(c, n - 1)
  }

  /** The table entry of a character: its place in the alphabet, or 0xFF. */
  function DigitOf(c: char): Byte
  {
    if Place(c) < 0 then NO_DIGIT else Place(c) as bv8
  }

  lemma NextCharacter(i: nat)
    requires i < 31
    ensures ALPHABET[i] < ALPHABET[i + 1]
  {
    if i < 15 {
    } else {
    }
  }

  lemma {:induction false} AlphabetIncreases(i: nat, j: nat)
    requires i < j < 32
    ensures ALPHABET[i] < ALPHABET[j]
    decreases j - i
  {
    NextCharacter(i);
    if i + 1 < j {
      AlphabetIncreases(i + 1, j);
    }
  }

  lemma PlaceOfCharacter(i: nat)
    requires i < 32
    ensures Place(ALPHABET[i]) == i
  {
    var d := Place(ALPHABET[i]);
    assert ALPHABET[i] in ALPHABET;
    if d < i { AlphabetIncreases(d, i); }
    if i < d { AlphabetIncreases(i, d); }
  }

  /** A place fits a byte and is told apart from the marker of other characters. */
  lemma PlaceFits(i: nat)
    requires i < 32
    ensures (i as bv8) as int == i && i as bv8 != NO_DIGIT
    ensures !Bit(i as bv8, 5) && !Bit(i as bv8, 6) && !Bit(i as bv8, 7)
  {
  }

  /** Builds the table once: 0xFF everywhere, then the place of each alphabet character. */
  method BuildIndex() returns (index: array<Byte>)
    ensures fresh(index) && index.Length == 256
    ensures forall c: char :: c as int < 256 ==> index[c as int] == DigitOf(c)
  {
    index := new Byte[256];
    for x := 0 to 256
      invariant forall y :: 0 <= y < x ==> index[y] == NO_DIGIT
    {
      index[x] := NO_DIGIT;
    }
    hide Place, DigitOf;
    for i := 0 to 32
      invariant forall c: char :: c as int < 256 ==>
        index[c as int] == if 0 <= Place(c) < i then DigitOf(c) else NO_DIGIT
    {
      EntryOfCharacter(i);
      index[ALPHABET[i] as int] := i as bv8;
    }
    NoEntries();
  }

  /** The table entry written for the character at this place, and for no other. */
  lemma EntryOfCharacter(i: nat)
    requires i < 32
    ensures ALPHABET[i] as int < 256 && DigitOf(ALPHABET[i]) == i as bv8
    ensures forall c :: Place(c) == i <==> c == ALPHABET[i]
  {
    PlaceOfCharacter(i);
  }

  lemma NoEntries()
    ensures forall c :: Place(c) < 0 ==> DigitOf(c) == NO_DIGIT
  {
  }

  // ---- the bit view ------------------------------------------------------------

  /** Bit k of the data, false past its end. */
  predicate DataBit(data: seq<Byte>, k: nat)
  {
    k < 8 * |data| && Bit(data[k / 8], k % 8)
  }

  predicate IsBase32(s: string)
  {
    forall n :: 0 <= n < |s| ==> DigitOf(s[n]) != NO_DIGIT
  }

  /** Bit k of a string, counting from its last character. */
  predicate DigitBit(s: string, k: nat)
    requires k < 5 * |s|
  {
    Bit(DigitOf(s[|s| - 1 - k / 5]), k % 5)
  }

  lemma ShiftRightBit(x: Byte, j: nat, k: nat)
    requires j <= 8 && k < 8
    ensures Bit(Shr(x, j), k) == (j + k < 8 && Bit(x, j + k))
  {
  }

  lemma ShiftLeftBit(x: Byte, j: nat, k: nat)
    requires j <= 8 && k < 8
    ensures Bit(Shl(x, j), k) == (k >= j && Bit(x, k - j))
  {
  }

  lemma OrBit(x: Byte, y: Byte, k: nat)
    requires k < 8
    ensures Bit(x | y, k) == (Bit(x, k) || Bit(y, k))
  {
  }

  lemma LowFiveBits(x: Byte, k: nat)
    requires k < 8
    ensures Bit(x & 0x1F, k) == (k < 5 && Bit(x, k))
    ensures x & 0x1F < 32
  {
  }

  lemma SameBits(x: Byte, y: Byte)
    requires forall k: nat :: k < 8 ==> Bit(x, k) == Bit(y, k)
    ensures x == y
  {
    assert Bit(x, 0) == Bit(y, 0) && Bit(x, 1) == Bit(y, 1) && Bit(x, 2) == Bit(y, 2) && Bit(x, 3) == Bit(y, 3);
    assert Bit(x, 4) == Bit(y, 4) && Bit(x, 5) == Bit(y, 5) && Bit(x, 6) == Bit(y, 6) && Bit(x, 7) == Bit(y, 7);
  }

  // ---- encoding ------------------------------------------------------------------

  /** The five-bit value written at position n of the encoding. */
  function EncodedDigit(data: seq<Byte>, n: nat): (d: Byte)
    requires n < OutputLength(|data|)
    ensures d < 32
  {
    var b := (OutputLength(|data|) - n - 1) * 5;
    var i, j := b / 8, b % 8;
    var c := if i >= |data| - 1 then Shr(data[i], j) else Shr(data[i], j) | Shl(data[i + 1], 8 - j);
    c & 0x1F
  }

  /** Five bits taken from two neighbouring bytes. */
  lemma JoinedBits(lo: Byte, hi: Byte, j: nat, t: nat)
    requires j < 8 && t < 8
    ensures Bit((Shr(lo, j) | Shl(hi, 8 - j)) & 0x1F, t) ==
      (t < 5 && if j + t < 8 then Bit(lo, j + t) else Bit(hi, j + t - 8))
    ensures Bit(Shr(lo, j) & 0x1F, t) == (t < 5 && j + t < 8 && Bit(lo, j + t))
  {
    hide Bit, Shr, Shl;
    ShiftRightBit(lo, j, t);
    ShiftLeftBit(hi, 8 - j, t);
    OrBit(Shr(lo, j), Shl(hi, 8 - j), t);
    LowFiveBits(Shr(lo, j), t);
    LowFiveBits(Shr(lo, j) | Shl(hi, 8 - j), t);
  }

  lemma EncodedDigitBits(data: seq<Byte>, n: nat, t: nat)
    requires n < OutputLength(|data|) && t < 8
    ensures Bit(EncodedDigit(data, n), t) == (t < 5 && DataBit(data, (OutputLength(|data|) - n - 1) * 5 + t))
  {
    hide Bit, Shr, Shl;
    var b := (OutputLength(|data|) - n - 1) * 5;
    var i, j := b / 8, b % 8;
    BitPosition(b, t);
    JoinedBits(data[i], if i + 1 < |data| then data[i + 1] else 0, j, t);
  }

  lemma BitPosition(b: nat, t: nat)
    requires t < 8
    ensures b % 8 + t < 8 ==> (b + t) / 8 == b / 8 && (b + t) % 8 == b % 8 + t
    ensures b % 8 + t >= 8 ==> (b + t) / 8 == b / 8 + 1 && (b + t) % 8 == b % 8 + t - 8
  {
  }

  function Encode(data: seq<Byte>): (s: string)
    ensures |s| == OutputLength(|data|)
  {
    seq(OutputLength(|data|), n requires 0 <= n < OutputLength(|data|) => ALPHABET[EncodedDigit(data, n) as int])
  }

  lemma DigitOfEncoded(data: seq<Byte>, n: nat)
    requires n < OutputLength(|data|)
    ensures DigitOf(Encode(data)[n]) == EncodedDigit(data, n) != NO_DIGIT
  {
    var d := EncodedDigit(data, n) as int;
    PlaceOfCharacter(d);
    PlaceFits(d);
  }

  /** Encoding moves no bit and fills up with zeros. */
  lemma EncodeKeepsBits(data: seq<Byte>)
    ensures IsBase32(Encode(data))
    ensures forall k: nat :: k < 5 * |Encode(data)| ==> DigitBit(Encode(data), k) == DataBit(data, k)
    ensures 8 * |data| <= 5 * |Encode(data)| < 8 * |data| + 5
  {
    var s := Encode(data);
    hide Encode, EncodedDigit, Bit, DigitOf;
    forall n | 0 <= n < |s|
      ensures DigitOf(s[n]) != NO_DIGIT
    {
      DigitOfEncoded(data, n);
    }
    forall k: nat | k < 5 * |s|
      ensures DigitBit(s, k) == DataBit(data, k)
    {
      var n := |s| - 1 - k / 5;
      DigitOfEncoded(data, n);
      EncodedDigitBits(data, n, k % 5);
      assert (|s| - n - 1) * 5 + k % 5 == k;
    }
  }

  lemma EncodedLength(data: seq<Byte>)
    ensures data == [] ==> Encode(data) == ""
    ensures data != [] ==> |Encode(data)| == (|data| * 8 - 1) / 5 + 1
  {
  }

  /** Character n, from the byte and bit it starts at. */
  lemma EncodedAt(data: seq<Byte>, n: nat, i: nat, j: nat)
    requires n < OutputLength(|data|) && i == (OutputLength(|data|) - n - 1) * 5 / 8
      && j == (OutputLength(|data|) - n - 1) * 5 % 8
    ensures n < |Encode(data)| && i < |data|
    ensures var c := if i >= |data| - 1 then Shr(data[i], j) else Shr(data[i], j) | Shl(data[i + 1], 8 - j);
      (c & 0x1F) as int < |ALPHABET| && Encode(data)[n] == ALPHABET[(c & 0x1F) as int]
  {
    hide Shr, Shl;
  }

  /** Encodes byte by byte into a buffer. */
  method EncodeBase32(data: seq<Byte>) returns (s: string)
    ensures s == Encode(data)
    ensures Writes(s, data)
  {
    hide *;
    EncodeWrites(data);
    EncodedLength(data);
    if |data| == 0 {
      return "";
    }
    var outputLen := (|data| * 8 - 1) / 5 + 1;
    var result := new char[outputLen];
    for n := 0 to outputLen
      invariant forall m :: 0 <= m < n ==> result[m] == Encode(data)[m]
    {
      var b := (outputLen - n - 1) * 5;
      var i, j := b / 8, b % 8;
      var c := if i >= |data| - 1 then Shr(data[i], j) else Shr(data[i], j) | Shl(data[i + 1], 8 - j);
      EncodedAt(data, n, i, j);
      result[n] := ALPHABET[(c & 0x1F) as int];
    }
    s := result[..];
  }

  // ---- decoding ------------------------------------------------------------------

  /** The index expression of the decoder stays within its buffer. */
  predicate DecodableLength(len: nat)
  {
    len % 8 in {0, 2, 4, 5, 7}
  }

  datatype Decoded = Bytes(data: seq<Byte>) | InvalidCharacter(n: nat) | IndexOutOfRange(n: nat)

  /** The byte with these bits, least significant first. */
  function Pack(bits: seq<bool>): Byte
    requires |bits| == 8
  {
    (if bits[0] then 1 else 0) | (if bits[1] then 2 else 0) | (if bits[2] then 4 else 0) | (if bits[3] then 8 else 0)
    | (if bits[4] then 16 else 0) | (if bits[5] then 32 else 0)
    | (if bits[6] then 64 else 0) | (if bits[7] then 128 else 0)
  }

  lemma PackBit(bits: seq<bool>, j: nat)
    requires |bits| == 8 && j < 8
    ensures Bit(Pack(bits), j) == bits[j]
  {
    if j == 0 {
    } else if j == 1 {
    } else if j == 2 {
    } else if j == 3 {
    } else if j == 4 {
    } else if j == 5 {
    } else if j == 6 {
    } else {
      assert j == 7;
    }
  }

  /** Byte i of a decoded string. */
  function Packed(s: string, i: nat): Byte
    requires 8 * i + 8 <= 5 * |s|
  {
    Pack(seq(8, j requires 0 <= j < 8 => DigitBit(s, 8 * i + j)))
  }

  lemma PackedBits(s: string, i: nat, j: nat)
    requires 8 * i + 8 <= 5 * |s| && j < 8
    ensures Bit(Packed(s, i), j) == DigitBit(s, 8 * i + j)
  {
    PackBit(seq(8, j requires 0 <= j < 8 => DigitBit(s, 8 * i + j)), j);
  }

  function DecodedBytes(s: string): (data: seq<Byte>)
    ensures |data| == 5 * |s| / 8
  {
    seq(5 * |s| / 8, i requires 0 <= i < 5 * |s| / 8 => Packed(s, i))
  }

  /** The first position from n on that holds no digit, or the length. */
  function FirstInvalid(s: string, n: nat): (m: nat)
    requires n <= |s|
    ensures n <= m <= |s|
    ensures forall k :: n <= k < m ==> DigitOf(s[k]) != NO_DIGIT
    ensures m < |s| ==> DigitOf(s[m]) == NO_DIGIT
    decreases |s| - n
  {
    if n == |s| || DigitOf(s[n]) == NO_DIGIT then n else FirstInvalid(s, n + 1)
  }

  /**
   The outcome of decoding any string. The first digit is looked up before the
   buffer is indexed, and it is the only one whose index can be out of range.
   */
  function Decode(s: string): Decoded
  {
    if s == "" then Bytes([])
    else if FirstInvalid(s, 0) == 0 then InvalidCharacter(0)
    else if !DecodableLength(|s|) then IndexOutOfRange(0)
    else if FirstInvalid(s, 0) < |s| then InvalidCharacter(FirstInvalid(s, 0))
    else Bytes(DecodedBytes(s))
  }

  /** Bit p of the buffer once the first n characters are stored. */
  predicate Stored(s: string, n: nat, p: nat)
    requires n <= |s|
  {
    5 * (|s| - n) <= p < 5 * |s| && DigitBit(s, p)
  }

  ghost predicate BufferHolds(buffer: seq<Byte>, s: string, n: nat)
    requires n <= |s|
  {
    forall i: nat, j: nat :: i < |buffer| && j < 8 ==> Bit(buffer[i], j) == Stored(s, n, 8 * i + j)
  }

  /** Byte i, holding x so far, after or-ing one digit in at bit position b. */
  function StoredByte(x: Byte, c: Byte, b: nat, i: nat): Byte
  {
    if i == b / 8 then x | Shl(c, b % 8)
    else if i == b / 8 + 1 && b % 8 > 3 then x | Shr(c, 8 - b % 8)
    else x
  }

  lemma DigitHasFiveBits(c: char, t: nat)
    requires DigitOf(c) != NO_DIGIT && 5 <= t < 8
    ensures !Bit(DigitOf(c), t)
  {
    PlaceFits(Place(c));
  }

  lemma OrLowBits(x: Byte, c: Byte, j: nat, k: nat)
    requires j < 8 && k < 8
    ensures Bit(x | Shl(c, j), k) == (Bit(x, k) || (k >= j && Bit(c, k - j)))
  {
    ShiftLeftBit(c, j, k);
    OrBit(x, Shl(c, j), k);
  }

  lemma OrHighBits(x: Byte, c: Byte, j: nat, k: nat)
    requires j <= 8 && k < 8
    ensures Bit(x | Shr(c, j), k) == (Bit(x, k) || (j + k < 8 && Bit(c, j + k)))
  {
    ShiftRightBit(c, j, k);
    OrBit(x, Shr(c, j), k);
  }

  /** The bit a stored digit sets at position k of byte i. */
  lemma StoredByteBit(x: Byte, c: char, b: nat, i: nat, k: nat)
    requires DigitOf(c) != NO_DIGIT && k < 8
    ensures Bit(StoredByte(x, DigitOf(c), b, i), k) ==
            (Bit(x, k) || (b <= 8 * i + k < b + 5 && Bit(DigitOf(c), 8 * i + k - b)))
  {
    hide Bit, Shr, Shl, DigitOf;
    var d, m, j, t := DigitOf(c), b / 8, b % 8, 8 * i + k - b;
    assert b == 8 * m + j;
    if 5 <= t < 8 { DigitHasFiveBits(c, t); }
    if i == m {
      OrLowBits(x, d, j, k);
      assert t == k - j;
    } else if i == m + 1 {
      OrHighBits(x, d, 8 - j, k);
      assert t == 8 - j + k;
    } else {
      assert t < 0 || t >= 5;
    }
  }

  lemma StoreNextDigit(before: seq<Byte>, after: seq<Byte>, s: string, n: nat)
    requires n < |s| && DigitOf(s[n]) != NO_DIGIT && BufferHolds(before, s, n)
    requires |after| == |before|
    requires forall i :: 0 <= i < |after| ==> after[i] == StoredByte(before[i], DigitOf(s[n]), (|s| - n - 1) * 5, i)
    ensures BufferHolds(after, s, n + 1)
  {
    forall i: nat, j: nat | i < |after| && j < 8
      ensures Bit(after[i], j) == Stored(s, n + 1, 8 * i + j)
    {
      StoreNextBit(before[i], s, n, i, j);
    }
  }

  lemma StoreNextBit(x: Byte, s: string, n: nat, i: nat, j: nat)
    requires n < |s| && DigitOf(s[n]) != NO_DIGIT && j < 8
    requires Bit(x, j) == Stored(s, n, 8 * i + j)
    ensures Bit(StoredByte(x, DigitOf(s[n]), (|s| - n - 1) * 5, i), j) == Stored(s, n + 1, 8 * i + j)
  {
    var b, p := (|s| - n - 1) * 5, 8 * i + j;
    StoredByteBit(x, s[n], b, i, j);
    if b <= p < b + 5 {
      assert p / 5 == |s| - n - 1 && p % 5 == p - b;
      assert |s| - 1 - p / 5 == n;
    }
  }

  lemma FullBuffer(buffer: seq<Byte>, s: string)
    requires |buffer| == 5 * |s| / 8 && BufferHolds(buffer, s, |s|)
    ensures buffer == DecodedBytes(s)
  {
    forall i: nat | i < |buffer|
      ensures buffer[i] == DecodedBytes(s)[i]
    {
      forall j: nat | j < 8
        ensures Bit(buffer[i], j) == Bit(DecodedBytes(s)[i], j)
      {
        PackedBits(s, i, j);
      }
      SameBits(buffer[i], DecodedBytes(s)[i]);
    }
  }

  /** Which index expressions of the decoder stay in range. */
  lemma IndexInRange(len: nat, n: nat)
    requires n < len
    ensures (len - n - 1) * 5 / 8 < len * 5 / 8 <==> n > 0 || DecodableLength(len)
  {
    var q, r := len / 8, len % 8;
    assert len == 8 * q + r;
    assert len * 5 / 8 == 5 * q + 5 * r / 8;
    if n == 0 {
      assert (len - 1) * 5 == 40 * q + 5 * (r - 1);
    } else {
      assert (len - n - 1) * 5 <= len * 5 - 10;
    }
  }

  lemma ZeroHasNoBits(j: nat)
    requires j < 8
    ensures !Bit(0, j)
  {
  }

  lemma StoredByteIs(x: Byte, c: Byte, b: nat, i: nat)
    ensures i == b / 8 ==> StoredByte(x, c, b, i) == x | Shl(c, b % 8)
    ensures i == b / 8 + 1 ==> StoredByte(x, c, b, i) == if b % 8 > 3 then x | Shr(c, 8 - b % 8) else x
  {
  }

  lemma OtherBytesStay(c: Byte, b: nat)
    ensures forall x, i: nat :: i != b / 8 && i != b / 8 + 1 ==> StoredByte(x, c, b, i) == x
  {
  }

  /** Ors a digit into the buffer in place. */
  method StoreDigit(result: array<Byte>, c: Byte, b: nat)
    requires b / 8 < result.Length
    modifies result
    ensures forall i :: 0 <= i < result.Length ==> result[i] == StoredByte(old(result[i]), c, b, i)
  {
    hide *;
    var i, j := b / 8, b % 8;
    StoredByteIs(result[i], c, b, i);
    if i + 1 < result.Length {
      StoredByteIs(result[i + 1], c, b, i + 1);
    }
    OtherBytesStay(c, b);
    result[i] := result[i] | Shl(c, j);
    if i + 1 < result.Length && j > 3 {
      result[i + 1] := result[i + 1] | Shr(c, 8 - j);
    }
  }

  /** Decodes character by character, or-ing each digit into the buffer. */
  method DecodeBase32(s: string) returns (r: Decoded)
    requires forall c :: c in s ==> c as int < 256
    ensures r == Decode(s)
  {
    if |s| == 0 {
      return Bytes([]);
    }
    var base32Index := BuildIndex();
    var outputLen := |s| * 5 / 8;
    var result := new Byte[outputLen](_ => 0);
    EmptyBuffer(result[..], s);
    for n := 0 to |s|
      invariant forall c: char :: c as int < 256 ==> base32Index[c as int] == DigitOf(c)
      invariant BufferHolds(result[..], s, n)
      invariant n > 0 ==> DecodableLength(|s|)
      invariant FirstInvalid(s, 0) == FirstInvalid(s, n) >= n
    {
      assert s[n] in s;
      var c := base32Index[s[n] as int];
      if c == NO_DIGIT {
        return InvalidCharacter(n);
      }
      var b := (|s| - n - 1) * 5;
      IndexInRange(|s|, n);
      assert c == DigitOf(s[n]);
      if b / 8 >= outputLen {
        return IndexOutOfRange(n);
      }
      ghost var before := result[..];
      StoreDigit(result, c, b);
      StoreNextDigit(before, result[..], s, n);
    }
    FullBuffer(result[..], s);
    r := Bytes(result[..]);
  }

  lemma EmptyBuffer(buffer: seq<Byte>, s: string)
    requires forall i :: 0 <= i < |buffer| ==> buffer[i] == 0
    ensures BufferHolds(buffer, s, 0)
  {
    forall i: nat, j: nat | i < |buffer| && j < 8
      ensures Bit(buffer[i], j) == Stored(s, 0, 8 * i + j)
    {
      ZeroHasNoBits(j);
    }
  }

  // ---- theorems --------------------------------------------------------------------

  lemma AllDigits(s: string)
    requires IsBase32(s)
    ensures FirstInvalid(s, 0) == |s|
  {
  }

  /** The lengths the encoder produces are exactly those the decoder can index. */
  lemma EncodedLengths(len: nat)
    ensures DecodableLength(len) <==> exists n :: OutputLength(n) == len
  {
    var q, r := len / 8, len % 8;
    assert len == 8 * q + r;
    if DecodableLength(len) {
      var n := len * 5 / 8;
      assert n == 5 * q + 5 * r / 8;
      assert OutputLength(n) == len;
    }
    forall n | OutputLength(n) == len
      ensures DecodableLength(len)
    {
      OutputLengthDecodable(n);
    }
  }

  lemma OutputLengthDecodable(n: nat)
    ensures DecodableLength(OutputLength(n)) && 5 * OutputLength(n) / 8 == n
  {
    if n > 0 {
      var q, r := n / 5, n % 5;
      var extra := if r == 0 then 0 else if r == 1 then 2 else if r == 2 then 4 else if r == 3 then 5 else 7;
      var len := 8 * q + extra;
      Quotient(n * 8 - 1, 5, len - 1);
      Quotient(5 * len, 8, n);
      Quotient(len, 8, q);
    }
  }

  lemma Quotient(a: int, b: int, q: int)
    requires b in {5, 8} && b * q <= a < b * q + b
    ensures a / b == q && a % b == a - b * q
  {
  }

  lemma EncodedBit(data: seq<Byte>, k: nat)
    requires k < 5 * |Encode(data)|
    ensures DigitBit(Encode(data), k) == DataBit(data, k)
  {
    EncodeKeepsBits(data);
  }

  lemma DecodedByteBit(data: seq<Byte>, s: string, i: nat, j: nat)
    requires s == Encode(data) && i < |data| == 5 * |s| / 8 && j < 8
    ensures Bit(Packed(s, i), j) == Bit(data[i], j)
  {
    hide Bit, Encode, Packed, DigitBit;
    var k := 8 * i + j;
    assert k / 8 == i && k % 8 == j;
    EncodedBit(data, k);
    PackedBits(s, i, j);
  }

  lemma DecodedByte(data: seq<Byte>, s: string, i: nat)
    requires s == Encode(data) && i < |data| == 5 * |s| / 8
    ensures DecodedBytes(s)[i] == data[i]
  {
    forall j: nat | j < 8
      ensures Bit(Packed(s, i), j) == Bit(data[i], j)
    {
      DecodedByteBit(data, s, i, j);
    }
    SameBits(Packed(s, i), data[i]);
  }

  /** Decoding what was encoded gives the bytes back. */
  lemma DecodeEncode(data: seq<Byte>)
    ensures Decode(Encode(data)) == Bytes(data)
  {
    var s := Encode(data);
    OutputLengthDecodable(|data|);
    if data != [] {
      assert IsBase32(s) by { EncodeKeepsBits(data); }
      AllDigits(s);
      var back := DecodedBytes(s);
      assert |back| == |data|;
      forall i: nat | i < |data|
        ensures back[i] == data[i]
      {
        DecodedByte(data, s, i);
      }
      assert back == data;
    }
  }

  /** The bits of a string beyond the whole bytes it holds, at the top of its first digit, are zero. */
  ghost predicate SpareBitsZero(s: string)
  {
    forall k: nat :: 8 * (5 * |s| / 8) <= k < 5 * |s| ==> !DigitBit(s, k)
  }

  lemma DecodedBit(s: string, k: nat)
    requires k < 8 * (5 * |s| / 8)
    ensures DataBit(DecodedBytes(s), k) == DigitBit(s, k)
  {
    PackedBits(s, k / 8, k % 8);
    assert 8 * (k / 8) + k % 8 == k;
  }

  lemma SameDigits(c: char, d: char)
    requires DigitOf(c) != NO_DIGIT && DigitOf(d) != NO_DIGIT
    requires forall t: nat :: t < 5 ==> Bit(DigitOf(c), t) == Bit(DigitOf(d), t)
    ensures c == d
  {
    forall t: nat | t < 8
      ensures Bit(DigitOf(c), t) == Bit(DigitOf(d), t)
    {
      if t >= 5 {
        DigitHasFiveBits(c, t);
        DigitHasFiveBits(d, t);
      }
    }
    SameBits(DigitOf(c), DigitOf(d));
    PlaceFits(Place(c));
    PlaceFits(Place(d));
  }

  /** Bit t of digit n is bit k of the string. */
  lemma DigitBitAt(s: string, n: nat, t: nat, k: nat)
    requires n < |s| && t < 5 && k == 5 * (|s| - 1 - n) + t
    ensures DigitBit(s, k) == Bit(DigitOf(s[n]), t)
  {
    hide Bit, DigitOf;
    assert k / 5 == |s| - 1 - n && k % 5 == t;
    assert |s| - 1 - k / 5 == n;
  }

  lemma SameDigitBits(a: string, b: string)
    requires |a| == |b| && IsBase32(a) && IsBase32(b)
    requires forall k: nat :: k < 5 * |a| ==> DigitBit(a, k) == DigitBit(b, k)
    ensures a == b
  {
    hide Bit, DigitOf, DigitBit;
    forall n: nat | n < |a|
      ensures a[n] == b[n]
    {
      forall t: nat | t < 5
        ensures Bit(DigitOf(a[n]), t) == Bit(DigitOf(b[n]), t)
      {
        var k := 5 * (|a| - 1 - n) + t;
        DigitBitAt(a, n, t, k);
        DigitBitAt(b, n, t, k);
        assert DigitBit(a, k) == DigitBit(b, k);
      }
      SameDigits(a[n], b[n]);
    }
  }

  /**
   Encoding what was decoded gives the string back if and only if the spare bits
   of its first digit are zero; other strings decode to the same bytes as one that does.
   */
  lemma EncodeDecode(s: string)
    requires IsBase32(s) && DecodableLength(|s|)
    ensures Decode(s) == Bytes(DecodedBytes(s))
    ensures Encode(DecodedBytes(s)) == s <==> SpareBitsZero(s)
  {
    var data := DecodedBytes(s);
    var e := Encode(data);
    EncodedLengths(|s|);
    var n :| OutputLength(n) == |s|;
    OutputLengthDecodable(n);
    EncodeKeepsBits(data);
    if s != "" {
      AllDigits(s);
    } else {
      assert data == [];
    }
    if SpareBitsZero(s) {
      forall k: nat | k < 5 * |s|
        ensures DigitBit(e, k) == DigitBit(s, k)
      {
        assert DigitBit(e, k) == DataBit(data, k);
        if k < 8 * |data| { DecodedBit(s, k); }
      }
      SameDigitBits(e, s);
    }
    if e == s {
      forall k: nat | 8 * (5 * |s| / 8) <= k < 5 * |s|
        ensures !DigitBit(s, k)
      {
        assert DigitBit(e, k) == DataBit(data, k);
      }
    }
  }

  /** A string is decoded without error exactly when it has digits only and a length the encoder produces. */
  lemma DecodeSucceedsIff(s: string)
    ensures Decode(s).Bytes? <==> IsBase32(s) && DecodableLength(|s|)
    ensures Decode(s).IndexOutOfRange? <==> s != "" && DigitOf(s[0]) != NO_DIGIT && !DecodableLength(|s|)
  {
    if IsBase32(s) {
      AllDigits(s);
    }
    if s != "" && FirstInvalid(s, 0) == |s| {
      assert IsBase32(s);
    }
  }

  /** The first character that is no digit is refused, if the decoder gets that far. */
  lemma InvalidIff(s: string, n: nat)
    ensures Decode(s) == InvalidCharacter(n) <==>
      && n < |s| && !IsNixDigit(s[n] as int) && (forall k :: 0 <= k < n ==> IsNixDigit(s[k] as int))
      && (n == 0 || DecodableLength(|s|))
  {
    hide DigitOf, IsNixDigit, DecodedBytes;
    forall c
      ensures DigitOf(c) != NO_DIGIT <==> IsNixDigit(c as int)
    {
      DigitOfIs(c);
    }
    var m := FirstInvalid(s, 0);
    if n < |s| && n < m {
      assert IsNixDigit(s[n] as int);
    } else if m < n {
      assert m < |s| ==> !IsNixDigit(s[m] as int);
    }
  }

  /** The shortest string that takes the decoder out of its buffer, which then has no byte at all. */
  lemma OneDigitIsOutOfRange()
    ensures Decode("0") == IndexOutOfRange(0)
  {
    assert ALPHABET[0] == '0';
    PlaceOfCharacter(0);
    DecodeSucceedsIff("0");
    assert DigitOf('0') == 0;
  }

  // ---- numbers -------------------------------------------------------------------

  /** The bytes from i on, read as a little-endian number in base 256. */
  function ValueFrom(data: seq<Byte>, i: nat): nat
    requires i <= |data|
    decreases |data| - i
  {
    if i == |data| then 0 else data[i] as int + 256 * ValueFrom(data, i + 1)
  }

  /** The first m digits, read as a big-endian number in base 32. */
  function DigitsValue(s: string, m: nat): nat
    requires m <= |s|
  {
    if m == 0 then 0 else 32 * DigitsValue(s, m - 1) + DigitOf(s[m - 1]) as int
  }

  /** n bits from position k on, least significant first. */
  ghost function BitsValue(f: nat -> bool, k: nat, n: nat): nat
    decreases n
  {
    if n == 0 then 0 else (if f(k) then 1 else 0) + 2 * BitsValue(f, k + 1, n - 1)
  }

  lemma {:induction false} SameBitsValue(f: nat -> bool, g: nat -> bool, k: nat, n: nat)
    requires forall i :: k <= i < k + n ==> f(i) == g(i)
    ensures BitsValue(f, k, n) == BitsValue(g, k, n)
    decreases n
  {
    if n > 0 {
      SameBitsValue(f, g, k + 1, n - 1);
    }
  }

  lemma {:induction false} TrailingZeros(f: nat -> bool, k: nat, n: nat, m: nat)
    requires n <= m && forall i :: k + n <= i < k + m ==> !f(i)
    ensures BitsValue(f, k, m) == BitsValue(f, k, n)
    decreases m
  {
    if n > 0 {
      TrailingZeros(f, k + 1, n - 1, m - 1);
    } else if m > 0 {
      TrailingZeros(f, k + 1, 0, m - 1);
    }
  }

  function Weigh(bit: bool, w: nat): nat
  {
    if bit then w else 0
  }

  lemma ByteValue(x: Byte)
    ensures x as int == Weigh(Bit(x, 0), 1) + Weigh(Bit(x, 1), 2) + Weigh(Bit(x, 2), 4) + Weigh(Bit(x, 3), 8)
                      + Weigh(Bit(x, 4), 16) + Weigh(Bit(x, 5), 32) + Weigh(Bit(x, 6), 64) + Weigh(Bit(x, 7), 128)
  {
  }

  lemma FiveBitsValue(f: nat -> bool, k: nat, n: nat)
    ensures BitsValue(f, k, n + 5) == Weigh(f(k), 1) + Weigh(f(k + 1), 2) + Weigh(f(k + 2), 4) + Weigh(f(k + 3), 8)
                                    + Weigh(f(k + 4), 16) + 32 * BitsValue(f, k + 5, n)
  {
    assert BitsValue(f, k + 4, n + 1) == Weigh(f(k + 4), 1) + 2 * BitsValue(f, k + 5, n);
    assert BitsValue(f, k + 3, n + 2) == Weigh(f(k + 3), 1) + 2 * BitsValue(f, k + 4, n + 1);
    assert BitsValue(f, k + 2, n + 3) == Weigh(f(k + 2), 1) + 2 * BitsValue(f, k + 3, n + 2);
    assert BitsValue(f, k + 1, n + 4) == Weigh(f(k + 1), 1) + 2 * BitsValue(f, k + 2, n + 3);
  }

  lemma EightBitsValue(f: nat -> bool, k: nat, n: nat)
    ensures BitsValue(f, k, n + 8) == Weigh(f(k), 1) + Weigh(f(k + 1), 2) + Weigh(f(k + 2), 4) + Weigh(f(k + 3), 8)
                                    + Weigh(f(k + 4), 16) + Weigh(f(k + 5), 32)
                                    + Weigh(f(k + 6), 64) + Weigh(f(k + 7), 128)
                                    + 256 * BitsValue(f, k + 8, n)
  {
    FiveBitsValue(f, k, n + 3);
    assert BitsValue(f, k + 7, n + 1) == Weigh(f(k + 7), 1) + 2 * BitsValue(f, k + 8, n);
    assert BitsValue(f, k + 6, n + 2) == Weigh(f(k + 6), 1) + 2 * BitsValue(f, k + 7, n + 1);
    assert BitsValue(f, k + 5, n + 3) == Weigh(f(k + 5), 1) + 2 * BitsValue(f, k + 6, n + 2);
  }

  ghost function BitsOfData(data: seq<Byte>): nat -> bool
  {
    (k: nat) => DataBit(data, k)
  }

  ghost function BitsOfString(s: string): nat -> bool
  {
    (k: nat) => k < 5 * |s| && DigitBit(s, k)
  }

  /** The next eight bits are those of x. */
  ghost predicate ByteAt(f: nat -> bool, k: nat, x: Byte)
  {
    && f(k) == Bit(x, 0) && f(k + 1) == Bit(x, 1) && f(k + 2) == Bit(x, 2) && f(k + 3) == Bit(x, 3)
    && f(k + 4) == Bit(x, 4) && f(k + 5) == Bit(x, 5) && f(k + 6) == Bit(x, 6) && f(k + 7) == Bit(x, 7)
  }

  lemma ByteAtValue(f: nat -> bool, k: nat, x: Byte, n: nat)
    requires ByteAt(f, k, x) && n >= 8
    ensures BitsValue(f, k, n) == x as int + 256 * BitsValue(f, k + 8, n - 8)
  {
    EightBitsValue(f, k, n - 8);
    ByteValue(x);
  }

  /** Bit t of byte i is bit k of the data. */
  lemma DataBitAt(data: seq<Byte>, i: nat, t: nat, k: nat)
    requires i < |data| && t < 8 && k == 8 * i + t
    ensures DataBit(data, k) == Bit(data[i], t)
  {
    hide Bit;
    assert k / 8 == i && k % 8 == t;
  }

  lemma DataByteAt(data: seq<Byte>, i: nat, k: nat)
    requires i < |data| && k == 8 * i
    ensures ByteAt(BitsOfData(data), k, data[i])
  {
    hide Bit, DataBit;
    DataBitAt(data, i, 0, k);
    DataBitAt(data, i, 1, k + 1);
    DataBitAt(data, i, 2, k + 2);
    DataBitAt(data, i, 3, k + 3);
    DataBitAt(data, i, 4, k + 4);
    DataBitAt(data, i, 5, k + 5);
    DataBitAt(data, i, 6, k + 6);
    DataBitAt(data, i, 7, k + 7);
  }

  lemma {:induction false} DataValueInBits(data: seq<Byte>, i: nat, k: nat, n: nat)
    requires i <= |data| && k == 8 * i && n == 8 * (|data| - i)
    ensures ValueFrom(data, i) == BitsValue(BitsOfData(data), k, n)
    decreases |data| - i
  {
    hide ByteAt, BitsOfData;
    if i < |data| {
      DataValueInBits(data, i + 1, k + 8, n - 8);
      DataByteAt(data, i, k);
      ByteAtValue(BitsOfData(data), k, data[i], n);
    }
  }

  /** The next five bits are those of x. */
  ghost predicate DigitAt(f: nat -> bool, k: nat, x: Byte)
  {
    f(k) == Bit(x, 0) && f(k + 1) == Bit(x, 1) && f(k + 2) == Bit(x, 2) && f(k + 3) == Bit(x, 3)
      && f(k + 4) == Bit(x, 4)
  }

  lemma DigitAtValue(f: nat -> bool, k: nat, c: char, n: nat)
    requires DigitOf(c) != NO_DIGIT && DigitAt(f, k, DigitOf(c)) && n >= 5
    ensures BitsValue(f, k, n) == DigitOf(c) as int + 32 * BitsValue(f, k + 5, n - 5)
  {
    FiveBitsValue(f, k, n - 5);
    ByteValue(DigitOf(c));
    DigitHasFiveBits(c, 5);
    DigitHasFiveBits(c, 6);
    DigitHasFiveBits(c, 7);
  }

  lemma StringDigitAt(s: string, n: nat, k: nat, q: nat)
    requires n < |s| && q == |s| - 1 - n && k == 5 * q
    ensures DigitAt(BitsOfString(s), k, DigitOf(s[n]))
  {
    hide Bit, DigitOf, DigitBit;
    DigitBitAt(s, n, 0, k);
    DigitBitAt(s, n, 1, k + 1);
    DigitBitAt(s, n, 2, k + 2);
    DigitBitAt(s, n, 3, k + 3);
    DigitBitAt(s, n, 4, k + 4);
  }

  /** One more digit counts for v, in the string and in its bits. */
  lemma NextDigit(s: string, m: nat, k: nat, n: nat) returns (v: nat)
    requires 0 < m <= |s| && IsBase32(s) && k == 5 * (|s| - m) && n == 5 * m
    ensures DigitsValue(s, m) == 32 * DigitsValue(s, m - 1) + v
    ensures BitsValue(BitsOfString(s), k, n) == v + 32 * BitsValue(BitsOfString(s), k + 5, n - 5)
  {
    var c := s[m - 1];
    assert DigitOf(c) != NO_DIGIT;
    v := DigitOf(c) as int;
    assert DigitsValue(s, m) == 32 * DigitsValue(s, m - 1) + v;
    hide *;
    StringDigitAt(s, m - 1, k, |s| - m);
    DigitAtValue(BitsOfString(s), k, c, n);
  }

  lemma {:induction false} DigitsValueInBits(s: string, m: nat, k: nat, n: nat)
    requires m <= |s| && IsBase32(s) && k == 5 * (|s| - m) && n == 5 * m
    ensures DigitsValue(s, m) == BitsValue(BitsOfString(s), k, n)
    decreases m
  {
    hide *;
    if m == 0 {
      NoDigits(s, k);
    } else {
      var v := NextDigit(s, m, k, n);
      DigitsValueInBits(s, m - 1, k + 5, n - 5);
    }
  }

  lemma NoDigits(s: string, k: nat)
    ensures DigitsValue(s, 0) == BitsValue(BitsOfString(s), k, 0) == 0
  {
  }

  // ---- the digits by themselves -----------------------------------------------------

  /** The digits of Nix base32, without a table: digits and lower-case letters other than e, o, t and u. */
  predicate IsNixDigit(c: int)
  {
    && ('0' as int <= c <= '9' as int || 'a' as int <= c <= 'z' as int)
    && c != 'e' as int && c != 'o' as int && c != 't' as int && c != 'u' as int
  }

  ghost function DigitsBelow(c: nat): set<nat>
  {
    set d | 0 <= d < c && IsNixDigit(d)
  }

  /** What a digit is worth: the number of digits below it. */
  ghost function NixValue(c: char): nat
  {
    |DigitsBelow(c as int)|
  }

  lemma OneMoreBelow(c: nat)
    ensures |DigitsBelow(c + 1)| == |DigitsBelow(c)| + (if IsNixDigit(c) then 1 else 0)
    ensures |DigitsBelow(0)| == 0
  {
    if IsNixDigit(c) {
      assert DigitsBelow(c + 1) == DigitsBelow(c) + {c};
    } else {
      assert DigitsBelow(c + 1) == DigitsBelow(c);
    }
    assert DigitsBelow(0) == {};
  }

  /** How many digits there are below c, range by range. */
  function CountBelow(c: nat): nat
  {
    if c <= 48 then 0 else if c <= 58 then c - 48 else if c <= 97 then 10 else if c <= 101 then c - 87
    else if c == 102 then 14 else if c <= 111 then c - 88 else if c == 112 then 23 else if c <= 116 then c - 89
    else if c <= 118 then 27 else if c <= 123 then c - 91 else 32
  }

  lemma {:induction false} CountIsBelow(c: nat)
    ensures |DigitsBelow(c)| == CountBelow(c)
  {
    if c == 0 {
      OneMoreBelow(0);
    } else {
      CountIsBelow(c - 1);
      OneMoreBelow(c - 1);
      hide DigitsBelow;
    }
  }

  lemma CharacterIsDigit(i: nat)
    requires i < 32
    ensures IsNixDigit(ALPHABET[i] as int) && CountBelow(ALPHABET[i] as int) == i
  {
    if i < 16 {
    } else {
    }
  }

  lemma DigitIsCharacter(c: char)
    requires IsNixDigit(c as int)
    ensures CountBelow(c as int) < 32 && ALPHABET[CountBelow(c as int)] == c
  {
  }

  /** The table holds every digit with its value, and marks all other characters. */
  lemma DigitOfIs(c: char)
    ensures DigitOf(c) != NO_DIGIT <==> IsNixDigit(c as int)
    ensures DigitOf(c) != NO_DIGIT ==> DigitOf(c) as int == NixValue(c)
  {
    CountIsBelow(c as int);
    hide DigitsBelow;
    if IsNixDigit(c as int) {
      DigitIsCharacter(c);
      PlaceOfCharacter(CountBelow(c as int));
      PlaceFits(CountBelow(c as int));
    } else if Place(c) >= 0 {
      CharacterIsDigit(Place(c));
    }
  }

  lemma IsBase32Iff(s: string)
    ensures IsBase32(s) <==> forall c :: c in s ==> IsNixDigit(c as int)
  {
    hide DigitOf, IsNixDigit;
    forall c
      ensures DigitOf(c) != NO_DIGIT <==> IsNixDigit(c as int)
    {
      DigitOfIs(c);
    }
    if forall c :: c in s ==> IsNixDigit(c as int) {
      assert forall n :: 0 <= n < |s| ==> s[n] in s;
    }
  }

  /** The first m characters as a big-endian number in base 32. */
  ghost function NixNumber(s: string, m: nat): nat
    requires m <= |s|
  {
    if m == 0 then 0 else 32 * NixNumber(s, m - 1) + NixValue(s[m - 1])
  }

  lemma {:induction false} NixNumberIs(s: string, m: nat)
    requires m <= |s| && IsBase32(s)
    ensures NixNumber(s, m) == DigitsValue(s, m)
  {
    hide NixValue, DigitOf;
    if m > 0 {
      NixNumberIs(s, m - 1);
      DigitOfIs(s[m - 1]);
    }
  }

  /**
   The string is written in Nix digits, no more than needed for the bits of the data,
   and stands for the same number as the data.
   */
  ghost predicate Writes(s: string, data: seq<Byte>)
  {
    && (forall c :: c in s ==> IsNixDigit(c as int))
    && 8 * |data| <= 5 * |s| < 8 * |data| + 5
    && NixNumber(s, |s|) == ValueFrom(data, 0)
  }

  lemma EncodeWrites(data: seq<Byte>)
    ensures Writes(Encode(data), data)
  {
    var s := Encode(data);
    EncodeKeepsBits(data);
    EncodeKeepsValue(data);
    hide IsBase32, Encode, DigitBit, DataBit, NixNumber, IsNixDigit, DigitsValue, ValueFrom;
    IsBase32Iff(s);
    NixNumberIs(s, |s|);
  }

  lemma NixValueFits(c: char)
    requires IsNixDigit(c as int)
    ensures NixValue(c) < 32 && ALPHABET[NixValue(c)] == c
  {
    CountIsBelow(c as int);
    hide DigitsBelow;
    DigitIsCharacter(c);
  }

  lemma NextNumber(s: string, m: nat)
    requires 0 < m <= |s|
    ensures NixNumber(s, m) == 32 * NixNumber(s, m - 1) + NixValue(s[m - 1])
  {
  }

  lemma SameRemainder(x: nat, a: nat, y: nat, b: nat)
    requires a < 32 && b < 32 && 32 * x + a == 32 * y + b
    ensures x == y && a == b
  {
  }

  lemma {:induction false} SameNumber(s: string, t: string, m: nat)
    requires m <= |s| && m <= |t| && NixNumber(s, m) == NixNumber(t, m)
    requires (forall c :: c in s ==> IsNixDigit(c as int)) && forall c :: c in t ==> IsNixDigit(c as int)
    ensures s[..m] == t[..m]
  {
    hide *;
    if m > 0 {
      var a, b := s[m - 1], t[m - 1];
      assert a in s && b in t;
      NixValueFits(a);
      NixValueFits(b);
      NextNumber(s, m);
      NextNumber(t, m);
      SameRemainder(NixNumber(s, m - 1), NixValue(a), NixNumber(t, m - 1), NixValue(b));
      SameNumber(s, t, m - 1);
      assert s[..m] == s[..m - 1] + [a] && t[..m] == t[..m - 1] + [b];
    }
  }

  /** There is no other such string. */
  lemma WritesOnce(s: string, t: string, data: seq<Byte>)
    requires Writes(s, data) && Writes(t, data)
    ensures s == t
  {
    hide NixNumber, ValueFrom, IsNixDigit;
    SameNumber(s, t, |s|);
    assert s[..|s|] == s && t[..|t|] == t;
  }

  /** The digits written are the number the bytes stand for. */
  lemma EncodeKeepsValue(data: seq<Byte>)
    ensures DigitsValue(Encode(data), |Encode(data)|) == ValueFrom(data, 0)
  {
    var s := Encode(data);
    var f, g := BitsOfData(data), BitsOfString(s);
    EncodeKeepsBits(data);
    DataValueInBits(data, 0, 0, 8 * |data|);
    DigitsValueInBits(s, |s|, 0, 5 * |s|);
    SameBitsValue(f, g, 0, 5 * |s|);
    TrailingZeros(f, 0, 8 * |data|, 5 * |s|);
  }
}
