/**
 The digest of a NAR layer, taken from the narinfo instead of the file
 (NewLayerFast, pkg/oci/network.go): which file hashes give a layer, which give an
 error, and which take the base32 decoder out of its buffer.
 */
module Layer {
  import opened Base32
  import opened Text
  import opened NarinfoText
  import opened ServedNarinfo

  const PREFIX: string := "sha256:"

  // ---- hexadecimal ---------------------------------------------------------------------

  function Nibble(x: Byte): char
    requires x < 16
  {
    var n := x as int;
    if n < 10 then '0' + n as char else 'a' + (n - 10) as char
  }

  function High(x: Byte): (h: Byte)
    ensures h < 16
  {
    x >> 4
  }

  function Low(x: Byte): (l: Byte)
    ensures l < 16
  {
    x & 0xF
  }

  /** hex.EncodeToString. */
  function Hex(data: seq<Byte>): (s: string)
    ensures |s| == 2 * |data|
    ensures forall c :: c in s ==> '0' <= c <= '9' || 'a' <= c <= 'f'
  {
    if data == [] then "" else Hex(data[..|data| - 1]) + [Nibble(High(data[|data| - 1])), Nibble(Low(data[|data| - 1]))]
  }

  lemma HexLast(a: seq<Byte>)
    requires a != []
    ensures var m := |a| - 1;
            && Hex(a)[..2 * m] == Hex(a[..m])
            && Hex(a)[2 * m] == Nibble(High(a[m])) && Hex(a)[2 * m + 1] == Nibble(Low(a[m]))
  {
  }

  predicate IsHexDigit(c: char)
  {
    '0' <= c <= '9' || 'a' <= c <= 'f'
  }

  function HexValue(c: char): int
  {
    if c <= '9' then c as int - '0' as int else c as int - 'a' as int + 10
  }

  /** Two lower-case hexadecimal digits for each byte, the upper four bits first. */
  ghost predicate Spells(hex: string, data: seq<Byte>)
  {
    && |hex| == 2 * |data| && (forall c :: c in hex ==> IsHexDigit(c))
    && forall i :: 0 <= i < |data| ==> 16 * HexValue(hex[2 * i]) + HexValue(hex[2 * i + 1]) == data[i] as int
  }

  lemma NibbleValue(x: Byte)
    requires x < 16
    ensures HexValue(Nibble(x)) == x as int && IsHexDigit(Nibble(x))
  {
  }

  lemma NibblesValue(x: Byte)
    ensures 16 * (High(x) as int) + Low(x) as int == x as int
  {
  }

  lemma {:induction false} HexSpells(data: seq<Byte>)
    ensures Spells(Hex(data), data)
  {
    hide *;
    if data == [] {
      NothingSpelled();
    } else {
      var m := |data| - 1;
      HexSpells(data[..m]);
      LastSpelled(data, m);
      OneMoreSpelled(Hex(data), data, m);
    }
  }

  lemma NothingSpelled()
    ensures Spells(Hex([]), [])
  {
  }

  lemma LastSpelled(data: seq<Byte>, m: nat)
    requires m == |data| - 1
    ensures |Hex(data)| == 2 * m + 2 && Hex(data)[..2 * m] == Hex(data[..m])
    ensures IsHexDigit(Hex(data)[2 * m]) && IsHexDigit(Hex(data)[2 * m + 1])
    ensures 16 * HexValue(Hex(data)[2 * m]) + HexValue(Hex(data)[2 * m + 1]) == data[m] as int
  {
    HexLast(data);
    NibbleValue(High(data[m]));
    NibbleValue(Low(data[m]));
    NibblesValue(data[m]);
    hide Nibble, High, Low, HexValue, IsHexDigit;
  }

  lemma OneMoreSpelled(hex: string, data: seq<Byte>, m: nat)
    requires m == |data| - 1 && |hex| == 2 * m + 2 && Spells(hex[..2 * m], data[..m])
    requires IsHexDigit(hex[2 * m]) && IsHexDigit(hex[2 * m + 1])
    requires 16 * HexValue(hex[2 * m]) + HexValue(hex[2 * m + 1]) == data[m] as int
    ensures Spells(hex, data)
  {
    hide HexValue, IsHexDigit;
    var front := hex[..2 * m];
    assert hex == front + [hex[2 * m], hex[2 * m + 1]];
    forall i | 0 <= i < m
      ensures 16 * HexValue(hex[2 * i]) + HexValue(hex[2 * i + 1]) == data[i] as int
    {
      assert data[..m][i] == data[i] && front[2 * i] == hex[2 * i] && front[2 * i + 1] == hex[2 * i + 1];
    }
  }

  lemma HexInjective(a: seq<Byte>, b: seq<Byte>)
    requires Hex(a) == Hex(b)
    ensures a == b
  {
    HexSpells(a);
    HexSpells(b);
    SpellsOnce(Hex(a), a, b);
  }

  lemma SpellsOnce(hex: string, data: seq<Byte>, other: seq<Byte>)
    requires Spells(hex, data) && Spells(hex, other)
    ensures data == other
  {
    hide HexValue, IsHexDigit;
    forall i | 0 <= i < |data|
      ensures data[i] == other[i]
    {
      assert data[i] as int == other[i] as int;
    }
  }

  // ---- the layer -------------------------------------------------------------------------

  datatype LayerResult =
    | UnsupportedFormat
    | UndecodableHash
    | NoDigest
    | DecoderPanics
    | Layer(digest: string, size: Int64)

  predicate HasPrefix(s: string)
  {
    |s| >= |PREFIX| && s[..|PREFIX|] == PREFIX
  }

  /** The layer has the digest of these bytes and this size. */
  ghost predicate HasDigest(r: LayerResult, data: seq<Byte>, size: Int64)
  {
    && r.Layer? && r.size == size && |r.digest| == 7 + 2 * |data|
    && r.digest[..7] == "sha256:" && Spells(r.digest[7..], data)
  }

  lemma LayerHasDigest(n: Narinfo, data: seq<Byte>)
    requires LayerOf(n) == Layer(PREFIX + Hex(data), n.fileSize)
    ensures HasDigest(LayerOf(n), data, n.fileSize)
  {
    HexSpells(data);
    assert (PREFIX + Hex(data))[..7] == "sha256:" && (PREFIX + Hex(data))[7..] == Hex(data);
  }

  /** v1.NewHash: a sha256 digest has 64 hexadecimal digits. */
  predicate IsDigest(hex: string)
  {
    |hex| == 64 && forall c :: c in hex ==> '0' <= c <= '9' || 'a' <= c <= 'f'
  }

  method NewLayerFast(n: Narinfo) returns (r: LayerResult)
    requires forall c :: c in n.fileHash ==> c as int < 256
    ensures r == LayerOf(n)
    ensures r.Layer? ==> |n.fileHash| >= 7 && n.fileHash[..7] == "sha256:"
    ensures r.Layer? ==> Decode(n.fileHash[7..]).Bytes? && HasDigest(r, Decode(n.fileHash[7..]).data, n.fileSize)
  {
    if !HasPrefix(n.fileHash) {
      return UnsupportedFormat;
    }
    var base32Hash := n.fileHash[|PREFIX|..];
    assert forall c :: c in base32Hash ==> c in n.fileHash;
    var decoded := DecodeBase32(base32Hash);
    if decoded.IndexOutOfRange? {
      return DecoderPanics;
    }
    if decoded.InvalidCharacter? {
      return UndecodableHash;
    }
    var hex := Hex(decoded.data);
    if !IsDigest(hex) {
      return NoDigest;
    }
    r := Layer(PREFIX + hex, n.fileSize);
    LayerHasDigest(n, decoded.data);
  }

  function LayerOf(n: Narinfo): LayerResult
  {
    if !HasPrefix(n.fileHash) then UnsupportedFormat
    else
      match Decode(n.fileHash[|PREFIX|..])
      case IndexOutOfRange(_) => DecoderPanics
      case InvalidCharacter(_) => UndecodableHash
      case Bytes(data) => if |data| == 32 then Layer(PREFIX + Hex(data), n.fileSize) else NoDigest
  }

  /** A layer is made exactly from 52 base32 digits; the decoder's buffer is overrun only by other lengths. */
  lemma LayerMadeIff(n: Narinfo)
    ensures LayerOf(n).UnsupportedFormat? <==> !("sha256:" <= n.fileHash)
    ensures LayerOf(n).Layer? <==>
            && "sha256:" <= n.fileHash && |n.fileHash| == 7 + 52
            && forall c :: c in n.fileHash[7..] ==> IsNixDigit(c as int)
    ensures LayerOf(n).DecoderPanics? <==>
            "sha256:" <= n.fileHash && |n.fileHash| > 7 && IsNixDigit(n.fileHash[7] as int)
            && (|n.fileHash| - 7) % 8 in {1, 3, 6}
    ensures LayerOf(n).NoDigest? <==>
            "sha256:" <= n.fileHash && |n.fileHash| != 7 + 52 && (|n.fileHash| - 7) % 8 in {0, 2, 4, 5, 7}
            && forall c :: c in n.fileHash[7..] ==> IsNixDigit(c as int)
  {
    if HasPrefix(n.fileHash) {
      var s := n.fileHash[|PREFIX|..];
      HashDecoded(s);
      hide Decode, DecodableLength, Hex, IsNixDigit;
      assert s != "" ==> s[0] == n.fileHash[7];
      assert |s| == |n.fileHash| - 7;
    }
  }

  /** What the decoder makes of the text after the prefix. */
  lemma HashDecoded(s: string)
    ensures Decode(s).Bytes? <==> |s| % 8 in {0, 2, 4, 5, 7} && forall c :: c in s ==> IsNixDigit(c as int)
    ensures Decode(s).IndexOutOfRange? <==> s != "" && IsNixDigit(s[0] as int) && |s| % 8 in {1, 3, 6}
    ensures Decode(s).Bytes? ==> (|Decode(s).data| == 32 <==> |s| == 52)
  {
    assert 5 * |s| / 8 == 32 <==> |s| == 52;
    DecodeSucceedsIff(s);
    IsBase32Iff(s);
    if s != "" {
      DigitOfIs(s[0]);
    }
    hide IsNixDigit, IsBase32, DigitOf, DecodedBytes;
  }

  /** A narinfo with this file hash, whatever else it holds, takes the decoder out of its buffer. */
  lemma ShortFileHashPanics(n: Narinfo)
    requires n.fileHash == "sha256:0"
    ensures LayerOf(n).DecoderPanics?
  {
    OneDigitIsOutOfRange();
    assert n.fileHash[..|PREFIX|] == PREFIX && n.fileHash[|PREFIX|..] == "0";
  }

  function FileHashOf(h: seq<Byte>): string
  {
    PREFIX + Encode(h)
  }

  lemma LayerOfHash(n: Narinfo, h: seq<Byte>)
    requires |h| == 32 && n.fileHash == FileHashOf(h)
    ensures LayerOf(n) == Layer(PREFIX + Hex(h), n.fileSize) && IsDigest(Hex(h))
  {
    DecodeEncode(h);
    assert n.fileHash[..|PREFIX|] == PREFIX && n.fileHash[|PREFIX|..] == Encode(h);
  }

  /**
   The layer of a pushed narinfo has the digest of the hash that was written into it,
   whether the narinfo is parsed from its text or rebuilt from its annotations.
   */
  lemma LayerSurvives(n: Narinfo, h: seq<Byte>)
    requires WellFormed(n) && |h| == 32 && n.fileHash == FileHashOf(h)
    ensures HasDigest(LayerOf(ParseText(Print(n))), h, n.fileSize)
    ensures Annotate(n).Some? && HasDigest(LayerOf(Pull(Annotate(n).value)), h, n.fileSize)
  {
    hide WellFormed, Annotate, Pull, LayerOf, Print, ParseText, HasDigest;
    PrintersAndReadersAgree(n);
    LayerOfHash(n, h);
    LayerHasDigest(n, h);
  }

  /** Two layers have the same digest only if the hashes written were the same. */
  lemma DigestsDiffer(n: Narinfo, m: Narinfo, h: seq<Byte>, k: seq<Byte>)
    requires |h| == |k| == 32 && n.fileHash == FileHashOf(h) && m.fileHash == FileHashOf(k)
    ensures LayerOf(n).Layer? && LayerOf(m).Layer?
    ensures LayerOf(n).digest == LayerOf(m).digest <==> h == k
  {
    LayerOfHash(n, h);
    LayerOfHash(m, k);
    if LayerOf(n).digest == LayerOf(m).digest {
      assert LayerOf(n).digest[|PREFIX|..] == Hex(h) && LayerOf(m).digest[|PREFIX|..] == Hex(k);
      HexInjective(h, k);
    }
  }
}
