/** The hex codec: the decoder of password_setup.c and the two encoders of password_setup.c
    and logger.c, for any length.  Arithmetic is that of unsigned 8-bit characters. */
module HexCodec {

  // ---------------------------------------------------------------- digits

  /** Character of a nibble: '0' is 48, 'a' is 97. */
  function Digit(nibble: bv8): bv8 {
    if nibble <= 9 then nibble + 48 else nibble + 87
  }

  /** Value of a character: digits by 48, everything else as a lower-case letter. */
  function Value(c: bv8): bv8 {
    if 48 <= c && c <= 57 then c - 48 else c - 97 + 10
  }

  predicate IsLowerHex(c: bv8) {
    (48 <= c && c <= 57) || (97 <= c && c <= 102)
  }

  function Chunk(hi: bv8, lo: bv8): bv8 {
    (Value(hi) << 4) | Value(lo)
  }

  /** The sixteen digits are in order, so there is one lower-case alphabet they can be. */
  lemma DigitsOrdered(a: bv8, b: bv8)
    requires a < b <= 15
    ensures Digit(a) < Digit(b) && IsLowerHex(Digit(a)) && IsLowerHex(Digit(b))
  {
  }

  /** '0' to '9' and 'a' to 'f' have their usual values. */
  lemma ValuesInOrder(c: bv8)
    requires IsLowerHex(c)
    ensures Value(c) <= 15 && Digit(Value(c)) == c
  {
  }

  lemma ChunkOfDigits(b: bv8)
    ensures Chunk(Digit(b >> 4), Digit(b & 0x0f)) == b
    ensures IsLowerHex(Digit(b >> 4)) && IsLowerHex(Digit(b & 0x0f))
  {
  }

  lemma DigitsOfChunk(hi: bv8, lo: bv8)
    requires IsLowerHex(hi) && IsLowerHex(lo)
    ensures Digit(Chunk(hi, lo) >> 4) == hi && Digit(Chunk(hi, lo) & 0x0f) == lo
  {
  }

  // ---------------------------------------------------------------- strings

  /** The hex string of the first `n` bytes. */
  function Encode(bytes: seq<bv8>, n: nat): seq<bv8>
    requires n <= |bytes|
  {
    if n == 0 then [] else Encode(bytes, n - 1) + [Digit(bytes[n - 1] >> 4), Digit(bytes[n - 1] & 0x0f)]
  }

  /** The bytes of the first `n` pairs of characters. */
  function Decode(text: seq<bv8>, n: nat): seq<bv8>
    requires 2 * n <= |text|
  {
    if n == 0 then [] else Decode(text, n - 1) + [Chunk(text[2 * n - 2], text[2 * n - 1])]
  }

  ghost predicate LowerHex(text: seq<bv8>) {
    forall i :: 0 <= i < |text| ==> IsLowerHex(text[i])
  }

  lemma {:induction false} EncodeAt(bytes: seq<bv8>, n: nat, k: nat)
    requires k < n <= |bytes|
    ensures |Encode(bytes, n)| == 2 * n
    ensures Encode(bytes, n)[2 * k] == Digit(bytes[k] >> 4) && Encode(bytes, n)[2 * k + 1] == Digit(bytes[k] & 0x0f)
  {
    EncodeLength(bytes, n - 1);
    if k < n - 1 {
      EncodeAt(bytes, n - 1, k);
    }
  }

  lemma {:induction false} EncodeLength(bytes: seq<bv8>, n: nat)
    requires n <= |bytes|
    ensures |Encode(bytes, n)| == 2 * n
  {
    if n > 0 {
      EncodeLength(bytes, n - 1);
    }
  }

  lemma {:induction false} DecodeAt(text: seq<bv8>, n: nat, k: nat)
    requires 2 * n <= |text| && k < n
    ensures |Decode(text, n)| == n && Decode(text, n)[k] == Chunk(text[2 * k], text[2 * k + 1])
  {
    DecodeLength(text, n - 1);
    if k < n - 1 {
      DecodeAt(text, n - 1, k);
    }
  }

  lemma {:induction false} DecodeLength(text: seq<bv8>, n: nat)
    requires 2 * n <= |text|
    ensures |Decode(text, n)| == n
  {
    if n > 0 {
      DecodeLength(text, n - 1);
    }
  }

  /** Decoding undoes encoding, for every byte string. */
  lemma DecodeEncode(bytes: seq<bv8>)
    ensures |Encode(bytes, |bytes|)| == 2 * |bytes|
    ensures Decode(Encode(bytes, |bytes|), |bytes|) == bytes
  {
    EncodeLength(bytes, |bytes|);
    var text := Encode(bytes, |bytes|);
    DecodeLength(text, |bytes|);
    forall k | 0 <= k < |bytes| ensures Decode(text, |bytes|)[k] == bytes[k] {
      DecodeAt(text, |bytes|, k);
      EncodeAt(bytes, |bytes|, k);
      ChunkOfDigits(bytes[k]);
    }
  }

  /** Encoding undoes decoding exactly for the lower-case hex strings of even length. */
  lemma EncodeDecode(text: seq<bv8>, n: nat)
    requires |text| == 2 * n
    ensures |Decode(text, n)| == n
    ensures Encode(Decode(text, n), n) == text <==> LowerHex(text)
  {
    DecodeLength(text, n);
    var bytes := Decode(text, n);
    var again := Encode(bytes, n);
    EncodeLength(bytes, n);
    forall k | 0 <= k < n
      ensures bytes[k] == Chunk(text[2 * k], text[2 * k + 1])
      ensures again[2 * k] == Digit(bytes[k] >> 4) && again[2 * k + 1] == Digit(bytes[k] & 0x0f)
      ensures IsLowerHex(again[2 * k]) && IsLowerHex(again[2 * k + 1])
    {
      DecodeAt(text, n, k);
      EncodeAt(bytes, n, k);
      ChunkOfDigits(bytes[k]);
    }
    if LowerHex(text) {
      forall i | 0 <= i < 2 * n ensures again[i] == text[i] {
        var k := i / 2;
        DigitsOfChunk(text[2 * k], text[2 * k + 1]);
        assert i == 2 * k || i == 2 * k + 1;
      }
    } else if again == text {
      forall i | 0 <= i < |text| ensures IsLowerHex(text[i]) {
        assert i == 2 * (i / 2) || i == 2 * (i / 2) + 1;
      }
    }
  }

  // ---------------------------------------------------------------- the loops

  /** One byte from two characters. */
  method DecodePair(hi: bv8, lo: bv8) returns (hashChunk: bv8)
    ensures hashChunk == Chunk(hi, lo)
  {
    hashChunk := 0;
    var charToTransform := if 48 <= hi && hi <= 57 then hi - 48 else hi - 97 + 10;
    hashChunk := hashChunk | (charToTransform << 4);
    charToTransform := if 48 <= lo && lo <= 57 then lo - 48 else lo - 97 + 10;
    hashChunk := hashChunk | charToTransform;
  }

  /** setup_password: 1 when the text has not the expected length. */
  method SetupPassword(text: seq<bv8>, compressed: array<bv8>) returns (r: nat)
    modifies compressed
    ensures r == if |text| == 2 * compressed.Length then 0 else 1
    ensures r == 0 ==> compressed[..] == Decode(text, compressed.Length)
    ensures r == 1 ==> compressed[..] == old(compressed[..])
  {
    if |text| != 2 * compressed.Length {
      return 1;
    }
    var i, j := 0, 0;
    while i < |text|
      invariant i == 2 * j <= |text|
      invariant compressed[..j] == Decode(text, j)
    {
      var hashChunk := DecodePair(text[i], text[i + 1]);
      compressed[j] := hashChunk;
      assert compressed[..j + 1] == compressed[..j] + [hashChunk];
      i, j := i + 2, j + 1;
    }
    assert compressed[..] == compressed[..j];
    r := 0;
  }

  /** The loop of both encoders. */
  method EncodeInto(bytes: seq<bv8>, buffer: array<bv8>)
    requires buffer.Length >= 2 * |bytes|
    modifies buffer
    ensures buffer[..2 * |bytes|] == Encode(bytes, |bytes|)
    ensures buffer[2 * |bytes|..] == old(buffer[2 * |bytes|..])
  {
    var i, j := 0, 0;
    while i < |bytes|
      invariant i <= |bytes| && j == 2 * i
      invariant buffer[..j] == Encode(bytes, i)
      invariant buffer[2 * |bytes|..] == old(buffer[2 * |bytes|..])
    {
      var hi, lo := bytes[i] >> 4, bytes[i] & 0x0f;
      buffer[j] := if hi <= 9 then hi + 48 else hi + 87;
      buffer[j + 1] := if lo <= 9 then lo + 48 else lo + 87;
      assert buffer[..j + 2] == buffer[..j] + [buffer[j], buffer[j + 1]];
      i, j := i + 1, j + 2;
    }
  }

  /** print_decompressed_hash prints the global buffer up to its zero terminator. */
  method PrintDecompressed(bytes: seq<bv8>, buffer: array<bv8>) returns (printed: seq<bv8>)
    requires buffer.Length == 2 * |bytes| + 1 && buffer[2 * |bytes|] == 0
    modifies buffer
    ensures printed == Encode(bytes, |bytes|) && buffer[2 * |bytes|] == 0
  {
    EncodeInto(bytes, buffer);
    assert buffer[2 * |bytes|..][0] == 0;
    printed := buffer[..2 * |bytes|];
  }

  /** decompress_hash of the logger: the same digits and a newline. */
  method Decompress(bytes: seq<bv8>) returns (text: seq<bv8>)
    ensures text == Encode(bytes, |bytes|) + [10]
  {
    var buffer := new bv8[2 * |bytes| + 1];
    buffer[2 * |bytes|] := 0;
    EncodeInto(bytes, buffer);
    text := buffer[..2 * |bytes|] + [10];
  }

  /** What is printed for a hash that was set up from lower-case hex is that hex again, and the
      logger's line is the same with its newline. */
  method RoundTrip(text: seq<bv8>) returns (printed: seq<bv8>, logged: seq<bv8>)
    requires |text| % 2 == 0
    ensures logged == printed + [10]
    ensures printed == text <==> LowerHex(text)
  {
    var n := |text| / 2;
    var compressed := new bv8[n];
    var r := SetupPassword(text, compressed);
    var buffer := new bv8[2 * n + 1](_ => 0);
    DecodeLength(text, n);
    printed := PrintDecompressed(compressed[..], buffer);
    logged := Decompress(compressed[..]);
    EncodeDecode(text, n);
  }
}
