/**
 * BaseUwU: a binary-to-text encoding in which every bit of every byte becomes one
 * three-character token, "OwO" for a 0 bit and "UwU" for a 1 bit, most significant
 * bit first, bytes in input order, with no separators.
 *
 * The first half of the module is the format as pure functions (Encoding, Valid,
 * Decoding) with the lemmas that relate them; the second half holds the three
 * operations of the C header as methods with the source's loops, each proved equal
 * to its specification function.
 */
module BaseUwU {

  /** Outcome of decoding: the decoded bytes, or the format error (status code 2). */
  datatype DecodeResult = Success(data: seq<bv8>) | InvalidFormat

  // ---------------------------------------------------------------------------
  // Tokens and bits
  // ---------------------------------------------------------------------------

  /** The outer character ("eye") of the token for a bit. */
  function Eye(bit: bool): char
  {
    if bit then 'U' else 'O'
  }

  /** The three-character token for one bit: "UwU" for 1, "OwO" for 0. */
  function Token(bit: bool): seq<char>
  {
    [Eye(bit), 'w', Eye(bit)]
  }

  /** The single-bit masks of weight 2^0 .. 2^7. */
  const Weights: seq<bv8> := [0x01, 0x02, 0x04, 0x08, 0x10, 0x20, 0x40, 0x80]

  /** Bit m of v, counting from the least significant bit. */
  function Bit(v: bv8, m: nat): bool
    requires m < 8
  {
    (v & Weights[m]) != 0
  }

  /** Bit m as the C code extracts it: shift right by m and keep the lowest bit. */
  lemma ShiftedBit(v: bv8, m: nat)
    requires m < 8
    ensures (((v >> m) & 1) == 1) == Bit(v, m)
  {
  }

  /** Two bytes with the same eight bits are equal. */
  lemma BitsEqual(a: bv8, b: bv8)
    requires forall m :: 0 <= m < 8 ==> (Bit(a, m) <==> Bit(b, m))
    ensures a == b
  {
    assert Bit(a, 0) == Bit(b, 0) && Bit(a, 1) == Bit(b, 1);
    assert Bit(a, 2) == Bit(b, 2) && Bit(a, 3) == Bit(b, 3);
    assert Bit(a, 4) == Bit(b, 4) && Bit(a, 5) == Bit(b, 5);
    assert Bit(a, 6) == Bit(b, 6) && Bit(a, 7) == Bit(b, 7);
  }

  /** The j-th bit of b in transmission order: bit 7 - j, most significant first. */
  function BitOf(b: bv8, j: nat): bool
    requires j < 8
  {
    Bit(b, 7 - j)
  }

  // ---------------------------------------------------------------------------
  // Encoding
  // ---------------------------------------------------------------------------

  /** The eight bits of b in transmission order, most significant first. */
  function ByteBits(b: bv8): (r: seq<bool>)
    ensures |r| == 8
  {
    seq(8, j requires 0 <= j < 8 => BitOf(b, j))
  }

  /** The bits of a byte sequence: the bits of each byte, bytes in order. */
  function Bits(x: seq<bv8>): seq<bool>
  {
    if x == [] then [] else ByteBits(x[0]) + Bits(x[1..])
  }

  /** One token per bit, with no separators. */
  function Tokens(bits: seq<bool>): seq<char>
  {
    if bits == [] then [] else Token(bits[0]) + Tokens(bits[1..])
  }

  /** The BaseUwU encoding of a byte sequence. */
  function Encoding(x: seq<bv8>): seq<char>
  {
    Tokens(Bits(x))
  }

  /** Eight bits per byte. */
  lemma {:induction false} BitsLength(x: seq<bv8>)
    ensures |Bits(x)| == 8 * |x|
  {
    if x != [] {
      BitsLength(x[1..]);
    }
  }

  /** Bit j of byte i is bit 8i+j of the whole sequence. */
  lemma {:induction false} BitsAt(x: seq<bv8>, i: nat, j: nat)
    requires i < |x| && j < 8
    ensures |Bits(x)| == 8 * |x|
    ensures Bits(x)[8 * i + j] == BitOf(x[i], j)
  {
    BitsLength(x);
    var head, tail := ByteBits(x[0]), Bits(x[1..]);
    assert Bits(x) == head + tail;
    if i > 0 {
      BitsAt(x[1..], i - 1, j);
      assert tail[8 * (i - 1) + j] == BitOf(x[i], j);
    }
  }

  /** Token k sits at positions 3k, 3k+1, 3k+2: the eye of bit k, 'w', the eye again. */
  lemma {:induction false} TokensAt(bits: seq<bool>, k: nat)
    ensures |Tokens(bits)| == 3 * |bits|
    ensures k < |bits| ==> Tokens(bits)[3 * k] == Eye(bits[k])
    ensures k < |bits| ==> Tokens(bits)[3 * k + 1] == 'w'
    ensures k < |bits| ==> Tokens(bits)[3 * k + 2] == Eye(bits[k])
  {
    if bits != [] {
      TokensAt(bits[1..], if k > 0 then k - 1 else 0);
      if 0 < k < |bits| {
        assert bits[1..][k - 1] == bits[k];
      }
    }
  }

  /** The length law: 24 characters per byte. */
  lemma EncodingLength(x: seq<bv8>)
    ensures |Encoding(x)| == 24 * |x|
  {
    BitsLength(x);
    TokensAt(Bits(x), 0);
  }

  /**
   * Token j of block i: positions 24i+3j and 24i+3j+2 hold 'U' exactly when bit 7-j of
   * x[i] is set ('O' otherwise), and position 24i+3j+1 holds 'w'.
   */
  lemma EncodedToken(x: seq<bv8>, i: nat, j: nat)
    requires i < |x| && j < 8
    ensures |Encoding(x)| == 24 * |x|
    ensures Encoding(x)[24 * i + 3 * j] == (if Bit(x[i], 7 - j) then 'U' else 'O')
    ensures Encoding(x)[24 * i + 3 * j + 1] == 'w'
    ensures Encoding(x)[24 * i + 3 * j + 2] == (if Bit(x[i], 7 - j) then 'U' else 'O')
  {
    BitsAt(x, i, j);
    TokensAt(Bits(x), 8 * i + j);
  }

  /** Every position splits into a block of 24, a token of 3 in it and an offset in the token. */
  lemma Split(p: nat) returns (i: nat, j: nat, t: nat)
    ensures j < 8 && t < 3 && p == 24 * i + 3 * j + t
  {
    i := p / 24;
    j := (p % 24) / 3;
    t := (p % 24) % 3;
  }

  /** A length that is a multiple of 24 has |s| / 24 blocks and 8 tokens per block. */
  lemma Blocks(n: nat)
    requires n % 24 == 0
    ensures n == 24 * (n / 24) && n / 3 == 8 * (n / 24)
  {
  }

  /** Only the characters 'O', 'U' and 'w' occur in an encoding. */
  lemma EncodingAlphabet(x: seq<bv8>, p: nat)
    requires p < |Encoding(x)|
    ensures Encoding(x)[p] in {'O', 'U', 'w'}
  {
    EncodingLength(x);
    var i, j, t := Split(p);
    EncodedToken(x, i, j);
  }

  // ---------------------------------------------------------------------------
  // Validation
  // ---------------------------------------------------------------------------

  /** The middle character of token k is 'w'. */
  predicate MiddleOk(s: seq<char>, k: nat)
  {
    3 * k + 1 < |s| && s[3 * k + 1] == 'w'
  }

  /** The outer characters of token k are both 'O' or both 'U'. */
  predicate EyesOk(s: seq<char>, k: nat)
  {
    3 * k + 2 < |s| &&
    ((s[3 * k] == 'O' && s[3 * k + 2] == 'O') || (s[3 * k] == 'U' && s[3 * k + 2] == 'U'))
  }

  /** Well-formed BaseUwU text: the three conditions the validator checks. */
  predicate Valid(s: seq<char>)
  {
    && |s| % 24 == 0
    && (forall k :: 0 <= k < |s| / 3 ==> MiddleOk(s, k))
    && (forall k :: 0 <= k < |s| / 3 ==> EyesOk(s, k))
  }

  /** Text whose length is not a multiple of 24 is never valid. */
  lemma ValidLength(s: seq<char>)
    requires |s| % 24 != 0
    ensures !Valid(s)
  {
  }

  /** Every encoding is valid. */
  lemma EncodingValid(x: seq<bv8>)
    ensures Valid(Encoding(x))
  {
    var s := Encoding(x);
    EncodingLength(x);
    Blocks(|s|);
    forall k | 0 <= k < |s| / 3
      ensures MiddleOk(s, k) && EyesOk(s, k)
    {
      var i, j, t := Split(3 * k);
      EncodedToken(x, i, j);
    }
  }

  /** Valid text is a sequence of whole tokens: every character is 'O', 'U' or 'w'. */
  lemma ValidAlphabet(s: seq<char>, p: nat)
    requires Valid(s) && p < |s|
    ensures s[p] in {'O', 'U', 'w'}
  {
    Blocks(|s|);
    var i, j, t := Split(p);
    var k := 8 * i + j;
    assert MiddleOk(s, k) && EyesOk(s, k);
  }

  // ---------------------------------------------------------------------------
  // Decoding
  // ---------------------------------------------------------------------------

  /**
   * The decoder's accumulator after reading the first k tokens of the block that starts
   * at position start: shift left by one, or in 1 when the token's first character is 'U'.
   */
  function Accumulate(s: seq<char>, start: nat, k: nat): bv8
    requires k <= 8 && start + 24 <= |s|
  {
    if k == 0 then 0
    else (Accumulate(s, start, k - 1) << 1) | (if s[start + 3 * (k - 1)] == 'U' then 1 else 0)
  }

  /** The bytes of text whose length is a multiple of 24: one per block of 24 characters. */
  function DecodeBytes(s: seq<char>): seq<bv8>
    requires |s| % 24 == 0
  {
    seq(|s| / 24, i requires 0 <= i < |s| / 24 => Accumulate(s, 24 * i, 8))
  }

  /** Decoding: the format error for invalid text, otherwise one byte per 24 characters. */
  function Decoding(s: seq<char>): DecodeResult
  {
    if !Valid(s) then InvalidFormat else Success(DecodeBytes(s))
  }

  /**
   * After k tokens, the accumulator has no bit at or above position k: the shift before
   * the last token never pushes a bit out of the byte.
   */
  lemma {:induction false} AccumulateHigh(s: seq<char>, start: nat, k: nat, m: nat)
    requires k <= m < 8 && start + 24 <= |s|
    ensures !Bit(Accumulate(s, start, k), m)
  {
    if k > 0 {
      var bit: bv8 := if s[start + 3 * (k - 1)] == 'U' then 1 else 0;
      AccumulateHigh(s, start, k - 1, m - 1);
      ShiftInBit(Accumulate(s, start, k - 1), bit, m - 1);
    }
  }

  /** After k tokens, bit k-1-j of the accumulator is set exactly when token j starts with 'U'. */
  lemma {:induction false} AccumulateBit(s: seq<char>, start: nat, k: nat, j: nat)
    requires j < k <= 8 && start + 24 <= |s|
    ensures Bit(Accumulate(s, start, k), k - 1 - j) <==> s[start + 3 * j] == 'U'
  {
    var prev := Accumulate(s, start, k - 1);
    var bit: bv8 := if s[start + 3 * (k - 1)] == 'U' then 1 else 0;
    assert Accumulate(s, start, k) == (prev << 1) | bit;
    if j < k - 1 {
      AccumulateBit(s, start, k - 1, j);
      ShiftInBit(prev, bit, k - 2 - j);
    } else {
      ShiftInLow(prev, bit);
    }
  }

  /**
   * Byte i of the decoded text, bit by bit: bit 7-j is set exactly when token j of
   * block i starts with 'U'. Together with BitsEqual this fixes the byte.
   */
  lemma DecodedBit(s: seq<char>, i: nat, j: nat)
    requires |s| % 24 == 0 && i < |s| / 24 && j < 8
    ensures |DecodeBytes(s)| == |s| / 24
    ensures Bit(DecodeBytes(s)[i], 7 - j) <==> s[24 * i + 3 * j] == 'U'
  {
    AccumulateBit(s, 24 * i, 8, j);
  }

  /** Shifting in a low bit moves bit m of v to bit m + 1. */
  lemma ShiftInBit(v: bv8, bit: bv8, m: nat)
    requires m < 7 && bit <= 1
    ensures Bit((v << 1) | bit, m + 1) <==> Bit(v, m)
  {
  }

  /** The bit shifted in becomes bit 0. */
  lemma ShiftInLow(v: bv8, bit: bv8)
    requires bit <= 1
    ensures Bit((v << 1) | bit, 0) <==> bit == 1
  {
  }

  /** On the encoding of x, the decoder rebuilds byte i exactly. */
  lemma AccumulateEncoding(x: seq<bv8>, i: nat)
    requires i < |x|
    ensures |Encoding(x)| == 24 * |x|
    ensures Accumulate(Encoding(x), 24 * i, 8) == x[i]
  {
    EncodingLength(x);
    var s := Encoding(x);
    forall m | 0 <= m < 8
      ensures Bit(Accumulate(s, 24 * i, 8), m) <==> Bit(x[i], m)
    {
      AccumulateBit(s, 24 * i, 8, 7 - m);
      EncodedToken(x, i, 7 - m);
    }
    BitsEqual(Accumulate(s, 24 * i, 8), x[i]);
  }

  /** Round trip: decoding an encoding gives back the original bytes. */
  lemma RoundTrip(x: seq<bv8>)
    ensures Decoding(Encoding(x)) == Success(x)
  {
    var s := Encoding(x);
    EncodingValid(x);
    EncodingLength(x);
    var d := DecodeBytes(s);
    forall i | 0 <= i < |x|
      ensures d[i] == x[i]
    {
      AccumulateEncoding(x, i);
    }
  }

  /** Converse round trip: valid text is the encoding of what it decodes to. */
  lemma ValidReencodes(s: seq<char>)
    requires Valid(s)
    ensures Decoding(s).Success? && Encoding(Decoding(s).data) == s
  {
    var x := DecodeBytes(s);
    EncodingLength(x);
    forall p | 0 <= p < |s|
      ensures Encoding(x)[p] == s[p]
    {
      Blocks(|s|);
      var i, j, t := Split(p);
      var k := 8 * i + j;
      assert MiddleOk(s, k) && EyesOk(s, k);
      EncodedToken(x, i, j);
      AccumulateBit(s, 24 * i, 8, j);
    }
  }

  /** The valid texts are exactly the encodings of byte sequences. */
  lemma ValidIffEncoding(s: seq<char>)
    ensures Valid(s) <==> exists x :: Encoding(x) == s
  {
    if Valid(s) {
      ValidReencodes(s);
    }
    if exists x :: Encoding(x) == s {
      var x :| Encoding(x) == s;
      EncodingValid(x);
    }
  }

  /** Encoding is injective: different byte sequences have different encodings. */
  lemma EncodingInjective(x: seq<bv8>, y: seq<bv8>)
    requires Encoding(x) == Encoding(y)
    ensures x == y
  {
    RoundTrip(x);
    RoundTrip(y);
  }

  // ---------------------------------------------------------------------------
  // Concrete cases
  // ---------------------------------------------------------------------------

  /** The validator test strings: too short, well formed, bad characters, an "AwA" token. */
  lemma ValidationExamples()
    ensures !Valid("UwUUwUOwO")
    ensures Valid("UwUUwUOwOUwUUwUOwOOwOUwU")
    ensures !Valid("ASOKRAOKERKOERKOEOEOOEOO")
    ensures !Valid("UwUOwOUwUOwOUwUOwOAwAOwO")
  {
    var good := "UwUUwUOwOUwUUwUOwOOwOUwU";
    forall k | 0 <= k < 8
      ensures MiddleOk(good, k) && EyesOk(good, k)
    {
      assert k == 0 || k == 1 || k == 2 || k == 3 || k == 4 || k == 5 || k == 6 || k == 7;
    }
    assert !MiddleOk("ASOKRAOKERKOERKOEOEOOEOO", 0);
    assert !EyesOk("UwUOwOUwUOwOUwUOwOAwAOwO", 6);
  }

  /** Empty input encodes to the empty text, which is valid and decodes to no bytes. */
  lemma EmptyExample()
    ensures Encoding([]) == []
    ensures Valid([])
    ensures Decoding([]) == Success([])
  {
  }

  /** 0x00 encodes to eight "OwO" tokens, which decode back to 0x00. */
  lemma ZeroByteExample()
    ensures Encoding([0x00]) == "OwOOwOOwOOwOOwOOwOOwOOwO"
    ensures Decoding("OwOOwOOwOOwOOwOOwOOwOOwO") == Success([0x00])
  {
    var zeros := [false, false, false, false, false, false, false, false];
    assert Bits([0x00]) == ByteBits(0x00) == zeros;
    assert Tokens(zeros[7..]) == "OwO";
    assert Tokens(zeros[6..]) == "OwOOwO";
    assert Tokens(zeros[5..]) == "OwOOwOOwO";
    assert Tokens(zeros[4..]) == "OwOOwOOwOOwO";
    assert Tokens(zeros[3..]) == "OwOOwOOwOOwOOwO";
    assert Tokens(zeros[2..]) == "OwOOwOOwOOwOOwOOwO";
    assert Tokens(zeros[1..]) == "OwOOwOOwOOwOOwOOwOOwO";
    assert Tokens(zeros) == "OwOOwOOwOOwOOwOOwOOwOOwO";
    RoundTrip([0x00]);
  }

  /** 0xFF encodes to eight "UwU" tokens, which decode back to 0xFF. */
  lemma FullByteExample()
    ensures Encoding([0xFF]) == "UwUUwUUwUUwUUwUUwUUwUUwU"
    ensures Decoding("UwUUwUUwUUwUUwUUwUUwUUwU") == Success([0xFF])
  {
    var ones := [true, true, true, true, true, true, true, true];
    assert Bits([0xFF]) == ByteBits(0xFF) == ones;
    assert Tokens(ones[7..]) == "UwU";
    assert Tokens(ones[6..]) == "UwUUwU";
    assert Tokens(ones[5..]) == "UwUUwUUwU";
    assert Tokens(ones[4..]) == "UwUUwUUwUUwU";
    assert Tokens(ones[3..]) == "UwUUwUUwUUwUUwU";
    assert Tokens(ones[2..]) == "UwUUwUUwUUwUUwUUwU";
    assert Tokens(ones[1..]) == "UwUUwUUwUUwUUwUUwUUwU";
    assert Tokens(ones) == "UwUUwUUwUUwUUwUUwUUwUUwU";
    RoundTrip([0xFF]);
  }

  // ---------------------------------------------------------------------------
  // The operations
  // ---------------------------------------------------------------------------

  /** UwU_Encode: fills a buffer of 24 characters per input byte at computed indices. */
  method Encode(input: seq<bv8>) returns (output: seq<char>)
    ensures output == Encoding(input)
    ensures |output| == 24 * |input|
  {
    var outputSize := |input| * 24;
    EncodingLength(input);
    var data := new char[outputSize];
    for i := 0 to |input|
      invariant forall p :: 0 <= p < 24 * i ==> data[p] == Encoding(input)[p]
    {
      for j := 0 to 8
        invariant forall p :: 0 <= p < 24 * i + 3 * j ==> data[p] == Encoding(input)[p]
      {
        var bit := ((input[i] >> (7 - j)) & 1) == 1;
        ShiftedBit(input[i], 7 - j);
        var eye := if bit then 'U' else 'O';
        var p := 24 * i + 3 * j;
        EncodedToken(input, i, j);
        data[p] := eye;
        data[p + 1] := 'w';
        data[p + 2] := eye;
      }
    }
    output := data[..];
  }

  /** UwU_Validate: a length check, then one pass over the middles and one over the eyes. */
  method Validate(s: seq<char>) returns (ok: bool)
    ensures ok == Valid(s)
  {
    var length := |s|;
    if length % 24 != 0 {
      return false;
    }
    var numBits := length / 3;
    for i := 0 to numBits
      invariant forall k :: 0 <= k < i ==> MiddleOk(s, k)
    {
      if s[i * 3 + 1] != 'w' {
        assert !MiddleOk(s, i);
        return false;
      }
    }
    for i := 0 to numBits
      invariant forall k :: 0 <= k < i ==> EyesOk(s, k)
    {
      if !((s[i * 3] == 'O' && s[i * 3 + 2] == 'O') || (s[i * 3] == 'U' && s[i * 3 + 2] == 'U')) {
        assert !EyesOk(s, i);
        return false;
      }
    }
    return true;
  }

  /** UwU_Decode: refuses invalid text, else rebuilds each byte from the first characters of its 8 tokens. */
  method Decode(s: seq<char>) returns (r: DecodeResult)
    ensures r == Decoding(s)
    ensures r.InvalidFormat? <==> !Valid(s)
    ensures r.Success? ==> |r.data| == |s| / 24
  {
    var ok := Validate(s);
    if !ok {
      return InvalidFormat;
    }
    var inputSize := |s|;
    var outputSize := inputSize / 24;
    var data := new bv8[outputSize];
    for i := 0 to outputSize
      invariant forall m :: 0 <= m < i ==> data[m] == Accumulate(s, 24 * m, 8)
    {
      var byte: bv8 := 0;
      for j := 0 to 8
        invariant byte == Accumulate(s, 24 * i, j)
      {
        var bit: bv8 := if s[i * 24 + j * 3] == 'U' then 1 else 0;
        byte := (byte << 1) | bit;
      }
      data[i] := byte;
    }
    r := Success(data[..]);
  }
}
