/** The standard Base64 codec (section 4 of RFC 4648): its alphabet, the
    inverse table built from it, `base64_encode` and `base64_decode`, their
    test vectors, and the capacity hint the decoder computes. */
module Base64 {
  import opened Blocks
  import opened Codec
  import opened CodecLaws

  /** The standard alphabet (written as four pieces: letters, digits, `+/`). */
  const BASE64_CHARSET: seq<char8> :=
    "ABCDEFGHIJKLMNOPQRSTUVWXYZ" + "abcdefghijklmnopqrstuvwxyz" + "0123456789" + "+/"

  // ---------------------------------------------------------------------------
  // The alphabet in closed form (Table 1 of RFC 4648)

  /** Character code of symbol i. */
  function StdCode(i: nat): int
    requires i < 64
  {
    if i < 26 then 'A' as int + i
    else if i < 52 then 'a' as int + (i - 26)
    else if i < 62 then '0' as int + (i - 52)
    else if i == 62 then '+' as int
    else '/' as int
  }

  /** Symbol value of byte b, or -1 for a byte outside the alphabet. */
  function StdValue(b: int): int
  {
    if 'A' as int <= b <= 'Z' as int then b - 'A' as int
    else if 'a' as int <= b <= 'z' as int then b - 'a' as int + 26
    else if '0' as int <= b <= '9' as int then b - '0' as int + 52
    else if b == '+' as int then 62
    else if b == '/' as int then 63
    else -1
  }

  lemma CharsetCodes()
    ensures |BASE64_CHARSET| == 64
    ensures forall i :: 0 <= i < 64 ==> BASE64_CHARSET[i] as int == StdCode(i)
  {
    forall i | 0 <= i < 26
      ensures BASE64_CHARSET[i] as int == StdCode(i)
    {
    }
    forall i | 26 <= i < 52
      ensures BASE64_CHARSET[i] as int == StdCode(i)
    {
    }
    forall i | 52 <= i < 64
      ensures BASE64_CHARSET[i] as int == StdCode(i)
    {
    }
  }

  /** The standard alphabet has 64 distinct characters and no `=`. */
  lemma CharsetValid()
    ensures ValidAlphabet(BASE64_CHARSET)
  {
    CharsetCodes();
    forall i | 0 <= i < 64
      ensures StdValue(StdCode(i)) == i
    {
    }
  }

  /** The inverse table is Table 1 of RFC 4648 read backwards: every
      alphabet character maps to its index, in particular `+` to 62 and `/`
      to 63, and every other byte, `=` included, maps to -1. */
  lemma CharsetTable()
    ensures forall b :: 0 <= b < 256 ==> SymbolOf(BASE64_CHARSET, b) == StdValue(b)
    ensures SymbolOf(BASE64_CHARSET, '+' as int) == 62 && SymbolOf(BASE64_CHARSET, '/' as int) == 63
    ensures SymbolOf(BASE64_CHARSET, PAD as int) == -1
  {
    forall b | 0 <= b < 256
      ensures SymbolOf(BASE64_CHARSET, b) == StdValue(b)
    {
      TableEntry(b);
    }
  }

  /** One entry of the inverse table. */
  lemma TableEntry(b: int)
    requires 0 <= b < 256
    ensures SymbolOf(BASE64_CHARSET, b) == StdValue(b)
  {
    CharsetCodes();
    CharsetValid();
    if StdValue(b) >= 0 {
      assert BASE64_CHARSET[StdValue(b)] as int == b;
    } else {
      forall i | 0 <= i < 64
        ensures BASE64_CHARSET[i] as int != b
      {
        assert StdValue(StdCode(i)) == i;
      }
    }
  }

  // ---------------------------------------------------------------------------
  // Encoder

  /** The capacity `base64_encode` reserves: four characters per started group. */
  function OutputSize(n: nat): (r: nat)
    ensures r % 4 == 0 && 3 * r >= 4 * n && 3 * r < 4 * n + 12
  {
    (n / 3) * 4 + (if n % 3 != 0 then 4 else 0)
  }

  /** `base64_encode`: the reserved capacity is only a hint, so it has no
      effect on the output. */
  method Base64Encode(input: seq<byte>, padding: bool) returns (output: seq<char8>)
    ensures output == Encode(BASE64_CHARSET, input, padding)
    ensures |output| == if padding then OutputSize(|input|) else UnpaddedLength(|input|)
  {
    var outputSize := OutputSize(|input|);
    output := EncodeWith(BASE64_CHARSET, input, padding);
    EncodeSizes(input);
  }

  /** The reserved capacity is exactly the padded length, 4*ceil(n/3); the
      unpadded output has no `=` and only alphabet characters, the padded
      output adds at most two `=` at the end. */
  lemma EncodeSizes(s: seq<byte>)
    ensures |Encode(BASE64_CHARSET, s, true)| == OutputSize(|s|)
    ensures OutputSize(|s|) % 4 == 0
    ensures |Encode(BASE64_CHARSET, s, false)| == UnpaddedLength(|s|)
  {
    EncodeLength(BASE64_CHARSET, s);
    var n := |s|;
    assert n == 3 * (n / 3) + n % 3;
    if n % 3 == 0 {
      assert (n + 2) / 3 == n / 3;
    } else {
      assert (n + 2) / 3 == n / 3 + 1;
    }
  }

  /** Every character of the output is in the alphabet or is one of at most
      two trailing `=`; without padding there is no `=` at all. */
  lemma EncodeCharacters(s: seq<byte>, padding: bool)
    ensures var out, body := Encode(BASE64_CHARSET, s, padding), Encode(BASE64_CHARSET, s, false);
            |body| <= |out| <= |body| + 2
            && (forall j :: 0 <= j < |body| ==> out[j] in BASE64_CHARSET)
            && (forall j :: |body| <= j < |out| ==> out[j] == PAD)
            && (!padding ==> PAD !in out)
  {
    CharsetValid();
    EncodeLength(BASE64_CHARSET, s);
    EncodeAlphabet(BASE64_CHARSET, s);
  }

  // ---------------------------------------------------------------------------
  // Decoder

  /** `base64_decode`: the inverse table is built (in the source once, as a
      constant), then the decoding loop runs; the capacity hint is computed
      by the corrected DecodeReserve and, being a hint, has no effect. */
  method Base64Decode(input: seq<char8>) returns (output: seq<byte>)
    ensures output == Decode(BASE64_CHARSET, input)
  {
    var outputSize := DecodeReserve(input);
    var charsetMap := BuildCharsetMap(BASE64_CHARSET);
    output := DecodeWith(BASE64_CHARSET, charsetMap, input);
  }

  /** The standard decoder inverts the standard encoder, with or without
      padding, for every byte string. */
  lemma RoundTrip(s: seq<byte>, padding: bool)
    ensures Decode(BASE64_CHARSET, Encode(BASE64_CHARSET, s, padding)) == s
  {
    CharsetValid();
    EncodeRoundTrip(BASE64_CHARSET, s, padding);
  }

  // ---------------------------------------------------------------------------
  // Capacity hint of the decoder

  /** 2^64: `std::size_t` arithmetic is modulo this (sizes themselves are
      below it; only the subtraction below can wrap). */
  const SIZE_MODULUS: nat := 0x1_0000_0000_0000_0000

  /** What the decoder's capacity computation does: a value, or a read
      before the start of the input. */
  datatype Reserve = Capacity(n: nat) | OutOfBoundsRead

  /** The capacity computation as written: it counts one trailing `=`, then
      a second one at position size-2 without checking that the input has two
      characters, and subtracts the count from 3*(size/4) in `std::size_t`. */
  function DecodeReserveAsWritten(t: seq<char8>): (r: Reserve)
    ensures r == OutOfBoundsRead <==> t == [PAD]
    ensures r.Capacity? && r.n >= 3 * |t| / 4 + 1 <==> 1 < |t| < 4 && t[|t| - 1] == PAD
  {
    if |t| > 0 && t[|t| - 1] == PAD then
      if |t| < 2 then OutOfBoundsRead
      else
        var padding := if t[|t| - 2] == PAD then 2 else 1;
        var full := (|t| / 4) * 3;
        Capacity(if full >= padding then full - padding else full - padding + SIZE_MODULUS)
    else Capacity((|t| / 4) * 3)
  }

  /** On "=" the computation reads before the input; on "a=" the subtraction
      wraps to 2^64 - 1, more than `reserve` accepts, so it throws inside a
      `noexcept` function. */
  lemma ReserveAsWrittenFails()
    ensures DecodeReserveAsWritten("=") == OutOfBoundsRead
    ensures DecodeReserveAsWritten("a=") == Capacity(SIZE_MODULUS - 1)
    ensures DecodeReserveAsWritten("==") == Capacity(SIZE_MODULUS - 2)
  {
  }

  /** The capacity computation with both evident intentions restored: the
      second `=` is looked for only in inputs of two or more characters, and
      the subtraction stops at zero. It never exceeds 3/4 of the input
      length, and it agrees with the computation as written exactly on the
      inputs other than the short ones (one to three characters) ending in
      `=`, which are the ones where that computation reads out of bounds or
      wraps around. */
  function DecodeReserve(t: seq<char8>): (r: nat)
    ensures r <= 3 * |t| / 4
    ensures DecodeReserveAsWritten(t) == Capacity(r) <==> !(0 < |t| < 4 && t[|t| - 1] == PAD)
  {
    var padding :=
      if |t| > 0 && t[|t| - 1] == PAD then
        if |t| > 1 && t[|t| - 2] == PAD then 2 else 1
      else 0;
    var full := (|t| / 4) * 3;
    if full >= padding then full - padding else 0
  }

  /** On every padded encoding both computations give exactly the decoded
      length. */
  lemma DecodeReserveExact(s: seq<byte>)
    ensures DecodeReserve(Encode(BASE64_CHARSET, s, true)) == |s|
    ensures DecodeReserveAsWritten(Encode(BASE64_CHARSET, s, true)) == Capacity(|s|)
  {
    var e := Encode(BASE64_CHARSET, s, true);
    var n := |s|;
    PaddedTail(s);
    if n % 3 == 0 {
      DivMod(|e|, 4, n / 3, 0);
    } else {
      DivMod(|e|, 4, n / 3 + 1, 0);
    }
  }

  /** The length of a padded encoding and how many `=` end it: none after a
      whole number of groups, two after one leftover byte, one after two. */
  lemma PaddedTail(s: seq<byte>)
    ensures var e, n := Encode(BASE64_CHARSET, s, true), |s|;
            |e| == 4 * (n / 3) + (if n % 3 == 0 then 0 else 4)
            && (n % 3 == 0 && n > 0 ==> e[|e| - 1] != PAD)
            && (n % 3 == 1 ==> e[|e| - 1] == PAD && e[|e| - 2] == PAD)
            && (n % 3 == 2 ==> e[|e| - 1] == PAD && e[|e| - 2] != PAD)
  {
    var e := Encode(BASE64_CHARSET, s, true);
    var body := Encode(BASE64_CHARSET, s, false);
    EncodeCharacters(s, true);
    EncodeSizes(s);
    PaddingOfBody(|s|);
    CharsetValid();
    var n := |s|;
    assert n == 3 * (n / 3) + n % 3;
    if n % 3 == 0 {
      if n > 0 {
        assert e[|e| - 1] in BASE64_CHARSET;
      }
    } else if n % 3 == 1 {
      assert |body| == |e| - 2;
    } else {
      assert |body| == |e| - 1;
      assert e[|e| - 2] in BASE64_CHARSET;
    }
  }

  // ---------------------------------------------------------------------------
  // Test vectors

  /** Spelling symbol values in the standard alphabet, one character at a time. */
  lemma SpellStd(q: seq<Symbol>, out: seq<char8>)
    requires |q| == |out| && forall j :: 0 <= j < |q| ==> StdCode(q[j]) == out[j] as int
    ensures Spell(BASE64_CHARSET, q) == out
  {
    CharsetCodes();
  }

  /** "Man" encodes to "TWFu": one full group, no padding. */
  lemma EncodeMan()
    ensures Encode(BASE64_CHARSET, Octets("Man"), true) == "TWFu"
  {
    var s := Octets("Man");
    assert s == [77, 97, 110];
    assert s[3..] == [];
    assert EncodeSymbols(s) == [19, 22, 5, 46];
    SpellStd([19, 22, 5, 46], "TWFu");
  }

  /** "Ma" encodes to "TWE=": two bytes, three symbols, one `=`. */
  lemma EncodeMa()
    ensures Encode(BASE64_CHARSET, Octets("Ma"), true) == "TWE="
  {
    var s := Octets("Ma");
    assert s == [77, 97];
    assert EncodeSymbols(s) == [19, 22, 4];
    SpellStd([19, 22, 4], "TWE");
    assert Padding(3) == "=";
  }

  /** "M" encodes to "TQ==": one byte, two symbols, two `=`. */
  lemma EncodeM()
    ensures Encode(BASE64_CHARSET, Octets("M"), true) == "TQ=="
  {
    var s := Octets("M");
    assert s == [77];
    assert EncodeSymbols(s) == [19, 16];
    SpellStd([19, 16], "TQ");
    assert Padding(2) == "==";
  }

  /** "AAA" encodes to "QUFB". */
  lemma EncodeAAA()
    ensures Encode(BASE64_CHARSET, Octets("AAA"), true) == "QUFB"
  {
    var s := Octets("AAA");
    assert s == [65, 65, 65];
    assert s[3..] == [];
    assert EncodeSymbols(s) == [16, 20, 5, 1];
    SpellStd([16, 20, 5, 1], "QUFB");
  }

  /** "AA" encodes to "QUE=". */
  lemma EncodeAA()
    ensures Encode(BASE64_CHARSET, Octets("AA"), true) == "QUE="
  {
    var s := Octets("AA");
    assert s == [65, 65];
    assert EncodeSymbols(s) == [16, 20, 4];
    SpellStd([16, 20, 4], "QUE");
    assert Padding(3) == "=";
  }

  /** "A" encodes to "QQ==". */
  lemma EncodeA()
    ensures Encode(BASE64_CHARSET, Octets("A"), true) == "QQ=="
  {
    var s := Octets("A");
    assert s == [65];
    assert EncodeSymbols(s) == [16, 16];
    SpellStd([16, 16], "QQ");
    assert Padding(2) == "==";
  }

  /** The empty string encodes to the empty string. */
  lemma EncodeEmpty()
    ensures Encode(BASE64_CHARSET, [], true) == []
  {
    assert Padding(0) == [];
  }

  /** The padded encodings above decode back to their inputs. */
  lemma DecodeVectors()
    ensures Decode(BASE64_CHARSET, "TWFu") == Octets("Man")
    ensures Decode(BASE64_CHARSET, "TWE=") == Octets("Ma")
    ensures Decode(BASE64_CHARSET, "TQ==") == Octets("M")
  {
    EncodeMan();
    EncodeMa();
    EncodeM();
    RoundTrip(Octets("Man"), true);
    RoundTrip(Octets("Ma"), true);
    RoundTrip(Octets("M"), true);
  }

  /** The empty string decodes to the empty string. */
  lemma DecodeEmpty()
    ensures Decode(BASE64_CHARSET, []) == []
  {
    assert FirstPad([]) == 0;
  }

  /** "!!!!" has no alphabet character and decodes to nothing. */
  lemma DecodeInvalid()
    ensures Decode(BASE64_CHARSET, "!!!!") == []
  {
    CharsetTable();
    DecodeForeignOnly(BASE64_CHARSET, "!!!!");
  }

  /** "TWE===" has one `=` too many and decodes like "TWE=", to "Ma". */
  lemma DecodeExtraPadding()
    ensures Decode(BASE64_CHARSET, "TWE===") == Octets("Ma")
  {
    DecodeVectors();
    ExtraPaddingSplit();
    DecodeStopsAtPad(BASE64_CHARSET, "TWE", "==");
    DecodeStopsAtPad(BASE64_CHARSET, "TWE", []);
  }
}
