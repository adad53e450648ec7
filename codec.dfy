/** The algorithm shared by the standard and the URL-safe Base64 codecs,
    parametrised by the 64-character alphabet: the inverse-table builder, the
    encoder and decoder accumulator loops, the specifications they are proved
    against, and the properties of those specifications (lengths, output
    alphabet, round trip, lenient decoding). */
module Codec {
  import opened Blocks

  /** A character of a `std::string`: one 8-bit code unit. */
  type char8 = c: char | c as int < 256

  /** The padding character. */
  const PAD: char8 := '='

  /** 64 distinct characters, none of them the padding character. */
  predicate ValidAlphabet(a: seq<char8>)
  {
    |a| == 64 && PAD !in a && forall i, j :: 0 <= i < j < |a| ==> a[i] != a[j]
  }

  // ---------------------------------------------------------------------------
  // Inverse table

  /** The entry of the inverse table for byte value b: the last position of b
      in the alphabet (later writes of the building loop win), or -1. */
  function SymbolOf(a: seq<char8>, b: int): (r: int)
    ensures -1 <= r < |a|
    ensures r >= 0 ==> a[r] as int == b && forall j :: r < j < |a| ==> a[j] as int != b
    ensures r == -1 ==> forall j :: 0 <= j < |a| ==> a[j] as int != b
    decreases |a|
  {
    if |a| == 0 then -1
    else if a[|a| - 1] as int == b then |a| - 1
    else SymbolOf(a[..|a| - 1], b)
  }

  /** Builds the 256-entry inverse table of a charset: every slot starts at -1,
      then slot charset[i] is set to i for i = 0 .. 63. */
  method BuildCharsetMap(charset: seq<char8>) returns (charsetMap: seq<int>)
    requires |charset| == 64
    ensures |charsetMap| == 256
    ensures forall b :: 0 <= b < 256 ==> charsetMap[b] == SymbolOf(charset, b)
  {
    var m := new int[256](_ => -1);
    for i := 0 to 64
      invariant forall b :: 0 <= b < 256 ==> m[b] == SymbolOf(charset[..i], b)
    {
      m[charset[i] as int] := i;
      assert charset[..i + 1][..i] == charset[..i];
    }
    assert charset[..64] == charset;
    charsetMap := m[..];
  }

  /** For a valid alphabet the table undoes the charset, and exactly the bytes
      outside the alphabet (the padding character among them) map to -1. */
  lemma InverseTableUndoesCharset(a: seq<char8>)
    requires ValidAlphabet(a)
    ensures forall i :: 0 <= i < 64 ==> SymbolOf(a, a[i] as int) == i
    ensures forall b :: 0 <= b < 256 ==> (SymbolOf(a, b) == -1 <==> forall i :: 0 <= i < 64 ==> a[i] as int != b)
    ensures SymbolOf(a, PAD as int) == -1
  {
    forall i | 0 <= i < 64
      ensures SymbolOf(a, a[i] as int) == i
    {
      var r := SymbolOf(a, a[i] as int);
      assert a[r] == a[i];
    }
  }

  // ---------------------------------------------------------------------------
  // Encoding specification

  /** The characters that spell the symbol values q in alphabet a. */
  function Spell(a: seq<char8>, q: seq<Symbol>): seq<char8>
    requires |a| == 64
  {
    seq(|q|, j requires 0 <= j < |q| => a[q[j]])
  }

  /** The padding that brings a text of length m to a multiple of 4. */
  function Padding(m: nat): seq<char8>
  {
    seq((4 - m % 4) % 4, _ => PAD)
  }

  /** Base64 encoding of s in alphabet a, padded to a multiple of 4 on request. */
  function Encode(a: seq<char8>, s: seq<byte>, padding: bool): seq<char8>
    requires |a| == 64
  {
    var body := Spell(a, EncodeSymbols(s));
    if padding then body + Padding(|body|) else body
  }

  // ---------------------------------------------------------------------------
  // Decoding specification

  /** Position of the first padding character, or |t| if there is none. */
  function FirstPad(t: seq<char8>): (k: nat)
    ensures k <= |t| && PAD !in t[..k] && (k < |t| ==> t[k] == PAD)
    decreases |t|
  {
    if |t| == 0 || t[0] == PAD then 0
    else
      var k := FirstPad(t[1..]);
      assert t[..k + 1] == [t[0]] + t[1..][..k];
      k + 1
  }

  /** The first padding position is the only position before which there is
      no padding and at which there is padding (or the end). */
  lemma FirstPadAt(t: seq<char8>, i: nat)
    requires i <= |t| && PAD !in t[..i] && (i < |t| ==> t[i] == PAD)
    ensures FirstPad(t) == i && t[..i] == t[..FirstPad(t)]
  {
    var k := FirstPad(t);
    assert forall j :: 0 <= j < i ==> t[..i][j] != PAD;
    assert forall j :: 0 <= j < k ==> t[..k][j] != PAD;
  }

  /** Symbol values of the characters of t that are in the alphabet, in order;
      every other character is skipped. */
  function Symbols(a: seq<char8>, t: seq<char8>): seq<Symbol>
    requires |a| == 64
    decreases |t|
  {
    if |t| == 0 then []
    else
      var r := SymbolOf(a, t[|t| - 1] as int);
      Symbols(a, t[..|t| - 1]) + (if r == -1 then [] else [r])
  }

  /** The symbols the decoder accepts: in-alphabet characters before the
      first padding character. */
  function Accepted(a: seq<char8>, t: seq<char8>): seq<Symbol>
    requires |a| == 64
  {
    Symbols(a, t[..FirstPad(t)])
  }

  /** Lenient Base64 decoding of t in alphabet a. */
  function Decode(a: seq<char8>, t: seq<char8>): seq<byte>
    requires |a| == 64
  {
    DecodeSymbols(Accepted(a, t))
  }

  // ---------------------------------------------------------------------------
  // Encoder accumulator loop

  /** The accumulator after the bytes t holds, in its low bits, the bits not
      yet emitted: the low 2 or 4 bits of the last byte of an incomplete group. */
  predicate EncodeLive(value: nat, t: seq<byte>)
  {
    if |t| % 3 == 0 then true
    else if |t| % 3 == 1 then value % 4 == t[|t| - 1] % 4
    else value % 16 == t[|t| - 1] % 16
  }

  /** Quotient and remainder by one of the constant divisors the shifts use. */
  lemma DivMod(n: int, d: int, hi: int, lo: int)
    requires d == 4 || d == 16 || d == 64 || d == 256
    requires n == hi * d + lo && 0 <= lo < d
    ensures n / d == hi && n % d == lo
  {
    if d == 4 {
      assert n == hi * 4 + lo;
    } else if d == 16 {
      assert n == hi * 16 + lo;
    } else if d == 64 {
      assert n == hi * 64 + lo;
    } else {
      assert n == hi * 256 + lo;
    }
  }

  /** `(value << 8) + c` read back through `>> 2 & 0x3F` at the start of a
      group, and its 2 bits that stay live. */
  lemma EncodeArith0(c: byte, value: nat)
    ensures (value * 256 + c) / 4 % 64 == c / 4
    ensures (value * 256 + c) % 4 == c % 4
  {
    DivMod(value * 256 + c, 4, value * 64 + c / 4, c % 4);
    DivMod(value * 64 + c / 4, 64, value, c / 4);
  }

  /** The same through `>> 4 & 0x3F` after one byte of the group (2 live
      bits), and its 4 bits that stay live. */
  lemma EncodeArith1(last: byte, c: byte, value: nat)
    requires value % 4 == last % 4
    ensures (value * 256 + c) / 16 % 64 == (last % 4) * 16 + c / 16
    ensures (value * 256 + c) % 16 == c % 16
  {
    DivMod(value * 256 + c, 16, value * 16 + c / 16, c % 16);
    DivMod(value * 16 + c / 16, 64, value / 4, (last % 4) * 16 + c / 16);
  }

  /** The same through `>> 6 & 0x3F` and `& 0x3F` after two bytes of the
      group (4 live bits). */
  lemma EncodeArith2(last: byte, c: byte, value: nat)
    requires value % 16 == last % 16
    ensures (value * 256 + c) / 64 % 64 == (last % 16) * 4 + c / 64
    ensures (value * 256 + c) % 64 == c % 64
  {
    DivMod(value * 256 + c, 64, value * 4 + c / 64, c % 64);
    DivMod(value * 4 + c / 64, 64, value / 16, (last % 16) * 4 + c / 64);
  }

  /** The final symbol `((value << 8) >> (valueBits + 8)) & 0x3F` left-aligns
      the 2 or 4 live bits. */
  lemma FlushArith(value: nat)
    ensures value * 256 / 16 % 64 == (value % 4) * 16
    ensures value * 256 / 64 % 64 == (value % 16) * 4
  {
    DivMod(value * 256, 16, value * 16, 0);
    DivMod(value * 16, 64, value / 4, (value % 4) * 16);
    DivMod(value * 256, 64, value * 4, 0);
    DivMod(value * 4, 64, value / 16, (value % 16) * 4);
  }

  /** A byte at the start of a group completes one symbol, its top 6 bits. */
  lemma EncodeStep0(t: seq<byte>, c: byte, value: nat)
    requires |t| % 3 == 0
    ensures NewSymbols(t, c) == [(value * 256 + c) / 4 % 64]
    ensures EncodeLive(value * 256 + c, t + [c])
  {
    assert (t + [c])[|t|] == c;
    Mod3Succ(|t|);
    EncodeArith0(c, value);
  }

  /** The second byte of a group completes one symbol. */
  lemma EncodeStep1(t: seq<byte>, c: byte, value: nat)
    requires |t| % 3 == 1 && EncodeLive(value, t)
    ensures NewSymbols(t, c) == [(value * 256 + c) / 16 % 64]
    ensures EncodeLive(value * 256 + c, t + [c])
  {
    assert (t + [c])[|t|] == c;
    Mod3Succ(|t|);
    EncodeArith1(t[|t| - 1], c, value);
  }

  /** The third byte of a group completes two symbols and leaves nothing live. */
  lemma EncodeStep2(t: seq<byte>, c: byte, value: nat)
    requires |t| % 3 == 2 && EncodeLive(value, t)
    ensures NewSymbols(t, c) == [(value * 256 + c) / 64 % 64, (value * 256 + c) % 64]
    ensures EncodeLive(value * 256 + c, t + [c])
  {
    Mod3Succ(|t|);
    EncodeArith2(t[|t| - 1], c, value);
  }

  /** A shift by zero bits is the identity. */
  lemma ShiftByZero(v: nat)
    ensures v / Pow2(0) == v
  {
    assert Pow2(0) == 1;
  }

  /** Shifting byte s[i] into the accumulator (`valueBits` grows by 8): the
      symbols the inner loop of the source extracts, `(value >> valueBits) &
      0x3F` while `valueBits >= 0`, are the ones the byte completes, and the
      bits left over are the live bits of the longer prefix. */
  lemma EncodeStep(s: seq<byte>, i: nat, value: nat)
    requires i < |s| && EncodeLive(value, s[..i])
    ensures var N, v, vb := NewSymbols(s[..i], s[i]), value * 256 + s[i], 2 * (i % 3) + 2;
            |N| == (if vb >= 6 then 2 else 1)
            && vb - 6 * |N| == 2 * ((i + 1) % 3) - 6
            && N[0] == v / Pow2(vb) % 64
            && (vb >= 6 ==> N[1] == v / Pow2(vb - 6) % 64)
            && EncodeLive(v, s[..i + 1])
            && EncodedPrefix(s[..i + 1]) == EncodedPrefix(s[..i]) + N
  {
    var t, c := s[..i], s[i];
    assert s[..i + 1] == t + [c];
    EncodedPrefixSnoc(t, c);
    Mod3Succ(i);
    var v := value * 256 + c;
    if i % 3 == 0 {
      EncodeStep0(t, c, value);
      assert Pow2(2) == 4;
    } else if i % 3 == 1 {
      EncodeStep1(t, c, value);
      assert Pow2(4) == 16;
    } else {
      EncodeStep2(t, c, value);
      assert Pow2(6) == 64;
      ShiftByZero(v);
    }
  }

  /** After the last byte, the source's final symbol
      `((value << 8) >> (valueBits + 8)) & 0x3F` is the block-wise flushed symbol. */
  lemma EncodeFinish(t: seq<byte>, value: nat)
    requires |t| % 3 != 0 && EncodeLive(value, t)
    ensures FinalSymbols(t) == [(value * 256) / Pow2(2 * (|t| % 3) + 2) % 64]
  {
    FlushArith(value);
    if |t| % 3 == 1 {
      assert Pow2(4) == 16;
    } else {
      assert Pow2(6) == 64;
    }
  }

  /** Appending n <= (4 - m % 4) % 4 padding characters to a text of length m
      reaches a multiple of 4 exactly when all of them are appended. */
  lemma PaddingCount(m: nat, n: nat)
    requires n <= (4 - m % 4) % 4
    ensures (m + n) % 4 == 0 <==> n == (4 - m % 4) % 4
  {
    var r := m % 4;
    var k := m / 4;
    assert m == 4 * k + r;
    DivMod(m + n, 4, k + (r + n) / 4, (r + n) % 4);
  }

  lemma SpellAppend(a: seq<char8>, p: seq<Symbol>, r: seq<Symbol>)
    requires |a| == 64
    ensures Spell(a, p + r) == Spell(a, p) + Spell(a, r)
  {
  }

  /** The inner loop of the encoder: while at least 6 bits are live
      (`valueBits >= 0`), emits the character of `(value >> valueBits) & 0x3F`
      and consumes 6 bits. The symbols it emits are the pending ones whose
      values the caller has established. */
  method Drain(charset: seq<char8>, value: nat, valueBits: int, output: seq<char8>, ghost pending: seq<Symbol>)
    returns (output': seq<char8>, valueBits': int)
    requires |charset| == 64
    requires 0 <= valueBits <= 6 && |pending| == (if valueBits >= 6 then 2 else 1)
    requires pending[0] == value / Pow2(valueBits) % 64
    requires valueBits >= 6 ==> pending[1] == value / Pow2(valueBits - 6) % 64
    ensures output' == output + Spell(charset, pending)
    ensures valueBits' == valueBits - 6 * |pending|
  {
    output', valueBits' := output, valueBits;
    ghost var k := 0;
    while valueBits' >= 0
      invariant 0 <= k <= |pending|
      invariant valueBits' == valueBits - 6 * k
      invariant output' == output + Spell(charset, pending[..k])
      decreases valueBits' + 6
    {
      assert k == 0 || (k == 1 && valueBits >= 6);
      var symbol: Symbol := value / Pow2(valueBits') % 64;
      assert pending[..k + 1] == pending[..k] + [symbol];
      output' := output' + [charset[symbol]];
      valueBits' := valueBits' - 6;
      k := k + 1;
    }
    assert pending[..k] == pending;
  }

  /** The padding loop of the encoder: appends `=` until the length is a
      multiple of 4. */
  method AppendPadding(text: seq<char8>) returns (output: seq<char8>)
    ensures output == text + Padding(|text|)
  {
    output := text;
    ghost var fill := (4 - |text| % 4) % 4;
    while |output| % 4 != 0
      invariant |text| <= |output| <= |text| + fill
      invariant output == text + Padding(|text|)[..|output| - |text|]
      decreases |text| + fill - |output|
    {
      PaddingCount(|text|, |output| - |text|);
      assert Padding(|text|)[..|output| + 1 - |text|] == Padding(|text|)[..|output| - |text|] + [PAD];
      output := output + [PAD];
    }
    PaddingCount(|text|, |output| - |text|);
    assert Padding(|text|)[..fill] == Padding(|text|);
  }

  /** One input byte: shift it into the accumulator and emit the symbols
      it completes. */
  method ShiftByte(charset: seq<char8>, input: seq<byte>, i: nat, value: nat, valueBits: int, output: seq<char8>)
    returns (value': nat, valueBits': int, output': seq<char8>)
    requires |charset| == 64 && i < |input|
    requires valueBits == 2 * (i % 3) - 6 && EncodeLive(value, input[..i])
    requires output == Spell(charset, EncodedPrefix(input[..i]))
    ensures valueBits' == 2 * ((i + 1) % 3) - 6 && EncodeLive(value', input[..i + 1])
    ensures output' == Spell(charset, EncodedPrefix(input[..i + 1]))
  {
    EncodeStep(input, i, value);
    value' := value * 256 + input[i];
    valueBits' := valueBits + 8;
    ghost var completed := NewSymbols(input[..i], input[i]);
    output', valueBits' := Drain(charset, value', valueBits', output, completed);
    SpellAppend(charset, EncodedPrefix(input[..i]), completed);
  }

  /** The encoder: an accumulator `value` and a count `valueBits` (live bits
      minus 6). Each byte is shifted in; while at least 6 bits are live the top
      six are emitted; 2 or 4 leftover bits are left-aligned into one final
      symbol; then `=` is appended up to a multiple of 4 if padding is on. */
  method EncodeWith(charset: seq<char8>, input: seq<byte>, padding: bool) returns (output: seq<char8>)
    requires |charset| == 64
    ensures output == Encode(charset, input, padding)
  {
    output := [];
    var value: nat := 0;
    var valueBits: int := -6;
    ghost var syms: seq<Symbol> := [];
    for i := 0 to |input|
      invariant valueBits == 2 * (i % 3) - 6
      invariant EncodeLive(value, input[..i])
      invariant syms == EncodedPrefix(input[..i])
      invariant output == Spell(charset, syms)
    {
      value, valueBits, output := ShiftByte(charset, input, i, value, valueBits, output);
      syms := EncodedPrefix(input[..i + 1]);
    }
    assert input[..|input|] == input;
    EncodedPrefixComplete(input);
    if valueBits > -6 {
      EncodeFinish(input, value);
      var symbol: Symbol := (value * 256) / Pow2(valueBits + 8) % 64;
      SpellAppend(charset, syms, [symbol]);
      output := output + [charset[symbol]];
    }
    if padding {
      output := AppendPadding(output);
    }
  }

  // ---------------------------------------------------------------------------
  // Decoder accumulator loop

  /** Number of live accumulator bits after k accepted symbols: 6k mod 8. */
  function LiveBits(k: nat): nat
  {
    if k % 4 == 0 then 0 else if k % 4 == 1 then 6 else if k % 4 == 2 then 4 else 2
  }

  /** The accumulator after the symbols q holds, in its low LiveBits(|q|)
      bits, the bits not yet emitted: the low bits of the last symbol. */
  predicate DecodeLive(value: nat, q: seq<Symbol>)
  {
    if |q| % 4 == 0 then true
    else if |q| % 4 == 1 then value % 64 == q[|q| - 1]
    else if |q| % 4 == 2 then value % 16 == q[|q| - 1] % 16
    else value % 4 == q[|q| - 1] % 4
  }

  /** `(value << 6) + x` read back through `>> 4 & 0xFF` after a first
      symbol whose 6 bits are live. */
  lemma DecodeArith1(last: Symbol, x: Symbol, value: nat)
    requires value % 64 == last
    ensures (value * 64 + x) / 16 % 256 == Byte0(last, x)
    ensures (value * 64 + x) % 16 == x % 16
  {
    var v := value * 64 + x;
    DivMod(v, 16, value * 4 + x / 16, x % 16);
    DivMod(value * 4 + x / 16, 256, value / 64, last * 4 + x / 16);
  }

  /** The same through `>> 2 & 0xFF` after a second symbol (4 live bits). */
  lemma DecodeArith2(last: Symbol, x: Symbol, value: nat)
    requires value % 16 == last % 16
    ensures (value * 64 + x) / 4 % 256 == Byte1(last, x)
    ensures (value * 64 + x) % 4 == x % 4
  {
    var v := value * 64 + x;
    DivMod(v, 4, value * 16 + x / 4, x % 4);
    DivMod(value * 16 + x / 4, 256, value / 16, (last % 16) * 16 + x / 4);
  }

  /** The same through `& 0xFF` after a third symbol (2 live bits). */
  lemma DecodeArith3(last: Symbol, x: Symbol, value: nat)
    requires value % 4 == last % 4
    ensures (value * 64 + x) % 256 == Byte2(last, x)
  {
    DivMod(value * 64 + x, 256, value / 4, (last % 4) * 64 + x);
  }

  /** The number of live bits cycles 0, 6, 4, 2, 0, ... symbol by symbol. */
  lemma LiveBitsStep(n: nat)
    ensures LiveBits(n + 1) == if LiveBits(n) >= 2 then LiveBits(n) - 2 else LiveBits(n) + 6
  {
    Mod4Succ(n);
  }

  /** The bits left in the accumulator after one more symbol are the live
      bits of the longer symbol sequence. */
  lemma DecodeLiveStep(q: seq<Symbol>, x: Symbol, value: nat)
    requires DecodeLive(value, q)
    ensures DecodeLive(value * 64 + x, q + [x])
  {
    assert (q + [x])[|q|] == x;
    Mod4Succ(|q|);
    if |q| % 4 == 0 {
      DivMod(value * 64 + x, 64, value, x);
    } else if |q| % 4 == 1 {
      DecodeArith1(q[|q| - 1], x, value);
    } else if |q| % 4 == 2 {
      DecodeArith2(q[|q| - 1], x, value);
    }
  }

  /** The byte one more symbol completes is the one the source extracts,
      `(value >> valueBits) & 0xFF` with `valueBits` = LiveBits - 2 >= 0,
      from the accumulator with that symbol shifted in. */
  lemma NextByteShift(q: seq<Symbol>, x: Symbol, value: nat)
    requires DecodeLive(value, q)
    ensures var vb := LiveBits(|q|) - 2;
            NextBytes(q, x) == if vb >= 0 then [(value * 64 + x) / Pow2(vb) % 256] else []
  {
    if |q| % 4 == 1 {
      assert Pow2(4) == 16;
      DecodeArith1(q[|q| - 1], x, value);
    } else if |q| % 4 == 2 {
      assert Pow2(2) == 4;
      DecodeArith2(q[|q| - 1], x, value);
    } else if |q| % 4 == 3 {
      ShiftByZero(value * 64 + x);
      DecodeArith3(q[|q| - 1], x, value);
    }
  }

  /** Shifting a symbol into the accumulator (`valueBits` grows by 6): the
      byte the source extracts, `(value >> valueBits) & 0xFF` once
      `valueBits >= 0`, is the one the block-wise decoder appends, and the
      bits left over are the live bits of the longer symbol sequence. */
  lemma DecodeStep(q: seq<Symbol>, x: Symbol, value: nat)
    requires DecodeLive(value, q)
    ensures var v, vb := value * 64 + x, LiveBits(|q|) - 2;
            LiveBits(|q| + 1) == (if vb >= 0 then vb else vb + 8)
            && DecodeSymbols(q + [x]) == DecodeSymbols(q) + (if vb >= 0 then [v / Pow2(vb) % 256] else [])
            && DecodeLive(v, q + [x])
  {
    LiveBitsStep(|q|);
    DecodeSymbolsSnoc(q, x);
    NextByteShift(q, x, value);
    DecodeLiveStep(q, x, value);
  }

  /** One more character of the input adds its symbol, if it has one. */
  lemma SymbolsStep(a: seq<char8>, t: seq<char8>, i: nat)
    requires |a| == 64 && i < |t|
    ensures var r := SymbolOf(a, t[i] as int);
            Symbols(a, t[..i + 1]) == Symbols(a, t[..i]) + (if r == -1 then [] else [r])
  {
    assert t[..i + 1][..i] == t[..i];
  }

  /** One accepted symbol: shift it into the accumulator and, once 8 bits
      are available, emit the byte they form. */
  method ShiftIn(value: nat, valueBits: int, output: seq<byte>, ghost syms: seq<Symbol>, x: Symbol)
    returns (value': nat, valueBits': int, output': seq<byte>)
    requires valueBits == LiveBits(|syms|) - 8 && DecodeLive(value, syms)
    requires output == DecodeSymbols(syms)
    ensures valueBits' == LiveBits(|syms| + 1) - 8 && DecodeLive(value', syms + [x])
    ensures output' == DecodeSymbols(syms + [x])
  {
    DecodeStep(syms, x, value);
    value' := value * 64 + x;
    valueBits' := valueBits + 6;
    output' := output;
    if valueBits' >= 0 {
      output' := output' + [value' / Pow2(valueBits') % 256];
      valueBits' := valueBits' - 8;
    }
  }

  /** The decoder: stops at the first `=`, skips every character whose table
      entry is -1, shifts each accepted symbol into the accumulator and emits
      a byte whenever 8 bits are available; leftover bits are dropped. */
  method DecodeWith(charset: seq<char8>, charsetMap: seq<int>, input: seq<char8>) returns (output: seq<byte>)
    requires |charset| == 64
    requires |charsetMap| == 256 && forall b :: 0 <= b < 256 ==> charsetMap[b] == SymbolOf(charset, b)
    ensures output == Decode(charset, input)
  {
    output := [];
    var value: nat := 0;
    var valueBits: int := -8;
    ghost var syms: seq<Symbol> := [];
    for i := 0 to |input|
      invariant PAD !in input[..i]
      invariant syms == Symbols(charset, input[..i])
      invariant valueBits == LiveBits(|syms|) - 8
      invariant DecodeLive(value, syms)
      invariant output == DecodeSymbols(syms)
    {
      var c := input[i];
      if c == PAD {
        FirstPadAt(input, i);
        break;
      }
      SymbolsStep(charset, input, i);
      assert PAD !in input[..i + 1] by {
        assert input[..i + 1] == input[..i] + [c];
      }
      var inMapValue := charsetMap[c as int];
      if inMapValue == -1 {
        continue;
      }
      value, valueBits, output := ShiftIn(value, valueBits, output, syms, inMapValue);
      syms := syms + [inMapValue];
    }
    // Proof only: on a run without `=` the loop consumed the whole input.
    if PAD !in input {
      FirstPadAt(input, |input|);
    }
  }
}
