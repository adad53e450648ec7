/** The pure, block-wise view of Base64 bit packing (section 4 of RFC 4648):
    every group of three bytes becomes four 6-bit symbols, a trailing group of
    one or two bytes becomes two or three symbols whose last one is zero-filled,
    and decoding regroups symbols four at a time into three bytes. This module
    knows nothing about characters or alphabets; it is the reference the
    accumulator loops of the codecs are proved against. */
module Blocks {

  /** One octet of a byte string (the source reads input through `unsigned char`). */
  type byte = x: int | 0 <= x < 256

  /** A 6-bit symbol value, i.e. an index into a 64-character alphabet. */
  type Symbol = x: int | 0 <= x < 64

  function Pow2(k: nat): (r: nat)
    ensures r >= 1
  {
    if k == 0 then 1 else 2 * Pow2(k - 1)
  }

  // ---------------------------------------------------------------------------
  // Encoding: bytes to symbols

  /** The four symbols of a full group of three bytes. */
  function EncodeGroup(b0: byte, b1: byte, b2: byte): seq<Symbol>
  {
    [b0 / 4, (b0 % 4) * 16 + b1 / 16, (b1 % 16) * 4 + b2 / 64, b2 % 64]
  }

  /** The symbols of a trailing group of fewer than three bytes that are
      complete before its final, zero-filled symbol. */
  function Partial(t: seq<byte>): seq<Symbol>
    requires |t| < 3
  {
    if |t| == 0 then []
    else if |t| == 1 then [t[0] / 4]
    else [t[0] / 4, (t[0] % 4) * 16 + t[1] / 16]
  }

  /** The final symbol of a trailing group of one or two bytes: its leftover
      2 or 4 bits, left-aligned in a symbol whose low bits are zero. */
  function Flush(t: seq<byte>): Symbol
    requires 1 <= |t| < 3
  {
    if |t| == 1 then (t[0] % 4) * 16 else (t[1] % 16) * 4
  }

  /** Block-wise Base64 encoding of a byte string into symbol values. */
  function EncodeSymbols(s: seq<byte>): seq<Symbol>
    decreases |s|
  {
    if |s| >= 3 then EncodeGroup(s[0], s[1], s[2]) + EncodeSymbols(s[3..])
    else if |s| == 0 then []
    else Partial(s) + [Flush(s)]
  }

  /** Number of symbols (without padding) produced for n input bytes. */
  function UnpaddedLength(n: nat): nat
  {
    4 * (n / 3) + (if n % 3 == 0 then 0 else n % 3 + 1)
  }

  /** The symbols fixed by the first |t| bytes of a longer input: the full
      groups of t followed by the complete symbols of its trailing group. */
  function EncodedPrefix(t: seq<byte>): seq<Symbol>
    decreases |t|
  {
    if |t| >= 3 then EncodeGroup(t[0], t[1], t[2]) + EncodedPrefix(t[3..])
    else Partial(t)
  }

  /** The zero-filled final symbol that ends an encoding of t, if t ends
      inside a group. */
  function FinalSymbols(t: seq<byte>): seq<Symbol>
  {
    if |t| % 3 == 0 then []
    else if |t| % 3 == 1 then [(t[|t| - 1] % 4) * 16]
    else [(t[|t| - 1] % 16) * 4]
  }

  /** The symbol(s) that one more byte c completes after the bytes t. */
  function NewSymbols(t: seq<byte>, c: byte): seq<Symbol>
  {
    var k := |t| % 3;
    if k == 0 then [c / 4]
    else if k == 1 then [(t[|t| - 1] % 4) * 16 + c / 16]
    else [(t[|t| - 1] % 16) * 4 + c / 64, c % 64]
  }

  // ---------------------------------------------------------------------------
  // Decoding: symbols to bytes

  /** First byte of a group: all 6 bits of q0 and the top 2 bits of q1. */
  function Byte0(q0: Symbol, q1: Symbol): byte
  {
    q0 * 4 + q1 / 16
  }

  /** Second byte of a group: the low 4 bits of q1 and the top 4 bits of q2. */
  function Byte1(q1: Symbol, q2: Symbol): byte
  {
    (q1 % 16) * 16 + q2 / 4
  }

  /** Third byte of a group: the low 2 bits of q2 and all 6 bits of q3. */
  function Byte2(q2: Symbol, q3: Symbol): byte
  {
    (q2 % 4) * 64 + q3
  }

  /** The three bytes of a full group of four symbols. */
  function DecodeGroup(q0: Symbol, q1: Symbol, q2: Symbol, q3: Symbol): seq<byte>
  {
    [Byte0(q0, q1), Byte1(q1, q2), Byte2(q2, q3)]
  }

  /** Block-wise decoding of symbol values: full groups of four give three
      bytes, a trailing group of k symbols gives k - 1 bytes (none for k = 1),
      and its leftover bits are dropped. */
  function DecodeSymbols(q: seq<Symbol>): seq<byte>
    decreases |q|
  {
    if |q| >= 4 then DecodeGroup(q[0], q[1], q[2], q[3]) + DecodeSymbols(q[4..])
    else if |q| == 3 then [Byte0(q[0], q[1]), Byte1(q[1], q[2])]
    else if |q| == 2 then [Byte0(q[0], q[1])]
    else []
  }

  /** The byte that one more symbol x completes after the symbols q, if any. */
  function NextBytes(q: seq<Symbol>, x: Symbol): seq<byte>
  {
    var k := |q| % 4;
    if k == 0 then []
    else if k == 1 then [Byte0(q[|q| - 1], x)]
    else if k == 2 then [Byte1(q[|q| - 1], x)]
    else [Byte2(q[|q| - 1], x)]
  }

  // ---------------------------------------------------------------------------
  // Properties of the block-wise specification

  /** Encoding n bytes gives 4*(n/3) symbols plus 0, 2 or 3 for n mod 3 = 0, 1, 2. */
  lemma {:induction false} EncodeSymbolsLength(s: seq<byte>)
    ensures |EncodeSymbols(s)| == UnpaddedLength(|s|)
    decreases |s|
  {
    if |s| >= 3 {
      EncodeSymbolsLength(s[3..]);
    }
  }

  /** Decoding k symbols gives floor(6k/8) bytes: never a partial byte. */
  lemma {:induction false} DecodeSymbolsLength(q: seq<Symbol>)
    ensures |DecodeSymbols(q)| == 6 * |q| / 8
    decreases |q|
  {
    if |q| >= 4 {
      DecodeSymbolsLength(q[4..]);
    }
  }

  /** Encoding is compositional at group boundaries. */
  lemma {:induction false} EncodeSymbolsAppend(p: seq<byte>, r: seq<byte>)
    requires |p| % 3 == 0
    ensures EncodeSymbols(p + r) == EncodeSymbols(p) + EncodeSymbols(r)
    decreases |p|
  {
    if |p| > 0 {
      calc {
        EncodeSymbols(p + r);
        EncodeGroup(p[0], p[1], p[2]) + EncodeSymbols((p + r)[3..]);
        { assert (p + r)[3..] == p[3..] + r; EncodeSymbolsAppend(p[3..], r); }
        EncodeGroup(p[0], p[1], p[2]) + (EncodeSymbols(p[3..]) + EncodeSymbols(r));
        EncodeSymbols(p) + EncodeSymbols(r);
      }
    } else {
      assert p + r == r;
    }
  }

  /** Decoding one more symbol appends exactly the byte(s) that symbol completes. */
  lemma {:induction false} DecodeSymbolsSnoc(q: seq<Symbol>, x: Symbol)
    ensures DecodeSymbols(q + [x]) == DecodeSymbols(q) + NextBytes(q, x)
    decreases |q|
  {
    if |q| >= 4 {
      var q' := q[4..];
      assert (q + [x])[4..] == q' + [x];
      DecodeSymbolsSnoc(q', x);
      Mod4Shift(|q|);
      if |q'| > 0 {
        assert q'[|q'| - 1] == q[|q| - 1];
      }
      assert NextBytes(q', x) == NextBytes(q, x);
    }
  }

  /** Appending a byte extends the fixed symbols by exactly the ones it completes. */
  lemma {:induction false} EncodedPrefixSnoc(t: seq<byte>, c: byte)
    ensures EncodedPrefix(t + [c]) == EncodedPrefix(t) + NewSymbols(t, c)
    decreases |t|
  {
    var t' := t + [c];
    if |t| >= 3 {
      assert t'[3..] == t[3..] + [c];
      EncodedPrefixSnoc(t[3..], c);
      assert NewSymbols(t[3..], c) == NewSymbols(t, c) by {
        Mod3Shift(|t|);
        if |t| > 3 {
          assert t[3..][|t| - 4] == t[|t| - 1];
        }
      }
      AppendAssoc(EncodeGroup(t[0], t[1], t[2]), EncodedPrefix(t[3..]), NewSymbols(t, c));
    } else if |t| == 2 {
      assert t'[3..] == [];
    }
  }

  /** Removing one whole group of three bytes does not change the position
      within a group. */
  lemma Mod3Shift(n: int)
    requires n >= 3
    ensures (n - 3) % 3 == n % 3
  {
  }

  /** Removing one whole group of four symbols does not change the position
      within a group. */
  lemma Mod4Shift(n: int)
    requires n >= 4
    ensures (n - 4) % 4 == n % 4
  {
  }

  /** The position within a group of three advances by one, wrapping after 2. */
  lemma Mod3Succ(n: nat)
    ensures (n + 1) % 3 == if n % 3 == 2 then 0 else n % 3 + 1
  {
  }

  /** The position within a group of four advances by one, wrapping after 3. */
  lemma Mod4Succ(n: nat)
    ensures (n + 1) % 4 == if n % 4 == 3 then 0 else n % 4 + 1
  {
  }

  /** Sequence concatenation regrouped, as a separate step so that the
      recursive lemmas above need not rediscover it among their other facts. */
  lemma AppendAssoc<T>(x: seq<T>, y: seq<T>, z: seq<T>)
    ensures (x + y) + z == x + (y + z)
  {
  }

  /** Once the input is exhausted, the fixed symbols followed by the final
      flushed symbol are the whole encoding. */
  lemma {:induction false} EncodedPrefixComplete(t: seq<byte>)
    ensures EncodedPrefix(t) + FinalSymbols(t) == EncodeSymbols(t)
    decreases |t|
  {
    if |t| >= 3 {
      EncodedPrefixComplete(t[3..]);
      assert FinalSymbols(t[3..]) == FinalSymbols(t) by {
        Mod3Shift(|t|);
        if |t| > 3 {
          assert t[3..][|t| - 4] == t[|t| - 1];
        }
      }
      AppendAssoc(EncodeGroup(t[0], t[1], t[2]), EncodedPrefix(t[3..]), FinalSymbols(t));
    }
  }

  /** One full group survives the round trip. */
  lemma GroupRoundTrip(b0: byte, b1: byte, b2: byte)
    ensures var e := EncodeGroup(b0, b1, b2);
            DecodeGroup(e[0], e[1], e[2], e[3]) == [b0, b1, b2]
  {
    assert (b0 / 4) * 4 + b0 % 4 == b0;
    assert ((b0 % 4) * 16 + b1 / 16) / 16 == b0 % 4;
    assert ((b0 % 4) * 16 + b1 / 16) % 16 == b1 / 16;
    assert ((b1 % 16) * 4 + b2 / 64) / 4 == b1 % 16;
    assert ((b1 % 16) * 4 + b2 / 64) % 4 == b2 / 64;
  }

  /** The block-wise decoder inverts the block-wise encoder. */
  lemma {:induction false} SymbolsRoundTrip(s: seq<byte>)
    ensures DecodeSymbols(EncodeSymbols(s)) == s
    decreases |s|
  {
    if |s| >= 3 {
      var e := EncodeGroup(s[0], s[1], s[2]);
      var rest := EncodeSymbols(s[3..]);
      assert (e + rest)[4..] == rest;
      GroupRoundTrip(s[0], s[1], s[2]);
      SymbolsRoundTrip(s[3..]);
      assert s == [s[0], s[1], s[2]] + s[3..];
    } else if |s| == 2 {
      assert ((s[0] % 4) * 16 + s[1] / 16) / 16 == s[0] % 4;
      assert ((s[0] % 4) * 16 + s[1] / 16) % 16 == s[1] / 16;
    }
  }

  /** The bits of a trailing group's last symbol that complete no byte are
      dropped unchecked: changing them does not change the decoding. A lone
      trailing symbol is dropped whole; after one symbol of a group only the
      top 2 bits of the next one are used, after two symbols only its top 4. */
  lemma LeftoverBitsIgnored(q: seq<Symbol>, x: Symbol, y: Symbol)
    requires |q| % 4 == 0 || (|q| % 4 == 1 && x / 16 == y / 16) || (|q| % 4 == 2 && x / 4 == y / 4)
    ensures DecodeSymbols(q + [x]) == DecodeSymbols(q + [y])
  {
    DecodeSymbolsSnoc(q, x);
    DecodeSymbolsSnoc(q, y);
    assert NextBytes(q, x) == NextBytes(q, y);
  }
}
