/** Properties of the Base64 specification shared by both alphabets: output
    length and padding, output alphabet, the round trip, and how the lenient
    decoder treats padding and characters outside the alphabet. */
module CodecLaws {
  import opened Blocks
  import opened Codec

  // ---------------------------------------------------------------------------
  // Lengths

  /** The padding count for a body of UnpaddedLength(n) symbols: 0, 2 or 1
      for n mod 3 = 0, 1, 2, so never more than two `=`. */
  lemma PaddingOfBody(n: nat)
    ensures var u := UnpaddedLength(n);
            |Padding(u)| == (if n % 3 == 0 then 0 else 3 - n % 3)
            && u + |Padding(u)| == 4 * ((n + 2) / 3)
  {
    var k, r := n / 3, n % 3;
    assert n == 3 * k + r;
    var u := UnpaddedLength(n);
    if r == 0 {
      assert u == 4 * k;
      DivMod(u, 4, k, 0);
      assert (n + 2) / 3 == k;
    } else if r == 1 {
      assert u == 4 * k + 2;
      DivMod(u, 4, k, 2);
      assert (n + 2) / 3 == k + 1;
    } else {
      assert u == 4 * k + 3;
      DivMod(u, 4, k, 3);
      assert (n + 2) / 3 == k + 1;
    }
  }

  /** Unpadded output has 4*(n/3) characters plus 2 or 3 for a trailing group
      of 1 or 2 bytes; padded output has 4*ceil(n/3), a multiple of 4, with at
      most two `=` at the end. */
  lemma EncodeLength(a: seq<char8>, s: seq<byte>)
    requires |a| == 64
    ensures |Encode(a, s, false)| == UnpaddedLength(|s|)
    ensures |Encode(a, s, true)| == 4 * ((|s| + 2) / 3)
    ensures |Encode(a, s, true)| - |Encode(a, s, false)| <= 2
  {
    EncodeSymbolsLength(s);
    PaddingOfBody(|s|);
  }

  // ---------------------------------------------------------------------------
  // Output alphabet

  /** Without padding every output character is in the alphabet; with
      padding, the output is the unpadded text followed by `=` only. */
  lemma EncodeAlphabet(a: seq<char8>, s: seq<byte>)
    requires |a| == 64
    ensures forall j :: 0 <= j < |Encode(a, s, false)| ==> Encode(a, s, false)[j] in a
    ensures var body := Encode(a, s, false);
            |body| <= |Encode(a, s, true)|
            && Encode(a, s, true)[..|body|] == body
            && forall j :: |body| <= j < |Encode(a, s, true)| ==> Encode(a, s, true)[j] == PAD
  {
  }

  // ---------------------------------------------------------------------------
  // First padding position and accepted symbols

  /** The first padding character of a concatenation is the first one of its
      left part, if that has one, else the first one of its right part. */
  lemma {:induction false} FirstPadAppend(p: seq<char8>, r: seq<char8>)
    ensures FirstPad(p + r) == if PAD in p then FirstPad(p) else |p| + FirstPad(r)
  {
    var t := p + r;
    if PAD in p {
      var k := FirstPad(p);
      assert t[..k] == p[..k];
      FirstPadAt(t, k);
    } else {
      var k := FirstPad(r);
      assert t[..|p| + k] == p + r[..k];
      FirstPadAt(t, |p| + k);
    }
  }

  /** Skipping characters is compositional. */
  lemma {:induction false} SymbolsAppend(a: seq<char8>, p: seq<char8>, r: seq<char8>)
    requires |a| == 64
    ensures Symbols(a, p + r) == Symbols(a, p) + Symbols(a, r)
    decreases |r|
  {
    if |r| == 0 {
      assert p + r == p;
    } else {
      var r' := r[..|r| - 1];
      assert (p + r)[..|p + r| - 1] == p + r';
      SymbolsAppend(a, p, r');
    }
  }

  /** Over a valid alphabet, the characters that spell q give back q. */
  lemma {:induction false} SymbolsOfSpell(a: seq<char8>, q: seq<Symbol>)
    requires ValidAlphabet(a)
    ensures Symbols(a, Spell(a, q)) == q
    decreases |q|
  {
    if |q| > 0 {
      var q' := q[..|q| - 1];
      assert Spell(a, q)[..|q| - 1] == Spell(a, q');
      SymbolsOfSpell(a, q');
      InverseTableUndoesCharset(a);
      assert q == q' + [q[|q| - 1]];
    }
  }

  // ---------------------------------------------------------------------------
  // Round trip

  /** Decoding the encoding of any byte string, padded or not, over a valid
      alphabet gives the byte string back. */
  lemma EncodeRoundTrip(a: seq<char8>, s: seq<byte>, padding: bool)
    requires ValidAlphabet(a)
    ensures Decode(a, Encode(a, s, padding)) == s
  {
    var q := EncodeSymbols(s);
    var body := Spell(a, q);
    var pad := if padding then Padding(|body|) else [];
    assert Encode(a, s, padding) == body + pad;
    assert PAD !in body;
    FirstPadAppend(body, pad);
    assert |pad| > 0 ==> pad[0] == PAD;
    assert FirstPad(pad) == 0;
    assert (body + pad)[..|body|] == body;
    SymbolsOfSpell(a, q);
    SymbolsRoundTrip(s);
  }

  // ---------------------------------------------------------------------------
  // Lenient decoding

  /** k accepted symbols give floor(6k/8) bytes, so never more than
      3/4 of the input length. */
  lemma DecodeLength(a: seq<char8>, t: seq<char8>)
    requires |a| == 64
    ensures |Decode(a, t)| == 6 * |Accepted(a, t)| / 8
    ensures |Decode(a, t)| <= 3 * |t| / 4
  {
    DecodeSymbolsLength(Accepted(a, t));
    SymbolsBound(a, t[..FirstPad(t)]);
  }

  /** A character contributes at most one symbol. */
  lemma {:induction false} SymbolsBound(a: seq<char8>, t: seq<char8>)
    requires |a| == 64
    ensures |Symbols(a, t)| <= |t|
    decreases |t|
  {
    if |t| > 0 {
      SymbolsBound(a, t[..|t| - 1]);
    }
  }

  /** Everything from the first `=` on is ignored. */
  lemma DecodeStopsAtPad(a: seq<char8>, p: seq<char8>, r: seq<char8>)
    requires |a| == 64
    ensures Decode(a, p + [PAD] + r) == Decode(a, p)
  {
    var t := p + ([PAD] + r);
    assert p + [PAD] + r == t;
    FirstPadAppend(p, [PAD] + r);
    if PAD in p {
      assert t[..FirstPad(p)] == p[..FirstPad(p)];
    } else {
      assert ([PAD] + r)[0] == PAD;
      assert FirstPad([PAD] + r) == 0;
      FirstPadAt(p, |p|);
      assert t[..FirstPad(t)] == p == p[..FirstPad(p)];
    }
  }

  /** A character that is neither `=` nor in the alphabet is skipped. */
  lemma DecodeSkipsForeign(a: seq<char8>, p: seq<char8>, c: char8, r: seq<char8>)
    requires |a| == 64
    requires c != PAD && SymbolOf(a, c as int) == -1
    ensures Decode(a, p + [c] + r) == Decode(a, p + r)
  {
    assert p + [c] + r == (p + [c]) + r;
    var pc := p + [c];
    FirstPadAppend(pc, r);
    FirstPadAppend(p, r);
    if PAD in p {
      assert PAD in pc by {
        var j :| 0 <= j < |p| && p[j] == PAD;
        assert pc[j] == PAD;
      }
      PadInPrefix(p, c, r);
    } else {
      assert PAD !in pc;
      SkipBeforePad(a, p, c, r);
    }
  }

  /** With a `=` inside p, both texts are cut before c is reached. */
  lemma PadInPrefix(p: seq<char8>, c: char8, r: seq<char8>)
    requires PAD in p
    ensures FirstPad(p + [c] + r) == FirstPad(p + r) == FirstPad(p)
    ensures (p + [c] + r)[..FirstPad(p)] == (p + r)[..FirstPad(p)] == p[..FirstPad(p)]
  {
    FirstPadAppend(p, [c] + r);
    FirstPadAppend(p, r);
    assert p + [c] + r == p + ([c] + r);
  }

  /** Without a `=` in p, the skipped character only shifts the rest. */
  lemma SkipBeforePad(a: seq<char8>, p: seq<char8>, c: char8, r: seq<char8>)
    requires |a| == 64
    requires c != PAD && SymbolOf(a, c as int) == -1 && PAD !in p && PAD !in p + [c]
    ensures Accepted(a, p + [c] + r) == Accepted(a, p + r)
  {
    var k := FirstPad(r);
    AcceptedAfter(a, p + [c], r);
    AcceptedAfter(a, p, r);
    SymbolsAppend(a, p + [c], r[..k]);
    SymbolsAppend(a, p, r[..k]);
    LastSymbol(a, p + [c]);
    assert (p + [c])[..|p|] == p;
  }

  /** Behind a prefix without `=`, the cut falls at the first `=` of the rest. */
  lemma AcceptedAfter(a: seq<char8>, p: seq<char8>, r: seq<char8>)
    requires |a| == 64 && PAD !in p
    ensures Accepted(a, p + r) == Symbols(a, p + r[..FirstPad(r)])
  {
    FirstPadAppend(p, r);
    assert (p + r)[..|p| + FirstPad(r)] == p + r[..FirstPad(r)];
  }

  /** Symbols of a non-empty text: those of all but its last character, then
      that character's value if it has one. */
  lemma LastSymbol(a: seq<char8>, t: seq<char8>)
    requires |a| == 64 && |t| > 0
    ensures var r := SymbolOf(a, t[|t| - 1] as int);
            Symbols(a, t) == Symbols(a, t[..|t| - 1]) + (if r == -1 then [] else [r])
  {
  }

  /** Input none of whose characters is in the alphabet decodes to nothing. */
  lemma {:induction false} DecodeForeignOnly(a: seq<char8>, t: seq<char8>)
    requires |a| == 64
    requires forall i :: 0 <= i < |t| ==> SymbolOf(a, t[i] as int) == -1
    ensures Decode(a, t) == []
  {
    ForeignSymbols(a, t[..FirstPad(t)]);
  }

  lemma {:induction false} ForeignSymbols(a: seq<char8>, t: seq<char8>)
    requires |a| == 64
    requires forall i :: 0 <= i < |t| ==> SymbolOf(a, t[i] as int) == -1
    ensures Symbols(a, t) == []
    decreases |t|
  {
    if |t| > 0 {
      ForeignSymbols(a, t[..|t| - 1]);
    }
  }

  // ---------------------------------------------------------------------------
  // Texts of the unit tests

  /** The bytes of a `std::string` read through `unsigned char`. */
  function Octets(s: seq<char8>): seq<byte>
  {
    seq(|s|, i requires 0 <= i < |s| => s[i] as int)
  }

  /** "TWE===" is "TWE=" followed by "==": the decoder stops at its first `=`. */
  lemma ExtraPaddingSplit()
    ensures "TWE" + [PAD] + "==" == "TWE==="
    ensures "TWE" + [PAD] + [] == "TWE="
  {
  }
}
