/** The URL- and filename-safe Base64 codec (section 5 of RFC 4648): the
    same bit packing as the standard codec over an alphabet whose symbols 62
    and 63 are `-` and `_`, with `base64url_encode`, `base64url_decode` and
    their test vectors. */
module Base64Url {
  import opened Blocks
  import opened Codec
  import opened CodecLaws
  import Base64

  /** The URL-safe alphabet (written as four pieces: letters, digits, `-_`). */
  const BASE64URL_CHARSET: seq<char8> :=
    "ABCDEFGHIJKLMNOPQRSTUVWXYZ" + "abcdefghijklmnopqrstuvwxyz" + "0123456789" + "-_"

  // ---------------------------------------------------------------------------
  // The alphabet in closed form (Table 2 of RFC 4648)

  /** Character code of symbol i. */
  function UrlCode(i: nat): int
    requires i < 64
  {
    if i < 26 then 'A' as int + i
    else if i < 52 then 'a' as int + (i - 26)
    else if i < 62 then '0' as int + (i - 52)
    else if i == 62 then '-' as int
    else '_' as int
  }

  /** Symbol value of byte b, or -1 for a byte outside the alphabet. */
  function UrlValue(b: int): int
  {
    if 'A' as int <= b <= 'Z' as int then b - 'A' as int
    else if 'a' as int <= b <= 'z' as int then b - 'a' as int + 26
    else if '0' as int <= b <= '9' as int then b - '0' as int + 52
    else if b == '-' as int then 62
    else if b == '_' as int then 63
    else -1
  }

  lemma CharsetCodes()
    ensures |BASE64URL_CHARSET| == 64
    ensures forall i :: 0 <= i < 64 ==> BASE64URL_CHARSET[i] as int == UrlCode(i)
  {
    forall i | 0 <= i < 26
      ensures BASE64URL_CHARSET[i] as int == UrlCode(i)
    {
    }
    forall i | 26 <= i < 52
      ensures BASE64URL_CHARSET[i] as int == UrlCode(i)
    {
    }
    forall i | 52 <= i < 64
      ensures BASE64URL_CHARSET[i] as int == UrlCode(i)
    {
    }
  }

  /** The URL-safe alphabet has 64 distinct characters and no `=`. */
  lemma CharsetValid()
    ensures ValidAlphabet(BASE64URL_CHARSET)
  {
    CharsetCodes();
    forall i | 0 <= i < 64
      ensures UrlValue(UrlCode(i)) == i
    {
    }
  }

  /** The inverse table is Table 2 of RFC 4648 read backwards: `-` maps to
      62 and `_` to 63, while `+`, `/` and `=` map to -1 like every other
      byte outside the alphabet. */
  lemma CharsetTable()
    ensures forall b :: 0 <= b < 256 ==> SymbolOf(BASE64URL_CHARSET, b) == UrlValue(b)
    ensures SymbolOf(BASE64URL_CHARSET, '-' as int) == 62 && SymbolOf(BASE64URL_CHARSET, '_' as int) == 63
    ensures SymbolOf(BASE64URL_CHARSET, '+' as int) == -1 && SymbolOf(BASE64URL_CHARSET, '/' as int) == -1
    ensures SymbolOf(BASE64URL_CHARSET, PAD as int) == -1
  {
    forall b | 0 <= b < 256
      ensures SymbolOf(BASE64URL_CHARSET, b) == UrlValue(b)
    {
      TableEntry(b);
    }
  }

  /** One entry of the inverse table. */
  lemma TableEntry(b: int)
    requires 0 <= b < 256
    ensures SymbolOf(BASE64URL_CHARSET, b) == UrlValue(b)
  {
    CharsetCodes();
    CharsetValid();
    if UrlValue(b) >= 0 {
      assert BASE64URL_CHARSET[UrlValue(b)] as int == b;
    } else {
      forall i | 0 <= i < 64
        ensures BASE64URL_CHARSET[i] as int != b
      {
        assert UrlValue(UrlCode(i)) == i;
      }
    }
  }

  // ---------------------------------------------------------------------------
  // Relation to the standard alphabet

  /** The character substitution of section 5 of RFC 4648: `+` becomes `-`,
      `/` becomes `_`, everything else is kept. */
  function ToUrl(c: char8): char8
  {
    if c == '+' then '-' else if c == '/' then '_' else c
  }

  /** ToUrl applied to every character of a text; what it returns is free
      of the two characters that are unsafe in URLs and file names. */
  function ToUrlText(t: seq<char8>): (r: seq<char8>)
    ensures '+' !in r && '/' !in r
  {
    seq(|t|, i requires 0 <= i < |t| => ToUrl(t[i]))
  }

  /** The two alphabets differ exactly in symbols 62 and 63. */
  lemma CharsetTranslate()
    ensures forall i :: 0 <= i < 64 ==> BASE64URL_CHARSET[i] == ToUrl(Base64.BASE64_CHARSET[i])
  {
    CharsetCodes();
    Base64.CharsetCodes();
    forall i | 0 <= i < 64
      ensures BASE64URL_CHARSET[i] == ToUrl(Base64.BASE64_CHARSET[i])
    {
      if i < 62 {
        assert Base64.BASE64_CHARSET[i] as int == UrlCode(i);
      }
    }
  }

  /** Every URL-safe encoding is the standard encoding of the same bytes with
      `+` and `/` replaced by `-` and `_`, padded or not. */
  lemma Translate(s: seq<byte>, padding: bool)
    ensures Encode(BASE64URL_CHARSET, s, padding) == ToUrlText(Encode(Base64.BASE64_CHARSET, s, padding))
  {
    CharsetTranslate();
    CharsetCodes();
    Base64.CharsetCodes();
  }

  // ---------------------------------------------------------------------------
  // Encoder and decoder

  /** `base64url_encode`: the shared accumulator loop over the URL-safe
      alphabet (the source reserves no capacity here). */
  method Base64UrlEncode(input: seq<byte>, padding: bool) returns (output: seq<char8>)
    ensures output == Encode(BASE64URL_CHARSET, input, padding)
    ensures |output| == if padding then 4 * ((|input| + 2) / 3) else UnpaddedLength(|input|)
  {
    CharsetCodes();
    output := EncodeWith(BASE64URL_CHARSET, input, padding);
    EncodeLength(BASE64URL_CHARSET, input);
  }

  /** The output is safe in URLs and file names: no `+` and no `/`; every
      character is in the alphabet or one of at most two trailing `=`, and
      there is no `=` at all without padding. */
  lemma EncodeCharacters(s: seq<byte>, padding: bool)
    ensures var out, body := Encode(BASE64URL_CHARSET, s, padding), Encode(BASE64URL_CHARSET, s, false);
            |body| <= |out| <= |body| + 2
            && (forall j :: 0 <= j < |body| ==> out[j] in BASE64URL_CHARSET)
            && (forall j :: |body| <= j < |out| ==> out[j] == PAD)
            && '+' !in out && '/' !in out
            && (!padding ==> PAD !in out)
  {
    CharsetValid();
    CharsetTable();
    EncodeLength(BASE64URL_CHARSET, s);
    EncodeAlphabet(BASE64URL_CHARSET, s);
  }

  /** `base64url_decode`: the inverse table, then the shared decoding loop. */
  method Base64UrlDecode(input: seq<char8>) returns (output: seq<byte>)
    ensures output == Decode(BASE64URL_CHARSET, input)
  {
    CharsetCodes();
    var charsetMap := BuildCharsetMap(BASE64URL_CHARSET);
    output := DecodeWith(BASE64URL_CHARSET, charsetMap, input);
  }

  /** The URL-safe decoder inverts the URL-safe encoder, with or without
      padding, for every byte string. */
  lemma RoundTrip(s: seq<byte>, padding: bool)
    ensures Decode(BASE64URL_CHARSET, Encode(BASE64URL_CHARSET, s, padding)) == s
  {
    CharsetValid();
    EncodeRoundTrip(BASE64URL_CHARSET, s, padding);
  }

  /** The standard alphabet's `+` and `/` are not in this alphabet, so the
      URL-safe decoder skips them wherever they occur. */
  lemma SkipsStandardSymbols(p: seq<char8>, r: seq<char8>)
    ensures Decode(BASE64URL_CHARSET, p + ['+'] + r) == Decode(BASE64URL_CHARSET, p + r)
    ensures Decode(BASE64URL_CHARSET, p + ['/'] + r) == Decode(BASE64URL_CHARSET, p + r)
  {
    CharsetTable();
    DecodeSkipsForeign(BASE64URL_CHARSET, p, '+', r);
    DecodeSkipsForeign(BASE64URL_CHARSET, p, '/', r);
  }

  /** Standard-alphabet text with `+` and `/` replaced decodes, under the
      URL-safe alphabet, to what the original decodes to under the standard
      one, as long as it holds no `-` or `_` of its own. */
  lemma DecodeTranslated(t: seq<char8>)
    requires '-' !in t && '_' !in t
    ensures Decode(BASE64URL_CHARSET, ToUrlText(t)) == Decode(Base64.BASE64_CHARSET, t)
  {
    var u := ToUrlText(t);
    var k := FirstPad(t);
    assert PAD !in u[..k] by {
      assert forall j :: 0 <= j < k ==> t[..k][j] != PAD;
    }
    FirstPadAt(u, k);
    assert u[..k] == ToUrlText(t[..k]);
    TranslatedSymbols(t[..k]);
  }

  /** Both alphabets have 64 characters, the precondition of `Symbols`. */
  lemma CharsetSizes()
    ensures |BASE64URL_CHARSET| == 64 && |Base64.BASE64_CHARSET| == 64
  {
  }

  /** A character other than `-` and `_` has, after ToUrl, the same value in
      the URL-safe alphabet that it has in the standard one. */
  lemma SameSymbol(c: char8)
    requires c != '-' && c != '_'
    ensures SymbolOf(BASE64URL_CHARSET, ToUrl(c) as int) == SymbolOf(Base64.BASE64_CHARSET, c as int)
  {
    CharsetTable();
    Base64.CharsetTable();
  }

  lemma {:induction false} TranslatedSymbols(t: seq<char8>)
    requires '-' !in t && '_' !in t
    ensures Symbols(BASE64URL_CHARSET, ToUrlText(t)) == Symbols(Base64.BASE64_CHARSET, t)
    decreases |t|
  {
    CharsetSizes();
    if |t| > 0 {
      var t', c := t[..|t| - 1], t[|t| - 1];
      assert '-' !in t' && '_' !in t' by {
        assert forall j :: 0 <= j < |t'| ==> t'[j] == t[j];
      }
      TranslatedSymbols(t');
      LastSymbol(BASE64URL_CHARSET, ToUrlText(t));
      LastSymbol(Base64.BASE64_CHARSET, t);
      assert ToUrlText(t)[..|t| - 1] == ToUrlText(t');
      SameSymbol(c);
    }
  }

  // ---------------------------------------------------------------------------
  // Test vectors

  /** "Man" encodes to "TWFu", as in the standard alphabet. */
  lemma EncodeMan()
    ensures Encode(BASE64URL_CHARSET, Octets("Man"), true) == "TWFu"
  {
    Base64.EncodeMan();
    Translate(Octets("Man"), true);
    assert ToUrlText("TWFu") == "TWFu";
  }

  /** "Ma" encodes to "TWE=", as in the standard alphabet. */
  lemma EncodeMa()
    ensures Encode(BASE64URL_CHARSET, Octets("Ma"), true) == "TWE="
  {
    Base64.EncodeMa();
    Translate(Octets("Ma"), true);
    assert ToUrlText("TWE=") == "TWE=";
  }

  /** "M" encodes to "TQ==", as in the standard alphabet. */
  lemma EncodeM()
    ensures Encode(BASE64URL_CHARSET, Octets("M"), true) == "TQ=="
  {
    Base64.EncodeM();
    Translate(Octets("M"), true);
    assert ToUrlText("TQ==") == "TQ==";
  }

  /** "AAA" encodes to "QUFB". */
  lemma EncodeAAA()
    ensures Encode(BASE64URL_CHARSET, Octets("AAA"), true) == "QUFB"
  {
    Base64.EncodeAAA();
    Translate(Octets("AAA"), true);
    assert ToUrlText("QUFB") == "QUFB";
  }

  /** "AA" encodes to "QUE=". */
  lemma EncodeAA()
    ensures Encode(BASE64URL_CHARSET, Octets("AA"), true) == "QUE="
  {
    Base64.EncodeAA();
    Translate(Octets("AA"), true);
    assert ToUrlText("QUE=") == "QUE=";
  }

  /** "A" encodes to "QQ==". */
  lemma EncodeA()
    ensures Encode(BASE64URL_CHARSET, Octets("A"), true) == "QQ=="
  {
    Base64.EncodeA();
    Translate(Octets("A"), true);
    assert ToUrlText("QQ==") == "QQ==";
  }

  /** The empty string encodes to the empty string. */
  lemma EncodeEmpty()
    ensures Encode(BASE64URL_CHARSET, [], true) == []
  {
    assert Padding(0) == [];
  }

  /** The padded encodings above decode back to their inputs. */
  lemma DecodeVectors()
    ensures Decode(BASE64URL_CHARSET, "TWFu") == Octets("Man")
    ensures Decode(BASE64URL_CHARSET, "TWE=") == Octets("Ma")
    ensures Decode(BASE64URL_CHARSET, "TQ==") == Octets("M")
  {
    EncodeMan();
    EncodeMa();
    EncodeM();
    RoundTrip(Octets("Man"), true);
    RoundTrip(Octets("Ma"), true);
    RoundTrip(Octets("M"), true);
  }

  /** The empty string decodes to the empty string. */
  lemma DecodeEmpty()
    ensures Decode(BASE64URL_CHARSET, []) == []
  {
    assert FirstPad([]) == 0;
  }

  /** "!@#$%^&*()" has no alphabet character and decodes to nothing. */
  lemma DecodeInvalid()
    ensures Decode(BASE64URL_CHARSET, "!@#$%^&*()") == []
  {
    CharsetTable();
    DecodeForeignOnly(BASE64URL_CHARSET, "!@#$%^&*()");
  }

  /** "TWE===" has one `=` too many and decodes like "TWE=", to "Ma". */
  lemma DecodeExtraPadding()
    ensures Decode(BASE64URL_CHARSET, "TWE===") == Octets("Ma")
  {
    DecodeVectors();
    ExtraPaddingSplit();
    DecodeStopsAtPad(BASE64URL_CHARSET, "TWE", "==");
    DecodeStopsAtPad(BASE64URL_CHARSET, "TWE", []);
  }
}
