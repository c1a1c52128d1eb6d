/** Credential formats and the hexadecimal encoding used for digests. */
module Token {
  import opened Prelude

  const TOKEN_PREFIX := "nxs_node_"
  const CMD_TOKEN_PREFIX := "nxs_cmd_"

  predicate ValidateTokenFormat(token: string) {
    TOKEN_PREFIX <= token && |token| > |TOKEN_PREFIX|
  }

  predicate ValidateCmdTokenFormat(token: string) {
    CMD_TOKEN_PREFIX <= token && |token| > |CMD_TOKEN_PREFIX|
  }

  // ----- hexadecimal -----

  type Byte = b: int | 0 <= b < 256

  const HEX_DIGITS := "0123456789abcdef"

  /** `{:02x}` for every byte, concatenated. */
  function HexEncode(bytes: seq<Byte>): (s: string)
    ensures |s| == 2 * |bytes|
    ensures forall c | c in s :: c in HEX_DIGITS
  {
    if bytes == [] then ""
    else [HEX_DIGITS[bytes[0] / 16], HEX_DIGITS[bytes[0] % 16]] + HexEncode(bytes[1..])
  }

  /** The digit's value; the decoder also accepts upper case. */
  function HexValue(c: char): (v: Option<nat>)
    ensures v.Some? ==> v.value < 16
  {
    if '0' <= c <= '9' then Some(c as int - '0' as int)
    else if 'a' <= c <= 'f' then Some(c as int - 'a' as int + 10)
    else if 'A' <= c <= 'F' then Some(c as int - 'A' as int + 10)
    else None
  }

  function HexDecode(s: string): (bytes: Option<seq<Byte>>)
    ensures bytes.Some? ==> |s| == 2 * |bytes.value|
  {
    if s == "" then Some([])
    else if |s| == 1 then None
    else
      match (HexValue(s[0]), HexValue(s[1]), HexDecode(s[2..]))
      case (Some(hi), Some(lo), Some(rest)) => Some([hi * 16 + lo] + rest)
      case _ => None
  }

  lemma HexDigitValue(v: nat)
    requires v < 16
    ensures HexValue(HEX_DIGITS[v]) == Some(v)
  {
    if v < 8 {
      assert v in {0, 1, 2, 3, 4, 5, 6, 7};
    } else {
      assert v in {8, 9, 10, 11, 12, 13, 14, 15};
    }
  }

  lemma HexDecodePair(hi: nat, lo: nat, rest: string)
    requires hi < 16 && lo < 16
    ensures HexDecode([HEX_DIGITS[hi], HEX_DIGITS[lo]] + rest) ==
              match HexDecode(rest)
              case Some(bytes) => Some([hi * 16 + lo] + bytes)
              case None => None
  {
    HexDigitValue(hi);
    HexDigitValue(lo);
    assert ([HEX_DIGITS[hi], HEX_DIGITS[lo]] + rest)[2..] == rest;
  }

  lemma HeadAndTail(bytes: seq<Byte>)
    requires bytes != []
    ensures [bytes[0] / 16 * 16 + bytes[0] % 16] + bytes[1..] == bytes
  {}

  lemma {:induction false} HexRoundTrip(bytes: seq<Byte>)
    ensures HexDecode(HexEncode(bytes)) == Some(bytes)
  {
    if bytes != [] {
      HexRoundTrip(bytes[1..]);
      HexDecodePair(bytes[0] / 16, bytes[0] % 16, HexEncode(bytes[1..]));
      HeadAndTail(bytes);
    }
  }

  /** Two digests with the same hexadecimal text are the same bytes. */
  lemma HexInjective(a: seq<Byte>, b: seq<Byte>)
    requires HexEncode(a) == HexEncode(b)
    ensures a == b
  {
    HexRoundTrip(a);
    HexRoundTrip(b);
  }

  /** Lower case, the high digit first. */
  lemma HexText(b: Byte)
    ensures var text := HexEncode([b]);
            && |text| == 2 && (forall c | c in text :: '0' <= c <= '9' || 'a' <= c <= 'f')
            && HexValue(text[0]) == Some(b / 16) && HexValue(text[1]) == Some(b % 16)
    ensures HexEncode([31]) == "1f"
  {
    HexDigitValue(b / 16);
    HexDigitValue(b % 16);
    assert HexEncode([b]) == [HEX_DIGITS[b / 16], HEX_DIGITS[b % 16]] + HexEncode([]);
    assert HexEncode([31]) == [HEX_DIGITS[1], HEX_DIGITS[15]] + HexEncode([]);
  }

  /** Hexadecimal is decoded in either case, an even number of digits and nothing else. */
  lemma {:induction false} HexDecodableIff(s: string)
    ensures HexDecode(s).Some? <==>
              |s| % 2 == 0 && forall i | 0 <= i < |s| :: '0' <= s[i] <= '9' || 'a' <= s[i] <= 'f' || 'A' <= s[i] <= 'F'
  {
    if |s| > 1 {
      HexDecodableIff(s[2..]);
      assert forall i | 2 <= i < |s| :: s[i] == s[2..][i - 2];
    }
  }

  /** The value of a digit in either case. */
  lemma HexEitherCase(d: nat)
    requires d < 16
    ensures HexValue("0123456789abcdef"[d]) == HexValue("0123456789ABCDEF"[d]) == Some(d)
  {
    HexDigitValue(d);
    if d < 8 {
      assert d in {0, 1, 2, 3, 4, 5, 6, 7};
    } else {
      assert d in {8, 9, 10, 11, 12, 13, 14, 15};
    }
  }

  /** The two token formats. */
  lemma TokenFormats(token: string)
    ensures ValidateTokenFormat(token) <==> "nxs_node_" < token
    ensures ValidateCmdTokenFormat(token) <==> "nxs_cmd_" < token
  {}
}
