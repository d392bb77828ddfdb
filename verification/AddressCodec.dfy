/** Addresses: bytes regrouped to five bits and written in Bech32
    (internal/helper/sdk/keys_parse.go, lines 14-37; internal/helper/sdk/bech32.go, lines 379-405). */
module AddressCodec {
  import opened Bech32Checksum
  import opened Bech32Codec
  import opened BitGroups

  const ADDRESS_LIMIT := 1023

  function ConvertAndEncode(hrp: string, data: Bytes): Result<string> {
    match ConvertBits(data, 8, 5, true)
    case Err(e) => Err(e)
    case Ok(converted) => Encode(hrp, converted)
  }

  /** Shared by DecodeAndConvert and DecodeToBase256, which differ in the limit only. */
  function DecodeWithin(bech: string, limit: int): Result<(string, Bytes)> {
    match Decode(bech, limit)
    case Err(e) => Err(e)
    case Ok((hrp, data)) =>
      match ConvertBits(data, 5, 8, false)
      case Err(e) => Err(e)
      case Ok(converted) => Ok((hrp, converted))
  }

  function DecodeAndConvert(bech: string): Result<(string, Bytes)> {
    DecodeWithin(bech, ADDRESS_LIMIT)
  }

  function DecodeToBase256(bech: string): Result<(string, Bytes)> {
    DecodeWithin(bech, MAX_LENGTH_BIP173)
  }

  lemma AllFitFive(vs: Bytes)
    ensures AllFit(vs, 5) <==> FiveBit(vs)
  {
  }

  lemma AllFitEight(vs: Bytes)
    ensures AllFit(vs, 8)
  {
  }

  /** Every byte string has a five-bit form, of the rounded-up length, that converts back. */
  lemma FiveBitForm(data: Bytes)
    ensures var r := ConvertBits(data, 8, 5, true);
            && r.Ok? && FiveBit(r.value) && |r.value| == (8 * |data| + 4) / 5
            && ConvertBits(r.value, 5, 8, false) == Ok(data)
  {
    hide Fits, Five, ConvertBits, Stream;
    AllFitEight(data);
    ConvertBitsKeepsStream(data, 8, 5, true);
    PadThenUnpad(data, 8, 5);
    AllFitFive(ConvertBits(data, 8, 5, true).value);
  }

  /** Encoding never fails, and decoding the result gives back the lowercased prefix and the same
      bytes exactly when the prefix is non-empty and printable and the string is within the limit. */
  lemma AddressRoundTrip(hrp: string, data: Bytes, limit: int)
    ensures var r := ConvertAndEncode(hrp, data);
            && r.Ok? && |r.value| == |hrp| + 7 + (8 * |data| + 4) / 5
            && (DecodeWithin(r.value, limit) == Ok((ToLower(hrp), data))
                <==> hrp != "" && AllPrintable(hrp) && |r.value| <= limit)
            && (|r.value| > limit ==> DecodeWithin(r.value, limit) == Err(InvalidLength(|r.value|)))
  {
    hide Five, ConvertBits, Checksum, DecodeNoLimit;
    FiveBitForm(data);
    var five := ConvertBits(data, 8, 5, true).value;
    var s := ConvertAndEncode(hrp, data).value;
    ToLowerFixed(hrp);
    if hrp != "" && AllPrintable(hrp) {
      DecodeOfEncode(hrp, five);
    } else if DecodeNoLimit(s).Ok? {
      AcceptedIsCanonical(s);
    }
  }

  /** The two entry points, with their own limits. */
  lemma EntryPointsRoundTrip(hrp: string, data: Bytes)
    requires hrp != "" && AllPrintable(hrp) && !HasUpper(hrp)
    ensures var r := ConvertAndEncode(hrp, data);
            && r.Ok?
            && (|r.value| <= 1023 <==> DecodeAndConvert(r.value) == Ok((hrp, data)))
            && (|r.value| <= 90 <==> DecodeToBase256(r.value) == Ok((hrp, data)))
  {
    hide ConvertAndEncode, DecodeWithin;
    ToLowerFixed(hrp);
    AddressRoundTrip(hrp, data, ADDRESS_LIMIT);
    AddressRoundTrip(hrp, data, MAX_LENGTH_BIP173);
  }

  /** Two accepted spellings of one address differ in case only: re-encoding what was accepted
      gives the string in lower case, so no two lower-case strings decode alike. */
  lemma AddressIsCanonical(bech: string, limit: int)
    requires DecodeWithin(bech, limit).Ok?
    ensures var (hrp, data) := DecodeWithin(bech, limit).value;
            ConvertAndEncode(hrp, data) == Ok(ToLower(bech))
  {
    hide Five, ConvertBits, Checksum, DecodeNoLimit, Encode;
    AcceptedIsCanonical(bech);
    var (hrp, five) := DecodeNoLimit(bech).value;
    AllFitFive(five);
    DroppedTail(five);
    UnpadThenPad(five, 5, 8);
  }

  lemma DroppedTail(five: Bytes)
    requires ConvertBits(five, 5, 8, false).Ok?
    ensures (|five| * 5) % 8 < 5
  {
  }
}
