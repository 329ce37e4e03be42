/** The byte-level part of the nfcreader application (MainActivity.java):
    its own hex helpers, its SELECT command, and what the activity shows for
    the card's response. */
module NfcReader {
  import opened Hex
  import opened HexLaws
  import opened Outcomes
  import opened Apdu
  import LoyaltyCardReader

  /** The AID this reader selects. */
  const SampleLoyaltyCardAid: string := "F222222222"

  /** The decoded form of a hex text as stringToBytes computes it: an odd
      length is refused with an IllegalArgumentException before any
      decoding. */
  function HexToBytes(s: string): Outcome<seq<Byte>>
    requires IsHexString(s)
  {
    if |s| % 2 == 1 then Threw(IllegalArgument) else Returned(FromHex(s))
  }

  /** stringToBytes: the odd-length check, then the stepped loop that fills
      data[i / 2] from characters i and i + 1. */
  method StringToBytes(s: string) returns (r: Outcome<array<Byte>>)
    requires IsHexString(s)
    ensures r.Threw? ==> HexToBytes(s) == Threw(r.exception)
    ensures r.Returned? ==> HexToBytes(s) == Returned(r.value[..])
    ensures r.Returned? ==> fresh(r.value)
  {
    var len := |s|;
    if len % 2 == 1 {
      return Threw(IllegalArgument);
    }
    var data := new Byte[len / 2];
    var i := 0;
    while i < len
      invariant 0 <= i <= len && i % 2 == 0
      invariant forall k :: 0 <= k < i / 2 ==>
                  data[k] == 16 * DigitValue(s[2 * k]) + DigitValue(s[2 * k + 1])
    {
      data[i / 2] := 16 * DigitValue(s[i]) + DigitValue(s[i + 1]);
      i := i + 2;
    }
    DecodeLiteral(s, data[..]);
    r := Returned(data);
  }

  /** stringToBytes(bytesToString(b)) == b for every byte array. */
  lemma StringRoundTrip(data: seq<Byte>)
    ensures IsHexString(ToHex(data))
    ensures HexToBytes(ToHex(data)) == Returned(data)
  {
    HexRoundTrip(data);
  }

  /** SELECT_OK = stringToBytes("9000") is the status word 90 00. */
  lemma SelectOkDecoded()
    ensures IsHexString("9000")
    ensures HexToBytes("9000") == Returned(StatusOk)
  {
    DecodeLiteral("9000", StatusOk);
  }

  /** bytesToString: String.format("%02X", d) of each byte appended to a
      StringBuilder. */
  method BytesToString(data: array<Byte>) returns (s: string)
    ensures s == ToHex(data[..])
  {
    s := "";
    for i := 0 to data.Length
      invariant s == ToHex(data[..i])
    {
      s := s + Format02X(data[i]);
      assert data[..i + 1][..i] == data[..i];
    }
    assert data[..data.Length] == data[..];
  }

  /** buildSelectApdu: the SELECT header, %02X of half the AID's length (at
      most 255, so that it takes two digits) and the AID, decoded by
      stringToBytes. */
  function BuildSelectApdu(aid: string): Outcome<seq<Byte>>
    requires IsHexString(aid) && |aid| / 2 < 256
  {
    var header := SelectHeader(|aid| / 2);
    HexAppend(header, aid);
    HexToBytes(header + aid)
  }

  /** Both readers send the same SELECT command for an AID of even length;
      for an odd one this reader refuses the text where the other reads
      past its end. */
  lemma SelectApduAgrees(aid: string)
    requires IsHexString(aid) && |aid| / 2 < 256
    ensures |aid| % 2 == 0 ==> BuildSelectApdu(aid) == LoyaltyCardReader.BuildSelectApdu(aid)
    ensures |aid| % 2 == 1 ==> BuildSelectApdu(aid) == Threw(IllegalArgument)
    ensures |aid| % 2 == 1 ==> LoyaltyCardReader.BuildSelectApdu(aid) == Threw(StringIndexOutOfBounds)
  {
    ParityAfterHeader(|aid| / 2, aid);
    if |aid| % 2 == 1 {
      LoyaltyCardReader.SelectApduOdd(aid);
    }
  }

  /** The sample AID gives 00 A4 04 00 05 F2 22 22 22 22 here too. */
  lemma SampleSelectApdu()
    ensures IsHexString(SampleLoyaltyCardAid)
    ensures BuildSelectApdu(SampleLoyaltyCardAid)
            == Returned([0x00, 0xA4, 0x04, 0x00, 0x05, 0xF2, 0x22, 0x22, 0x22, 0x22])
  {
    assert IsHexString(SampleLoyaltyCardAid);
    SelectApduAgrees(SampleLoyaltyCardAid);
    LoyaltyCardReader.SampleSelectApdu();
  }

  /** What onNewIntent puts on the screen. */
  datatype Shown =
    | Account(utf8: seq<Byte>)  // the payload, decoded as UTF-8
    | ErrorInfo(hex: string)    // bytesToString of the whole response

  /** onNewIntent's check of the response: the payload when the status word
      is 90 00, the hex text of the whole response otherwise; a response
      shorter than a status word raises an exception the handler does not
      catch. */
  function ResponseText(result: seq<Byte>): (r: Outcome<Shown>)
    ensures r.Threw? <==> |result| < 2
    ensures r.Threw? ==> r.exception == ArrayIndexOutOfBounds
    ensures r.Returned? && r.value.Account? ==> r.value.utf8 + StatusOk == result
    ensures r.Returned? && r.value.ErrorInfo? ==> !IsOk(result[|result| - 2..])
  {
    match SplitResponse(result)
    case Threw(e) => Threw(e)
    case Returned(response) =>
      if IsOk(response.statusWord) then Returned(Account(response.payload))
      else Returned(ErrorInfo(ToHex(result)))
  }

  /** A payload with status word 90 00 is shown as the account; any other
      status word shows the response in hex. */
  lemma ResponseTextOfFrame(payload: seq<Byte>, statusWord: seq<Byte>)
    requires |statusWord| == 2
    ensures ResponseText(payload + statusWord)
            == Returned(if IsOk(statusWord) then Account(payload) else ErrorInfo(ToHex(payload + statusWord)))
  {
    SplitResponseOfFrame(payload, statusWord);
  }

  /** The error text shown is upper-case hex that stringToBytes turns back
      into the response. */
  lemma ErrorInfoDecodes(result: seq<Byte>)
    requires ResponseText(result).Returned? && ResponseText(result).value.ErrorInfo?
    ensures IsHexString(ResponseText(result).value.hex)
    ensures HexToBytes(ResponseText(result).value.hex) == Returned(result)
  {
    HexRoundTrip(result);
  }
}
