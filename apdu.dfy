/** The ISO/IEC 7816-4 frames both readers share: the header of SELECT by
    name, and the response, a payload followed by a two-byte status word
    (section 5.1.3 of ISO/IEC 7816-4). */
module Apdu {
  import opened Hex
  import opened HexLaws
  import opened Outcomes

  /** The header of SELECT by name: CLASS 00 | INSTRUCTION A4 |
      PARAMETER 1 04 | PARAMETER 2 00 (SELECT_APDU_HEADER). */
  const SelectApduHeader: string := "00A40400"

  /** The header text of a SELECT command with length field lc. */
  function SelectHeader(lc: Byte): (h: string)
    ensures |h| == 10 && IsHexString(h)
  {
    assert IsHexString(SelectApduHeader);
    HexAppend(SelectApduHeader, Format02X(lc));
    SelectApduHeader + Format02X(lc)
  }

  /** The header text with its length field decodes to five bytes. */
  lemma SelectHeaderBytes(lc: Byte)
    ensures FromHex(SelectHeader(lc)) == [0x00, 0xA4, 0x04, 0x00, lc]
  {
    var digits := Format02X(lc);
    assert IsHexString(SelectApduHeader);
    DecodeLiteral(SelectApduHeader, [0x00, 0xA4, 0x04, 0x00]);
    DecodeLiteral(digits, [lc]);
    FromHexAppend(SelectApduHeader, digits);
  }

  /** The command text header + aid has the parity of the AID: an odd AID
      makes the whole text odd, an even one keeps it even. */
  lemma ParityAfterHeader(lc: Byte, aid: string)
    ensures |SelectHeader(lc) + aid| % 2 == |aid| % 2
  {
    assert |SelectHeader(lc) + aid| == 10 + |aid|;
  }

  /** The "OK" status word 90 00 (SELECT_OK_SW, SELECT_OK). */
  const StatusOk: seq<Byte> := [0x90, 0x00]

  datatype Response = Response(payload: seq<Byte>, statusWord: seq<Byte>)

  /** statusWord = {result[len - 2], result[len - 1]} and
      payload = Arrays.copyOf(result, len - 2). A response shorter than two
      bytes makes the first index negative. */
  function SplitResponse(result: seq<Byte>): (r: Outcome<Response>)
    ensures r.Threw? <==> |result| < 2
    ensures r.Threw? ==> r.exception == ArrayIndexOutOfBounds
    ensures r.Returned? ==> |r.value.statusWord| == 2
    ensures r.Returned? ==> r.value.payload + r.value.statusWord == result
  {
    if |result| < 2 then Threw(ArrayIndexOutOfBounds)
    else
      var n := |result|;
      Returned(Response(result[..n - 2], [result[n - 2], result[n - 1]]))
  }

  /** Arrays.equals(SELECT_OK_SW, statusWord). */
  predicate IsOk(statusWord: seq<Byte>) {
    statusWord == StatusOk
  }

  /** Splitting is the inverse of appending a status word to a payload. */
  lemma SplitResponseOfFrame(payload: seq<Byte>, statusWord: seq<Byte>)
    requires |statusWord| == 2
    ensures SplitResponse(payload + statusWord) == Returned(Response(payload, statusWord))
  {
    var r := payload + statusWord;
    assert r[..|r| - 2] == payload;
  }

  /** Three sample responses: a payload followed by 90 00, a bare error status
      word, and a one-byte response. */
  lemma SplitResponseExamples()
    ensures SplitResponse([0x01, 0x02, 0x90, 0x00]) == Returned(Response([0x01, 0x02], StatusOk))
    ensures SplitResponse([0x6A, 0x82]) == Returned(Response([], [0x6A, 0x82]))
    ensures !IsOk([0x6A, 0x82])
    ensures SplitResponse([0x00]) == Threw(ArrayIndexOutOfBounds)
  {
    assert [0x01, 0x02, 0x90, 0x00] == [0x01, 0x02] + StatusOk;
    SplitResponseOfFrame([0x01, 0x02], StatusOk);
    SplitResponseOfFrame([], [0x6A, 0x82]);
  }
}
