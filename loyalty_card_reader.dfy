/** The codec of the CardReader sample (LoyaltyCardReader.java): hex
    conversion over arrays, the fixed ISO/IEC 7816-4 command frames, the
    concatenation that builds the WRITE command, and what the three exchanges
    make of a response. */
module LoyaltyCardReader {
  import opened Hex
  import opened HexLaws
  import opened Outcomes
  import opened Apdu

  /** AID of the loyalty card service. */
  const SampleLoyaltyCardAid: string := "F222222222"
  /** Command headers: CLASS | INSTRUCTION | PARAMETER 1 | PARAMETER 2. */
  const GetDataApduHeader: string := "00CA0000"
  const WriteDataApduHeader: string := "00DA0000"
  const ReadDataApduHeader: string := "00EA0000"

  /** The byte array to hex text loop: characters 2j and 2j+1 come from the
      digit table at the high and the low nibble of byte j. */
  method ByteArrayToHexString(bytes: array<Byte>) returns (s: string)
    ensures s == ToHex(bytes[..])
  {
    var hexChars := new char[bytes.Length * 2];
    for j := 0 to bytes.Length
      invariant forall k :: 0 <= k < j ==>
                  hexChars[2 * k] == HexDigit(bytes[k] / 16) && hexChars[2 * k + 1] == HexDigit(bytes[k] % 16)
    {
      var v := bytes[j];
      HexDigitsTable(v / 16);
      HexDigitsTable(v % 16);
      hexChars[j * 2] := HexDigits[v / 16];
      hexChars[j * 2 + 1] := HexDigits[v % 16];
    }
    s := hexChars[..];
    forall k | 0 <= k < |s| / 2
      ensures s[2 * k] == ToHex(bytes[..])[2 * k] && s[2 * k + 1] == ToHex(bytes[..])[2 * k + 1]
    {
      ToHexAt(bytes[..], k);
    }
    PairwiseEqual(s, ToHex(bytes[..]));
  }

  /** The decoded form of a hex text as HexStringToByteArray computes it:
      an odd length makes the last charAt(i + 1) read past the end. */
  function HexStringToBytes(s: string): Outcome<seq<Byte>>
    requires IsHexString(s)
  {
    if |s| % 2 == 1 then Threw(StringIndexOutOfBounds) else Returned(FromHex(s))
  }

  /** Decoding what ByteArrayToHexString wrote gives the bytes back, the
      empty array included. */
  lemma HexStringRoundTrip(bytes: seq<Byte>)
    ensures IsHexString(ToHex(bytes))
    ensures HexStringToBytes(ToHex(bytes)) == Returned(bytes)
  {
    HexRoundTrip(bytes);
  }

  /** Character.digit reads both cases: "0aFf" decodes to 0A FF, and the
      odd "ABC" reads past its end. */
  lemma HexStringToBytesExamples()
    ensures IsHexString("0aFf") && HexStringToBytes("0aFf") == Returned([0x0A, 0xFF])
    ensures IsHexString("ABC") && HexStringToBytes("ABC") == Threw(StringIndexOutOfBounds)
  {
    DecodeLiteral("0aFf", [0x0A, 0xFF]);
  }

  /** The stepped loop that fills data[i / 2] from characters i and i + 1.
      Non-hex characters are outside its documented behaviour. */
  method HexStringToByteArray(s: string) returns (r: Outcome<array<Byte>>)
    requires IsHexString(s)
    ensures r.Threw? ==> HexStringToBytes(s) == Threw(r.exception)
    ensures r.Returned? ==> HexStringToBytes(s) == Returned(r.value[..])
    ensures r.Returned? ==> fresh(r.value)
  {
    var len := |s|;
    var data := new Byte[len / 2];
    var i := 0;
    while i < len
      invariant 0 <= i <= len && i % 2 == 0
      invariant forall k :: 0 <= k < i / 2 ==>
                  data[k] == 16 * DigitValue(s[2 * k]) + DigitValue(s[2 * k + 1])
    {
      if i + 1 >= len {
        return Threw(StringIndexOutOfBounds);
      }
      data[i / 2] := 16 * DigitValue(s[i]) + DigitValue(s[i + 1]);
      i := i + 2;
    }
    forall k | 0 <= k < len / 2 ensures data[k] == FromHex(s)[k] {
      FromHexAt(s, k);
    }
    assert data[..] == FromHex(s);
    r := Returned(data);
  }

  /** CLASS | INSTRUCTION | PARAMETER 1 | PARAMETER 2 | LENGTH | DATA for
      SELECT by name, with the length written as %02X of half the AID's
      length (at most 255, so that it takes two digits). */
  function BuildSelectApdu(aid: string): Outcome<seq<Byte>>
    requires IsHexString(aid) && |aid| / 2 < 256
  {
    var header := SelectHeader(|aid| / 2);
    HexAppend(header, aid);
    HexStringToBytes(header + aid)
  }

  /** An AID of odd length makes the whole command text odd, and the
      decoder throws when it reads past the end. */
  lemma SelectApduOdd(aid: string)
    requires IsHexString(aid) && |aid| / 2 < 256 && |aid| % 2 == 1
    ensures BuildSelectApdu(aid) == Threw(StringIndexOutOfBounds)
  {
    ParityAfterHeader(|aid| / 2, aid);
  }

  /** The SELECT command for an AID of even length 2 * lc is the header
      00 A4 04 00, the length byte lc and the AID's bytes. */
  lemma SelectApduEven(aid: string, lc: Byte)
    requires IsHexString(aid) && |aid| == 2 * lc
    ensures BuildSelectApdu(aid) == Returned([0x00, 0xA4, 0x04, 0x00, lc] + FromHex(aid))
  {
    assert |aid| / 2 == lc;
    DecodeConcat(SelectHeader(lc), aid);
    SelectHeaderBytes(lc);
  }

  /** Two even hex texts decode, one after the other, to their bytes. */
  lemma DecodeConcat(a: string, b: string)
    requires |a| % 2 == 0 && IsHexString(a)
    requires |b| % 2 == 0 && IsHexString(b)
    ensures IsHexString(a + b)
    ensures HexStringToBytes(a + b) == Returned(FromHex(a) + FromHex(b))
  {
    FromHexAppend(a, b);
  }

  /** The sample AID F222222222 gives 00 A4 04 00 05 F2 22 22 22 22. */
  lemma SampleSelectApdu()
    ensures BuildSelectApdu(SampleLoyaltyCardAid)
            == Returned([0x00, 0xA4, 0x04, 0x00, 0x05, 0xF2, 0x22, 0x22, 0x22, 0x22])
  {
    assert IsHexString(SampleLoyaltyCardAid);
    SelectApduEven(SampleLoyaltyCardAid, 5);
    DecodeLiteral(SampleLoyaltyCardAid, [0xF2, 0x22, 0x22, 0x22, 0x22]);
    assert [0x00, 0xA4, 0x04, 0x00, 0x05] + [0xF2, 0x22, 0x22, 0x22, 0x22]
        == [0x00, 0xA4, 0x04, 0x00, 0x05, 0xF2, 0x22, 0x22, 0x22, 0x22];
  }

  /** GET DATA: header 00 CA 00 00 followed by 0F FF. */
  function BuildGetDataApdu(): (r: seq<Byte>)
    ensures r == [0x00, 0xCA, 0x00, 0x00, 0x0F, 0xFF]
  {
    var text := GetDataApduHeader + "0FFF";
    DecodeLiteral(text, [0x00, 0xCA, 0x00, 0x00, 0x0F, 0xFF]);
    FromHex(text)
  }

  /** WRITE DATA: header 00 DA 00 00 followed by 0F FF. */
  function BuildWriteDataApdu(): (r: seq<Byte>)
    ensures r == [0x00, 0xDA, 0x00, 0x00, 0x0F, 0xFF]
  {
    var text := WriteDataApduHeader + "0FFF";
    DecodeLiteral(text, [0x00, 0xDA, 0x00, 0x00, 0x0F, 0xFF]);
    FromHex(text)
  }

  /** READ DATA: header 00 EA 00 00 followed by 0F FF. */
  function BuildReadDataApdu(): (r: seq<Byte>)
    ensures r == [0x00, 0xEA, 0x00, 0x00, 0x0F, 0xFF]
  {
    var text := ReadDataApduHeader + "0FFF";
    DecodeLiteral(text, [0x00, 0xEA, 0x00, 0x00, 0x0F, 0xFF]);
    FromHex(text)
  }
  /** The bytes of the parts, one after the other. */
  function Concat(parts: seq<seq<Byte>>): seq<Byte> {
    if parts == [] then [] else Concat(parts[..|parts| - 1]) + parts[|parts| - 1]
  }

  /** The sum of the lengths of the parts. */
  function TotalLength(parts: seq<seq<Byte>>): nat {
    if parts == [] then 0 else TotalLength(parts[..|parts| - 1]) + |parts[|parts| - 1]|
  }

  /** The current contents of the arrays, in order. */
  function Contents(arrays: seq<array<Byte>>): (r: seq<seq<Byte>>)
    reads arrays
    ensures |r| == |arrays|
    ensures forall i :: 0 <= i < |arrays| ==> r[i] == arrays[i][..]
  {
    if arrays == [] then [] else Contents(arrays[..|arrays| - 1]) + [arrays[|arrays| - 1][..]]
  }

  /** The concatenation is as long as the parts together. */
  lemma {:induction false} ConcatLength(parts: seq<seq<Byte>>)
    ensures |Concat(parts)| == TotalLength(parts)
  {
    if parts != [] {
      ConcatLength(parts[..|parts| - 1]);
    }
  }

  /** Concatenation of two lists of parts is the concatenation of their
      concatenations. */
  lemma {:induction false} ConcatAppend(ps: seq<seq<Byte>>, qs: seq<seq<Byte>>)
    ensures Concat(ps + qs) == Concat(ps) + Concat(qs)
  {
    if qs == [] {
      assert ps + qs == ps;
    } else {
      var init := qs[..|qs| - 1];
      assert (ps + qs)[..|ps + qs| - 1] == ps + init;
      ConcatAppend(ps, init);
    }
  }

  /** Part i sits in the concatenation at the total length of the parts
      before it. */
  lemma ConcatAt(parts: seq<seq<Byte>>, i: int, k: int)
    requires 0 <= i < |parts| && 0 <= k < |parts[i]|
    ensures TotalLength(parts[..i]) + k < |Concat(parts)|
    ensures Concat(parts)[TotalLength(parts[..i]) + k] == parts[i][k]
  {
    assert parts == parts[..i] + [parts[i]] + parts[i + 1..];
    ConcatAppend(parts[..i] + [parts[i]], parts[i + 1..]);
    ConcatAppend(parts[..i], [parts[i]]);
    ConcatLength(parts[..i]);
    assert Concat([parts[i]]) == parts[i] by {
      var single := [parts[i]];
      assert single[..0] == [];
    }
  }

  /** A prefix of the parts is no longer than all of them. */
  lemma {:induction false} TotalLengthPrefix(parts: seq<seq<Byte>>, i: int)
    requires 0 <= i <= |parts|
    ensures TotalLength(parts[..i]) <= TotalLength(parts)
  {
    if i < |parts| {
      var init := parts[..|parts| - 1];
      assert parts[..i] == init[..i];
      TotalLengthPrefix(init, i);
    } else {
      assert parts[..i] == parts;
    }
  }

  /** One more part extends the concatenation and the total length by it. */
  lemma ConcatStep(parts: seq<seq<Byte>>, i: int)
    requires 0 <= i < |parts|
    ensures Concat(parts[..i + 1]) == Concat(parts[..i]) + parts[i]
    ensures TotalLength(parts[..i + 1]) == TotalLength(parts[..i]) + |parts[i]|
  {
    assert parts[..i + 1][..i] == parts[..i];
  }

  /** Arrays.copyOf(original, newLength): a new array of newLength bytes
      holding original's bytes, cut off or padded with zeros. */
  method CopyOf(original: array<Byte>, newLength: nat) returns (copy: array<Byte>)
    ensures fresh(copy) && copy.Length == newLength
    ensures forall k :: 0 <= k < newLength ==> copy[k] == if k < original.Length then original[k] else 0
  {
    copy := new Byte[newLength];
    forall k | 0 <= k < newLength {
      copy[k] := if k < original.Length then original[k] else 0;
    }
  }

  /** System.arraycopy(src, 0, dest, destPos, src.length) within the bounds
      of dest: the bytes of src replace those of dest from destPos on. */
  method ArrayCopy(src: array<Byte>, dest: array<Byte>, destPos: nat)
    requires destPos + src.Length <= dest.Length
    modifies dest
    ensures dest[..] == old(dest[..destPos]) + old(src[..]) + old(dest[destPos + src.Length..])
  {
    ghost var before := dest[..];
    ghost var moved := src[..];
    forall k | 0 <= k < src.Length {
      dest[destPos + k] := src[k];
    }
    assert dest[..] == before[..destPos] + moved + before[destPos + src.Length..];
  }

  /** The first two pieces of a three-piece sequence are its prefix. */
  lemma PrefixOfSplice(whole: seq<Byte>, a: seq<Byte>, m: seq<Byte>, b: seq<Byte>)
    requires whole == a + m + b
    ensures whole[..|a| + |m|] == a + m
  {
  }

  /** ConcatArrays(first, rest...): the total length first, then a copy of
      first padded to that length, then each array of rest copied in at the
      running offset (the second loop is CopyRest). */
  method ConcatArrays(first: array<Byte>, rest: seq<array<Byte>>) returns (result: array<Byte>)
    ensures fresh(result)
    ensures result[..] == first[..] + Concat(Contents(rest))
  {
    ghost var parts := Contents(rest);
    var totalLength := first.Length;
    for i := 0 to |rest|
      invariant totalLength == first.Length + TotalLength(parts[..i])
    {
      ConcatStep(parts, i);
      totalLength := totalLength + rest[i].Length;
    }
    assert parts[..|rest|] == parts;
    result := CopyOf(first, totalLength);
    assert result[..first.Length] == first[..];
    CopyRest(rest, result, first.Length);
  }

  /** The second loop of ConcatArrays: each array of rest copied into
      result at the running offset, which ends at the end of result. */
  method CopyRest(rest: seq<array<Byte>>, result: array<Byte>, start: nat)
    requires result !in rest
    requires start + TotalLength(Contents(rest)) == result.Length
    modifies result
    ensures result[..] == old(result[..start]) + Concat(old(Contents(rest)))
  {
    ghost var parts := Contents(rest);
    ghost var head := result[..start];
    var offset := start;
    for i := 0 to |rest|
      invariant offset == start + TotalLength(parts[..i]) <= result.Length
      invariant result[..offset] == head + Concat(parts[..i])
    {
      var part := rest[i];
      ConcatStep(parts, i);
      TotalLengthPrefix(parts, i + 1);
      ghost var before := result[..offset];
      ArrayCopy(part, result, offset);
      PrefixOfSplice(result[..], before, part[..], result[offset + part.Length..]);
      assert part[..] == parts[i];
      assert head + Concat(parts[..i]) + parts[i] == head + Concat(parts[..i + 1]);
      offset := offset + part.Length;
    }
    assert parts[..|rest|] == parts;
    ConcatLength(parts);
    assert result[..] == result[..offset];
  }

  /** A new array holding the given bytes. */
  method NewArray(bs: seq<Byte>) returns (a: array<Byte>)
    ensures fresh(a) && a[..] == bs
  {
    a := new Byte[|bs|];
    forall k | 0 <= k < |bs| {
      a[k] := bs[k];
    }
  }

  /** The command setAPDUMsg sends: ConcatArrays(WRITE_DATA_APDU, msg),
      the six bytes of the WRITE DATA frame followed by the message. */
  method WriteCommand(msg: array<Byte>) returns (command: array<Byte>)
    ensures fresh(command)
    ensures command[..] == BuildWriteDataApdu() + msg[..]
  {
    var writeDataApdu := NewArray(BuildWriteDataApdu());
    command := ConcatArrays(writeDataApdu, [msg]);
    var single := [msg[..]];
    assert Contents([msg]) == single;
    assert Concat(single) == msg[..] by {
      assert single[..0] == [];
    }
  }

  /** What the three exchanges read from a response: the payload when the
      status word is 90 00, null otherwise, and an out-of-bounds access on
      a response shorter than a status word. */
  function AcceptedPayload(result: seq<Byte>): (r: Outcome<Option<seq<Byte>>>)
    ensures r.Threw? <==> |result| < 2
    ensures r.Threw? ==> r.exception == ArrayIndexOutOfBounds
    ensures r.Returned? && r.value.Some? ==> r.value.value + StatusOk == result
    ensures r.Returned? && r.value.None? ==> !IsOk(result[|result| - 2..])
  {
    match SplitResponse(result)
    case Threw(e) => Threw(e)
    case Returned(response) =>
      if IsOk(response.statusWord) then Returned(Some(response.payload)) else Returned(None)
  }

  /** A frame made of a payload and a status word is accepted exactly when
      the status word is 90 00, and then its payload is what is read. */
  lemma AcceptedFrame(payload: seq<Byte>, statusWord: seq<Byte>)
    requires |statusWord| == 2
    ensures AcceptedPayload(payload + statusWord)
            == Returned(if IsOk(statusWord) then Some(payload) else None)
  {
    SplitResponseOfFrame(payload, statusWord);
  }

  /** getAPDUMsg: the message of a READ DATA response, or null when the
      status word is not 90 00 or the response is too short to hold one
      (the exception is caught). */
  function GetApduMsg(result: seq<Byte>): (msg: Option<seq<Byte>>)
    ensures msg.Some? <==> |result| >= 2 && IsOk(result[|result| - 2..])
    ensures msg.Some? ==> msg.value + StatusOk == result
  {
    match AcceptedPayload(result)
    case Threw(_) => None
    case Returned(accepted) => accepted
  }
}
