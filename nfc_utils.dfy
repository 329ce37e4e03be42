/** The byte-level part of the nfcUtil application (NfcUtils.java): the
    NDEF Text record parser and the private hex encoder of tag ids. The
    layout of a Text record is the one of the NFC Forum Text Record Type
    Definition: a status byte (bit 7 the encoding, bit 6 reserved, bits 5..0
    the length of the language code), the language code, then the text. */
module NfcUtils {
  import opened Hex
  import opened Outcomes

  /** NdefRecord.TNF_WELL_KNOWN. */
  const TnfWellKnown: int := 1
  /** NdefRecord.RTD_TEXT, the type "T". */
  const RtdText: seq<Byte> := [0x54]

  /** The parts of an NdefRecord the parser reads. */
  datatype NdefRecord = NdefRecord(tnf: int, recordType: seq<Byte>, payload: seq<Byte>)

  datatype TextEncoding = Utf8 | Utf16

  /** What the parser cuts out of a Text record: the charset of the text,
      the bytes of the language code (read as US-ASCII, then dropped) and
      the bytes of the text, which is what parseTextRecord returns once
      decoded. */
  datatype TextRecord = TextRecord(textEncoding: TextEncoding, languageCode: seq<Byte>, text: seq<Byte>)

  predicate IsTextType(record: NdefRecord) {
    record.tnf == TnfWellKnown && record.recordType == RtdText
  }

  /** payload[0] & 0x3f. */
  function LanguageCodeLength(status: Byte): (n: nat)
    ensures n < 64
  {
    status % 64
  }

  /** A payload the parser cannot cut: no status byte, or fewer bytes than
      the language code length it announces. */
  predicate IsShortPayload(payload: seq<Byte>) {
    |payload| == 0 || |payload| < 1 + LanguageCodeLength(payload[0])
  }

  /** parseTextRecord: null for a record that is not a well-known Text
      record; otherwise the text after the status byte and the language
      code, in UTF-8 when bit 7 of the status byte is clear and in UTF-16
      when it is set. Every exception the cutting raises becomes an
      IllegalArgumentException. */
  function ParseTextRecord(record: NdefRecord): (r: Outcome<Option<TextRecord>>)
    ensures r == Returned(None) <==> !IsTextType(record)
    ensures r.Threw? <==> IsTextType(record) && IsShortPayload(record.payload)
    ensures r.Threw? ==> r.exception == IllegalArgument
    ensures r.Returned? && r.value.Some? ==>
              var p, parsed := record.payload, r.value.value;
              p != [] &&
              (parsed.textEncoding == Utf8 <==> p[0] < 128) &&
              |parsed.languageCode| == LanguageCodeLength(p[0]) &&
              [p[0]] + parsed.languageCode + parsed.text == p
  {
    if record.tnf != TnfWellKnown then Returned(None)
    else if record.recordType != RtdText then Returned(None)
    else
      var payload := record.payload;
      if |payload| == 0 then Threw(IllegalArgument)
      else
        var textEncoding := if payload[0] < 128 then Utf8 else Utf16;
        var languageCodeLength := LanguageCodeLength(payload[0]);
        if |payload| < languageCodeLength + 1 then Threw(IllegalArgument)
        else
          var languageCode := payload[1..languageCodeLength + 1];
          var text := payload[languageCodeLength + 1..];
          assert [payload[0]] + languageCode + text == payload;
          Returned(Some(TextRecord(textEncoding, languageCode, text)))
  }

  /** The status byte of a Text record: bit 7 for UTF-16, the reserved
      bit 6 clear, the language code length below. */
  function StatusByte(textEncoding: TextEncoding, languageCodeLength: nat): (b: Byte)
    requires languageCodeLength < 64
    ensures LanguageCodeLength(b) == languageCodeLength
    ensures b < 128 <==> textEncoding == Utf8
  {
    (if textEncoding == Utf16 then 128 else 0) + languageCodeLength
  }

  /** The payload of a Text record with the given encoding, language code
      and text bytes. */
  function TextPayload(textEncoding: TextEncoding, languageCode: seq<Byte>, text: seq<Byte>): (p: seq<Byte>)
    requires |languageCode| < 64
    ensures |p| == 1 + |languageCode| + |text|
  {
    [StatusByte(textEncoding, |languageCode|)] + languageCode + text
  }

  /** Parsing a Text record built from an encoding, a language code and a
      text gives all three back. */
  lemma ParseTextPayload(textEncoding: TextEncoding, languageCode: seq<Byte>, text: seq<Byte>)
    requires |languageCode| < 64
    ensures ParseTextRecord(NdefRecord(TnfWellKnown, RtdText, TextPayload(textEncoding, languageCode, text)))
            == Returned(Some(TextRecord(textEncoding, languageCode, text)))
  {
    var p := TextPayload(textEncoding, languageCode, text);
    assert p[0] == StatusByte(textEncoding, |languageCode|);
    assert p[1..|languageCode| + 1] == languageCode;
    assert p[|languageCode| + 1..] == text;
  }

  /** Conversely, every record the parser accepts whose reserved bit 6 is
      clear is the Text record of what the parser returns. */
  lemma ParsedIsTextPayload(record: NdefRecord, parsed: TextRecord)
    requires ParseTextRecord(record) == Returned(Some(parsed))
    requires record.payload != [] && record.payload[0] % 128 < 64
    ensures IsTextType(record) && |parsed.languageCode| < 64
    ensures record.payload == TextPayload(parsed.textEncoding, parsed.languageCode, parsed.text)
  {
    var p := record.payload;
    assert p[0] == StatusByte(parsed.textEncoding, |parsed.languageCode|);
  }

  /** The status byte with bit 6 flipped. */
  function FlipReservedBit(b: Byte): (f: Byte)
    ensures f / 64 % 2 != b / 64 % 2
    ensures f / 128 == b / 128 && f % 64 == b % 64
  {
    if b / 64 % 2 == 0 then b + 64 else b - 64
  }

  /** The parser ignores the reserved bit 6 of the status byte. */
  lemma ParseIgnoresReservedBit(record: NdefRecord)
    requires record.payload != []
    ensures var p := record.payload;
            ParseTextRecord(record.(payload := p[0 := FlipReservedBit(p[0])]))
            == ParseTextRecord(record)
  {
    var p := record.payload;
    var q := p[0 := FlipReservedBit(p[0])];
    assert q[1..] == p[1..];
    assert q[0] < 128 <==> p[0] < 128;
    assert forall k :: 1 <= k <= |p| ==> q[k..] == p[k..];
  }

  /** A Java byte widened to int: bits 31..8 copy bit 7. */
  function SignExtend(b: bv8): (w: bv32)
    ensures w & 0xFF == b as bv32
  {
    if (b as int) < 128 then b as bv32 else (b as bv32) | 0xFFFF_FF00
  }

  /** The tests of the status byte, written on the Java int the byte widens
      to: the masks 0x80 and 0x3f of the sign-extended byte agree with the
      unsigned arithmetic the model uses. */
  lemma StatusMasks(b: bv8)
    ensures ((SignExtend(b) & 0x80) == 0) <==> (b as int) < 128
    ensures (SignExtend(b) & 0x3F) as int == LanguageCodeLength(b as int)
  {
  }

  /** The nibbles of the hex encoder: in = b & 0xff is the unsigned byte,
      (in >> 4) & 0x0f its value / 16 and in & 0x0f its value % 16. */
  lemma NibbleMasks(b: bv8)
    ensures (SignExtend(b) & 0xFF) as int == b as int
    ensures (((SignExtend(b) & 0xFF) >> 4) & 0x0F) as int == (b as int) / 16
    ensures (SignExtend(b) & 0xFF & 0x0F) as int == (b as int) % 16
  {
  }

  /** A UTF-8 record in English ("en") holding "hi", and one whose language
      code runs past the end of the payload. */
  lemma ParseTextRecordExamples()
    ensures ParseTextRecord(NdefRecord(TnfWellKnown, RtdText, [0x02, 0x65, 0x6E, 0x68, 0x69]))
            == Returned(Some(TextRecord(Utf8, [0x65, 0x6E], [0x68, 0x69])))
    ensures ParseTextRecord(NdefRecord(TnfWellKnown, RtdText, [0x85, 0x65, 0x6E])) == Threw(IllegalArgument)
    ensures ParseTextRecord(NdefRecord(4, RtdText, [0x02, 0x65, 0x6E])) == Returned(None)
  {
    var p: seq<Byte> := [0x02, 0x65, 0x6E, 0x68, 0x69];
    assert p[1..3] == [0x65, 0x6E] && p[3..] == [0x68, 0x69];
  }

  /** The private ByteArrayToHexString: for each byte, the table entries at
      (in >> 4) & 0x0f and in & 0x0f appended to the text. */
  method ByteArrayToHexString(inarray: array<Byte>) returns (out: string)
    ensures out == ToHex(inarray[..])
  {
    out := "";
    for j := 0 to inarray.Length
      invariant out == ToHex(inarray[..j])
    {
      var v := inarray[j];
      ghost var before := out;
      var i := v / 16 % 16;
      assert i == v / 16;
      out := out + [HexDigits[i]];
      ghost var high := HexDigits[i];
      i := v % 16;
      out := out + [HexDigits[i]];
      Format02XFromTable(v);
      assert out == before + [high, HexDigits[i]];
      assert inarray[..j + 1] == inarray[..j] + [v];
      ToHexSnoc(inarray[..j], v);
    }
    assert inarray[..inarray.Length] == inarray[..];
  }
}
