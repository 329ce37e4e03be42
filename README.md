# NfcHCE reader and emulation: the byte-level codec

This project models, in Dafny, the byte-level codec of the three NFC
applications of the NfcHCE-Reader-Emulation repository, and proves
properties of that model:

- **CardReader** (`LoyaltyCardReader.java`) talks ISO/IEC 7816-4 to a card
  that emulates a loyalty-card service. The model covers its hex helpers
  (`ByteArrayToHexString`, `HexStringToByteArray`) and its command builders
  (SELECT by name, GET DATA, READ DATA, WRITE DATA). It also covers
  `ConcatArrays`, which builds the WRITE command, and the way every exchange
  splits a response into a payload and a two-byte status word and accepts it
  on `90 00`.
- **nfcUtil** (`NfcUtils.java`) reads NDEF tags. The model covers
  `parseTextRecord`, the NFC Forum Text record parser, and the private hex
  encoder of tag ids.
- **nfcreader** (`MainActivity.java`) is a second reader. The model covers
  its own hex helpers (`stringToBytes`, `bytesToString`), its SELECT builder,
  and what `onNewIntent` shows for a response.

Layout:

- `outcomes.dfy`: Java exceptions as `Outcome.Threw`, and `null` as `Option.None`.
- `hex.dfy`: the reference encoder `ToHex` and decoder `FromHex`, plus their index-wise facts.
- `hex_laws.dfy`: the round trips and decoding of a concatenation.
- `apdu.dfy`: the SELECT header and the response split shared by both readers.
- `loyalty_card_reader.dfy`, `nfc_utils.dfy`, `nfc_reader.dfy`: one module per source file.

Bytes are `Byte = 0..255`, the unsigned view `b & 0xFF` of a Java `byte`. The
shifts and masks of the source are written as `/ 16`, `% 16`, `< 128` and
`% 64`. Java widens a `byte` to an `int` by sign extension, written
`NfcUtils.SignExtend`. `NfcUtils.StatusMasks` proves that `& 0x80` and `& 0x3f`
on the widened byte are the tests `< 128` and `% 64`. `NfcUtils.NibbleMasks`
proves that `(in >> 4) & 0x0f` and `in & 0x0f` on `in = b & 0xff` are `/ 16`
and `% 16`.

The array loops are imperative methods whose postconditions tie their
result to `ToHex`/`FromHex`. The round trips and index laws are proved about
those functions. Six specification functions have no `ensures` of their own,
so they have no row in the table below:

- `LoyaltyCardReader.HexStringToBytes`, `NfcReader.HexToBytes`: the decoded form thrown or returned.
- `LoyaltyCardReader.BuildSelectApdu`, `NfcReader.BuildSelectApdu`: the SELECT builders.
- `LoyaltyCardReader.Concat`, `LoyaltyCardReader.TotalLength`: the bytes and
  the total length of a list of parts.

`LoyaltyCardReader.PrefixOfSplice` is a helper about sequences and has no row either.

Their meaning is stated by the methods and lemmas that refer to them.

The code reports some cases differently from what one might expect, and the
model follows the code:

- Odd-length hex input is not reported as a dedicated error. In
  `HexStringToByteArray` the last `charAt(i + 1)` reads past the end
  (`StringIndexOutOfBounds`). `stringToBytes` throws `IllegalArgument`.
- Non-hex characters are not validated. They are outside the behaviour the
  source documents, so they are a precondition.
- A response shorter than two bytes is not reported as a malformed-response
  error. Indexing `result[len - 2]` throws `ArrayIndexOutOfBounds`:
  - `onTagDiscovered` and `onNewIntent` let it escape;
  - `getAPDUMsg` catches it and returns `null`.
- `parseTextRecord` returns `null` for a wrong TNF or type; it does not report
  an error. It turns every cutting failure into `IllegalArgumentException`,
  and returns only the text.
- The WRITE command is the fixed frame `00 DA 00 00 0F FF` followed by the
  message bytes. There is no computed length field and no size check.
- There is no Text record encoder in the source. `NfcUtils.TextPayload` is a
  reference encoder for the layout the parser reads. It is used only to
  state the round trip.

## Model

| member | source | states |
|---|---|---|
| Hex.DigitValue | CardReader/src/main/java/com/example/android/cardreader/LoyaltyCardReader.java:170-171 | Character.digit(c, 16) on ASCII: a value in 0..15 exactly for the hex digits of either case, -1 for every other character |
| Hex.Format02X | nfcreader/src/main/java/com/example/nfcreader/MainActivity.java:170 | %02X of a byte is two upper-case hex digits whose values, high digit times 16 plus low digit, give the byte back |
| Hex.HexDigitsTable | CardReader/src/main/java/com/example/android/cardreader/LoyaltyCardReader.java:147 | entry n of the digit table hexArray is the hex digit of nibble n |
| Hex.Format02XFromTable | nfcUtil/src/main/java/com/example/nfcapplication/NfcUtils.java:207-215 | the two table entries at the high and the low nibble of a byte are its %02X text |
| Hex.ToHexAt | CardReader/src/main/java/com/example/android/cardreader/LoyaltyCardReader.java:150-154 | characters 2j and 2j+1 of the hex text are the digits of the high and the low nibble of byte j |
| Hex.ToHexIsUpperHex | CardReader/src/main/java/com/example/android/cardreader/LoyaltyCardReader.java:146-156 | every character of the hex text is one of 0-9A-F |
| Hex.FromHexAt | CardReader/src/main/java/com/example/android/cardreader/LoyaltyCardReader.java:166-174 | byte k of the decoded text is 16 * digit(s[2k]) + digit(s[2k+1]), in either case |
| HexLaws.HexRoundTrip | CardReader/src/main/java/com/example/android/cardreader/LoyaltyCardReader.java:146-174 | decoding the hex text of any byte sequence, the empty one included, gives the sequence back |
| HexLaws.HexRoundTripText | CardReader/src/main/java/com/example/android/cardreader/LoyaltyCardReader.java:146-174 | encoding the decoding of an even-length upper-case hex text gives the text back |
| HexLaws.PairRoundTripAt | CardReader/src/main/java/com/example/android/cardreader/LoyaltyCardReader.java:146-174 | characters 2k and 2k+1 of an upper-case hex text survive decoding and re-encoding |
| HexLaws.FromHexAppend | CardReader/src/main/java/com/example/android/cardreader/LoyaltyCardReader.java:127 | decoding two even hex texts one after the other is decoding each and concatenating the bytes |
| HexLaws.DecodeLiteral | CardReader/src/main/java/com/example/android/cardreader/LoyaltyCardReader.java:166-174 | a hex text decodes to the byte sequence whose byte k is read from its characters 2k and 2k+1 |
| Apdu.SelectHeader | CardReader/src/main/java/com/example/android/cardreader/LoyaltyCardReader.java:127 | the SELECT header text with its %02X length field is ten hex characters |
| Apdu.SelectHeaderBytes | CardReader/src/main/java/com/example/android/cardreader/LoyaltyCardReader.java:39 | the header text with length field lc decodes to 00 A4 04 00 lc |
| Apdu.ParityAfterHeader | CardReader/src/main/java/com/example/android/cardreader/LoyaltyCardReader.java:127 | the command text, SELECT header followed by the AID, is odd exactly when the AID is odd |
| Apdu.SplitResponse | CardReader/src/main/java/com/example/android/cardreader/LoyaltyCardReader.java:98-100 | a response shorter than two bytes throws ArrayIndexOutOfBounds; otherwise the status word has two bytes and payload then status word is the response |
| Apdu.SplitResponseOfFrame | CardReader/src/main/java/com/example/android/cardreader/LoyaltyCardReader.java:208-210 | splitting a payload followed by a two-byte status word gives exactly that payload and status word |
| Apdu.SplitResponseExamples | CardReader/src/main/java/com/example/android/cardreader/LoyaltyCardReader.java:231-234 | 01 02 90 00 splits into 01 02 and OK; 6A 82 has an empty payload and is not OK; a one-byte response throws |
| LoyaltyCardReader.ByteArrayToHexString | CardReader/src/main/java/com/example/android/cardreader/LoyaltyCardReader.java:146-156 | the character array filled by the loop is the hex text of the bytes |
| LoyaltyCardReader.HexStringToByteArray | CardReader/src/main/java/com/example/android/cardreader/LoyaltyCardReader.java:166-174 | the stepped loop returns the decoding of an even-length text and throws StringIndexOutOfBounds on an odd one |
| LoyaltyCardReader.HexStringRoundTrip | CardReader/src/main/java/com/example/android/cardreader/LoyaltyCardReader.java:146-174 | HexStringToByteArray of ByteArrayToHexString of any bytes returns those bytes |
| LoyaltyCardReader.HexStringToBytesExamples | CardReader/src/main/java/com/example/android/cardreader/LoyaltyCardReader.java:166-174 | "0aFf" decodes to 0A FF; the odd "ABC" throws StringIndexOutOfBounds |
| LoyaltyCardReader.SelectApduOdd | CardReader/src/main/java/com/example/android/cardreader/LoyaltyCardReader.java:125-128 | an AID of odd length makes BuildSelectApdu throw StringIndexOutOfBounds |
| LoyaltyCardReader.SelectApduEven | CardReader/src/main/java/com/example/android/cardreader/LoyaltyCardReader.java:125-128 | for an AID of length 2 * lc the SELECT command is 00 A4 04 00 lc followed by the AID's bytes |
| LoyaltyCardReader.DecodeConcat | CardReader/src/main/java/com/example/android/cardreader/LoyaltyCardReader.java:127 | two even hex texts concatenated decode without exception to the bytes of the first then the second |
| LoyaltyCardReader.SampleSelectApdu | CardReader/src/main/java/com/example/android/cardreader/LoyaltyCardReader.java:36-39 | the SELECT for the sample AID F222222222 is 00 A4 04 00 05 F2 22 22 22 22 |
| LoyaltyCardReader.BuildGetDataApdu | CardReader/src/main/java/com/example/android/cardreader/LoyaltyCardReader.java:135-138 | the GET DATA frame is exactly 00 CA 00 00 0F FF |
| LoyaltyCardReader.BuildWriteDataApdu | CardReader/src/main/java/com/example/android/cardreader/LoyaltyCardReader.java:176-179 | the WRITE DATA frame is exactly 00 DA 00 00 0F FF |
| LoyaltyCardReader.BuildReadDataApdu | CardReader/src/main/java/com/example/android/cardreader/LoyaltyCardReader.java:181-184 | the READ DATA frame is exactly 00 EA 00 00 0F FF |
| LoyaltyCardReader.Contents | CardReader/src/main/java/com/example/android/cardreader/LoyaltyCardReader.java:186 | the contents of the vararg arrays, one sequence per array, in order |
| LoyaltyCardReader.ConcatLength | CardReader/src/main/java/com/example/android/cardreader/LoyaltyCardReader.java:187-190 | the concatenation of the parts is as long as the sum of their lengths, the total computed by the first loop |
| LoyaltyCardReader.ConcatAppend | CardReader/src/main/java/com/example/android/cardreader/LoyaltyCardReader.java:192-196 | concatenating two lists of parts is concatenating their concatenations |
| LoyaltyCardReader.ConcatAt | CardReader/src/main/java/com/example/android/cardreader/LoyaltyCardReader.java:192-196 | byte k of part i sits at the running offset, the total length of the parts before it, plus k |
| LoyaltyCardReader.TotalLengthPrefix | CardReader/src/main/java/com/example/android/cardreader/LoyaltyCardReader.java:192-196 | the running offset never passes the total length |
| LoyaltyCardReader.ConcatStep | CardReader/src/main/java/com/example/android/cardreader/LoyaltyCardReader.java:188-196 | one more array extends the running total by its length and the running content by its bytes |
| LoyaltyCardReader.CopyOf | CardReader/src/main/java/com/example/android/cardreader/LoyaltyCardReader.java:191 | Arrays.copyOf returns a new array of the requested length: the original's bytes, then zeros |
| LoyaltyCardReader.ArrayCopy | CardReader/src/main/java/com/example/android/cardreader/LoyaltyCardReader.java:194 | System.arraycopy within bounds replaces the destination's bytes from the offset on by the source's and leaves the rest |
| LoyaltyCardReader.ConcatArrays | CardReader/src/main/java/com/example/android/cardreader/LoyaltyCardReader.java:186-198 | a new array holding first followed by every array of rest in order; the inputs are not modified |
| LoyaltyCardReader.CopyRest | CardReader/src/main/java/com/example/android/cardreader/LoyaltyCardReader.java:192-196 | the copy loop leaves the prefix before the offset and fills the rest of the result with the arrays of rest in order |
| LoyaltyCardReader.NewArray | CardReader/src/main/java/com/example/android/cardreader/LoyaltyCardReader.java:48 | the static WRITE_DATA_APDU array holds the bytes of the frame |
| LoyaltyCardReader.WriteCommand | CardReader/src/main/java/com/example/android/cardreader/LoyaltyCardReader.java:228 | the command setAPDUMsg sends is the WRITE DATA frame followed by the message bytes |
| LoyaltyCardReader.AcceptedPayload | CardReader/src/main/java/com/example/android/cardreader/LoyaltyCardReader.java:98-101 | a short response throws; an accepted payload followed by 90 00 is the response; a refused one does not end in 90 00 |
| LoyaltyCardReader.AcceptedFrame | CardReader/src/main/java/com/example/android/cardreader/LoyaltyCardReader.java:231-234 | a payload followed by a status word is accepted exactly when the status word is 90 00, and then the payload is what is read |
| LoyaltyCardReader.GetApduMsg | CardReader/src/main/java/com/example/android/cardreader/LoyaltyCardReader.java:204-218 | getAPDUMsg returns a message exactly when the response ends in 90 00, and the message is everything before it; otherwise null |
| NfcUtils.LanguageCodeLength | nfcUtil/src/main/java/com/example/nfcapplication/NfcUtils.java:189 | payload[0] & 0x3f is below 64 |
| NfcUtils.ParseTextRecord | nfcUtil/src/main/java/com/example/nfcapplication/NfcUtils.java:169-200 | null exactly for a record that is not well-known TNF with type T; IllegalArgument exactly for an empty payload or one shorter than 1 + L; otherwise UTF-8 iff bit 7 is clear. The status byte, the L language-code bytes and the text partition the payload |
| NfcUtils.StatusByte | nfcUtil/src/main/java/com/example/nfcapplication/NfcUtils.java:187-189 | the reference status byte announces the language code length and has bit 7 clear exactly for UTF-8 |
| NfcUtils.TextPayload | nfcUtil/src/main/java/com/example/nfcapplication/NfcUtils.java:192-195 | the reference payload is one status byte, the language code and the text |
| NfcUtils.ParseTextPayload | nfcUtil/src/main/java/com/example/nfcapplication/NfcUtils.java:184-196 | parsing a Text record built from an encoding, a language code under 64 bytes and a text gives all three back |
| NfcUtils.ParsedIsTextPayload | nfcUtil/src/main/java/com/example/nfcapplication/NfcUtils.java:184-196 | every accepted record with bit 6 clear is the Text record of what the parser returned |
| NfcUtils.FlipReservedBit | nfcUtil/src/main/java/com/example/nfcapplication/NfcUtils.java:189 | flipping bit 6 changes that bit and keeps bit 7 and bits 5..0 |
| NfcUtils.ParseIgnoresReservedBit | nfcUtil/src/main/java/com/example/nfcapplication/NfcUtils.java:187-189 | flipping bit 6 of the status byte never changes the result |
| NfcUtils.SignExtend | nfcUtil/src/main/java/com/example/nfcapplication/NfcUtils.java:187-189 | the int a Java byte widens to keeps the byte in its low eight bits |
| NfcUtils.StatusMasks | nfcUtil/src/main/java/com/example/nfcapplication/NfcUtils.java:187-189 | on the sign-extended byte, & 0x80 is zero exactly below 128, and & 0x3f is the value mod 64 |
| NfcUtils.NibbleMasks | nfcUtil/src/main/java/com/example/nfcapplication/NfcUtils.java:211-214 | in = b & 0xff is the unsigned byte; (in >> 4) & 0x0f is its value / 16 and in & 0x0f its value % 16 |
| NfcUtils.ParseTextRecordExamples | nfcUtil/src/main/java/com/example/nfcapplication/NfcUtils.java:169-200 | 02 'e' 'n' 'h' 'i' is UTF-8, language en, text hi; a language code past the end throws; TNF 4 gives null |
| NfcUtils.ByteArrayToHexString | nfcUtil/src/main/java/com/example/nfcapplication/NfcUtils.java:205-218 | the text built by appending two table digits per byte is the hex text of the bytes, "" for no bytes |
| NfcReader.StringToBytes | nfcreader/src/main/java/com/example/nfcreader/MainActivity.java:154-165 | odd length throws IllegalArgument before any decoding; an even-length text decodes to len/2 bytes, high nibble first |
| NfcReader.StringRoundTrip | nfcreader/src/main/java/com/example/nfcreader/MainActivity.java:154-173 | stringToBytes of bytesToString of any bytes returns those bytes |
| NfcReader.SelectOkDecoded | nfcreader/src/main/java/com/example/nfcreader/MainActivity.java:32 | SELECT_OK = stringToBytes("9000") is 90 00 |
| NfcReader.BytesToString | nfcreader/src/main/java/com/example/nfcreader/MainActivity.java:167-173 | appending %02X of each byte gives the hex text of the bytes |
| NfcReader.SelectApduAgrees | nfcreader/src/main/java/com/example/nfcreader/MainActivity.java:176-178 | for an even AID both readers build the same SELECT; for an odd one this reader throws IllegalArgument and CardReader's StringIndexOutOfBounds |
| NfcReader.SampleSelectApdu | nfcreader/src/main/java/com/example/nfcreader/MainActivity.java:33-36 | the SELECT for F222222222 is 00 A4 04 00 05 F2 22 22 22 22 |
| NfcReader.ResponseText | nfcreader/src/main/java/com/example/nfcreader/MainActivity.java:115-127 | a short response throws; an account shown is the response without its 90 00; error info is shown only when the status word is not 90 00 |
| NfcReader.ResponseTextOfFrame | nfcreader/src/main/java/com/example/nfcreader/MainActivity.java:115-127 | with status 90 00 the payload is shown; with any other status word the hex text of the whole response |
| NfcReader.ErrorInfoDecodes | nfcreader/src/main/java/com/example/nfcreader/MainActivity.java:124 | the error text shown is hex that stringToBytes turns back into the response |

## Left out

- Transport: `IsoDep` connect, transceive, timeouts and close, and the `Ndef`
  tag reads and writes. These are hardware I/O. Responses and records are
  parameters of the model.
- The order of exchanges in `onTagDiscovered` is not modelled: SELECT, then
  a WRITE of "test", then a READ. It is a sequence of device calls, and each
  exchange's framing is modelled.
- `writeNFCToTag`, `readNFCFromTag`, `readNFCId`, `NfcCheck` and `NfcInit`.
  These are adapter and intent plumbing, or library encoders whose source is
  not available.
- Charset decoding (`new String(bytes, "UTF-8" / "UTF-16" / "US-ASCII")`) is
  Java library behaviour. The model keeps the byte slices and the encoding
  flag. `Shown.Account` is likewise the payload bytes before UTF-8 decoding.
- `msg.getBytes()` in `setAPDUMsg` (the platform charset). `WriteCommand`
  takes the message bytes.
- Logging, toasts, the `WeakReference` callback, and the activities
  `NfcReadActivity` and nfcUtil's `MainActivity`: UI and lifecycle.
- LoyaltyCardReader.BuildSelectApdu: the model requires `|aid| / 2 < 256`, because `%02X` of a larger length writes three digits; that case is not modelled.
- NfcReader.BuildSelectApdu: the same requirement as LoyaltyCardReader.BuildSelectApdu, and for the same reason.
- LoyaltyCardReader.HexStringToByteArray: requires a text of hex digits; the source leaves other characters undefined, and `Character.digit` of non-ASCII digits is not modelled.
- NfcReader.StringToBytes: requires a text of hex digits, for the same reason.
- HexLaws.HexRoundTripText: holds for upper-case text only. The encoder always writes upper case, so a lower-case text does not come back unchanged.
- LoyaltyCardReader.ArrayCopy: requires the copy to fit in the destination, and copies from position 0 only. ConcatArrays always calls it that way, so the `IndexOutOfBoundsException` of a misfit is not modelled.
- LoyaltyCardReader.GetApduMsg: the `isoDep == null` branch, which returns
  `""` rather than `null`, is not modelled, since the model has no `IsoDep`
  object and takes the response as a parameter.
- LoyaltyCardReader.ConcatArrays: `totalLength` is a 32-bit Java `int`, so
  parts of more than 2^31 - 1 bytes in total overflow it; the model adds
  lengths as unbounded integers, and that overflow is not modelled.
- LoyaltyCardReader.ConcatArrays: `null` arrays, on which Java throws, are not modelled, since Dafny arrays are never null. The varargs are a sequence of arrays.
