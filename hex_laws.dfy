/** The laws that tie the encoder and the decoder of module Hex together. */
module HexLaws {
  import opened Hex

  /** Decoding the encoding of any byte sequence, the empty one included,
      gives it back. */
  lemma {:induction false} HexRoundTrip(bs: seq<Byte>)
    ensures IsHexString(ToHex(bs)) && |ToHex(bs)| % 2 == 0
    ensures FromHex(ToHex(bs)) == bs
  {
    ToHexIsUpperHex(bs);
    var s := ToHex(bs);
    var r := FromHex(s);
    forall k | 0 <= k < |bs| ensures r[k] == bs[k] {
      ToHexAt(bs, k);
      FromHexAt(s, k);
      NibbleSplit(bs[k] / 16, bs[k] % 16);
    }
  }

  predicate IsUpperHexString(s: string) {
    forall i :: 0 <= i < |s| ==> IsUpperHexChar(s[i])
  }

  /** Encoding the decoding of an upper-case hex text gives the text back:
      the encoder's output is exactly the decoder's canonical input. */
  lemma HexRoundTripText(s: string)
    requires |s| % 2 == 0 && IsUpperHexString(s)
    ensures IsHexString(s)
    ensures ToHex(FromHex(s)) == s
  {
    var t := ToHex(FromHex(s));
    forall k | 0 <= k < |s| / 2 ensures t[2 * k] == s[2 * k] && t[2 * k + 1] == s[2 * k + 1] {
      PairRoundTripAt(s, k);
    }
    PairwiseEqual(t, s);
  }

  /** Characters 2k and 2k+1 survive decoding and re-encoding. */
  lemma PairRoundTripAt(s: string, k: int)
    requires |s| % 2 == 0 && IsUpperHexString(s) && 0 <= k < |s| / 2
    ensures IsHexString(s)
    ensures ToHex(FromHex(s))[2 * k] == s[2 * k]
    ensures ToHex(FromHex(s))[2 * k + 1] == s[2 * k + 1]
  {
    var bs := FromHex(s);
    var hi, lo := DigitValue(s[2 * k]), DigitValue(s[2 * k + 1]);
    FromHexAt(s, k);
    NibbleSplit(hi, lo);
    ToHexAt(bs, k);
    HexDigitOfValue(s[2 * k]);
    HexDigitOfValue(s[2 * k + 1]);
  }

  /** Decoding distributes over concatenation at an even boundary. */
  lemma {:induction false} FromHexAppend(a: string, b: string)
    requires |a| % 2 == 0 && IsHexString(a)
    requires |b| % 2 == 0 && IsHexString(b)
    ensures IsHexString(a + b)
    ensures FromHex(a + b) == FromHex(a) + FromHex(b)
  {
    var ab := a + b;
    HexAppend(a, b);
    var l, fa, fb := FromHex(ab), FromHex(a), FromHex(b);
    forall k | 0 <= k < |l| ensures l[k] == (fa + fb)[k] {
      FromHexAt(ab, k);
      if k < |fa| {
        FromHexAt(a, k);
        assert ab[2 * k] == a[2 * k] && ab[2 * k + 1] == a[2 * k + 1];
      } else {
        var m := k - |fa|;
        FromHexAt(b, m);
        assert 2 * k == |a| + 2 * m;
        assert ab[2 * k] == b[2 * m] && ab[2 * k + 1] == b[2 * m + 1];
      }
    }
  }

  /** Decoding a hex literal, two characters at a time. */
  lemma DecodeLiteral(s: string, bs: seq<Byte>)
    requires |s| % 2 == 0 && IsHexString(s) && |bs| == |s| / 2
    requires forall k :: 0 <= k < |bs| ==> bs[k] == 16 * DigitValue(s[2 * k]) + DigitValue(s[2 * k + 1])
    ensures FromHex(s) == bs
  {
    forall k | 0 <= k < |bs| ensures FromHex(s)[k] == bs[k] {
      FromHexAt(s, k);
    }
  }
}
