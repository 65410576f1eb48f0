/** The `hex` crate as the converter uses it: `hex::decode`, `hex::encode`
    and `hex::encode_upper` (version 0.4 behaviour). Strings are ASCII, so a
    character stands for the byte the crate reads. */
module Hex {
  import opened Bytes

  /** `hex::FromHexError`: the crate reports an odd length before looking at
      any character, then the first character that is not a hex digit. */
  datatype FromHexError = InvalidHexCharacter(c: char, index: nat) | OddLength

  /** The digits the crate accepts; the same set as `char::is_ascii_hexdigit`. */
  predicate IsHexDigit(c: char)
  {
    ('0' <= c <= '9') || ('a' <= c <= 'f') || ('A' <= c <= 'F')
  }

  function DigitValue(c: char): (v: nat)
    requires IsHexDigit(c)
    ensures v < 16
  {
    if '0' <= c <= '9' then c as int - '0' as int
    else if 'a' <= c <= 'f' then c as int - 'a' as int + 10
    else c as int - 'A' as int + 10
  }

  /** The digits `hex::encode` writes. */
  predicate IsLowerHexDigit(c: char)
  {
    ('0' <= c <= '9') || ('a' <= c <= 'f')
  }

  /** The digits `hex::encode_upper` writes. */
  predicate IsUpperHexDigit(c: char)
  {
    ('0' <= c <= '9') || ('A' <= c <= 'F')
  }

  const LOWER_DIGITS: string := "0123456789abcdef"
  const UPPER_DIGITS: string := "0123456789ABCDEF"

  /** A table of sixteen digit characters, each read back as its own index. */
  predicate DigitTable(digits: string)
  {
    |digits| == 16 &&
    forall k :: 0 <= k < 16 ==> IsHexDigit(digits[k]) && DigitValue(digits[k]) == k
  }

  lemma DigitTables()
    ensures DigitTable(LOWER_DIGITS) && DigitTable(UPPER_DIGITS)
    ensures forall k :: 0 <= k < 16 ==> IsLowerHexDigit(LOWER_DIGITS[k]) && IsUpperHexDigit(UPPER_DIGITS[k])
  {
  }

  /** Two digits per byte, high nibble first, taken from `digits`. */
  function EncodeWith(digits: string, bs: seq<byte>): (s: string)
    requires |digits| == 16
    ensures |s| == 2 * |bs|
  {
    if bs == [] then ""
    else [digits[bs[0] / 16], digits[bs[0] % 16]] + EncodeWith(digits, bs[1..])
  }

  /** Byte `i` becomes the digits at positions `2 * i` and `2 * i + 1`. */
  lemma {:induction false} EncodeWithAt(digits: string, bs: seq<byte>, i: nat)
    requires |digits| == 16 && i < |bs|
    ensures var s := EncodeWith(digits, bs);
      s[2 * i] == digits[bs[i] / 16] && s[2 * i + 1] == digits[bs[i] % 16]
  {
    if i > 0 {
      EncodeWithAt(digits, bs[1..], i - 1);
    }
  }

  /** `hex::encode`: lower-case digits. */
  function Encode(bs: seq<byte>): (s: string)
    ensures |s| == 2 * |bs|
  {
    EncodeWith(LOWER_DIGITS, bs)
  }

  /** `hex::encode_upper`: upper-case digits. */
  function EncodeUpper(bs: seq<byte>): (s: string)
    ensures |s| == 2 * |bs|
  {
    EncodeWith(UPPER_DIGITS, bs)
  }

  /** Every character an encoding produces comes from its table. */
  lemma EncodeWithDigits(digits: string, bs: seq<byte>, i: nat)
    requires |digits| == 16 && i < 2 * |bs|
    ensures EncodeWith(digits, bs)[i] in digits
  {
    var k := i / 2;
    assert i == 2 * k || i == 2 * k + 1;
    EncodeWithAt(digits, bs, k);
  }

  /** `hex::encode` writes only lower-case hex digits. */
  lemma EncodeLowerDigits(bs: seq<byte>)
    ensures forall i :: 0 <= i < |Encode(bs)| ==> IsLowerHexDigit(Encode(bs)[i])
  {
    DigitTables();
    forall i | 0 <= i < |Encode(bs)| ensures IsLowerHexDigit(Encode(bs)[i]) {
      EncodeWithDigits(LOWER_DIGITS, bs, i);
    }
  }

  /** `hex::encode_upper` writes only upper-case hex digits. */
  lemma EncodeUpperDigits(bs: seq<byte>)
    ensures forall i :: 0 <= i < |EncodeUpper(bs)| ==> IsUpperHexDigit(EncodeUpper(bs)[i])
  {
    DigitTables();
    forall i | 0 <= i < |EncodeUpper(bs)| ensures IsUpperHexDigit(EncodeUpper(bs)[i]) {
      EncodeWithDigits(UPPER_DIGITS, bs, i);
    }
  }

  /** Decodes the digit pairs of `s` from index `i` on, failing at the first
      character that is not a hex digit. */
  function DecodeFrom(s: string, i: nat): (r: Result<seq<byte>, FromHexError>)
    requires |s| % 2 == 0 && i % 2 == 0 && i <= |s|
    decreases |s| - i
    ensures r.Ok? <==> forall j :: i <= j < |s| ==> IsHexDigit(s[j])
    ensures r.Ok? ==> |r.value| == (|s| - i) / 2
    ensures r.Err? ==>
      && r.error.InvalidHexCharacter? && i <= r.error.index < |s|
      && s[r.error.index] == r.error.c && !IsHexDigit(r.error.c)
      && forall j :: i <= j < r.error.index ==> IsHexDigit(s[j])
  {
    if i == |s| then Ok([])
    else if !IsHexDigit(s[i]) then Err(InvalidHexCharacter(s[i], i))
    else if !IsHexDigit(s[i + 1]) then Err(InvalidHexCharacter(s[i + 1], i + 1))
    else
      match DecodeFrom(s, i + 2)
      case Err(e) => Err(e)
      case Ok(rest) => Ok([16 * DigitValue(s[i]) + DigitValue(s[i + 1])] + rest)
  }

  /** `hex::decode`: succeeds exactly on an even-length string of hex digits,
      with one byte per digit pair. */
  function Decode(s: string): (r: Result<seq<byte>, FromHexError>)
    ensures r.Ok? <==> |s| % 2 == 0 && forall j :: 0 <= j < |s| ==> IsHexDigit(s[j])
    ensures r.Ok? ==> |r.value| == |s| / 2
    ensures |s| % 2 != 0 ==> r == Err(OddLength)
  {
    if |s| % 2 != 0 then Err(OddLength) else DecodeFrom(s, 0)
  }

  /** Byte `k` decoded from index `i` on is the value of the digit pair at
      `i + 2 * k`, high digit first. */
  lemma {:induction false} DecodeFromAt(s: string, i: nat, k: nat)
    requires |s| % 2 == 0 && i % 2 == 0 && i <= |s|
    requires DecodeFrom(s, i).Ok? && k < |DecodeFrom(s, i).value|
    ensures DecodeFrom(s, i).value[k] == 16 * DigitValue(s[i + 2 * k]) + DigitValue(s[i + 2 * k + 1])
    decreases k
  {
    if k > 0 {
      DecodeFromAt(s, i + 2, k - 1);
    }
  }

  /** Byte `k` of a decoded string is the value of its digit pair `k`. */
  lemma DecodeAt(s: string, k: nat)
    requires Decode(s).Ok? && k < |Decode(s).value|
    ensures Decode(s).value[k] == 16 * DigitValue(s[2 * k]) + DigitValue(s[2 * k + 1])
  {
    DecodeFromAt(s, 0, k);
  }

  /** Decoding undoes encoding with any valid digit table. */
  lemma DecodeEncodeWith(digits: string, bs: seq<byte>)
    requires DigitTable(digits)
    ensures Decode(EncodeWith(digits, bs)) == Ok(bs)
  {
    var s := EncodeWith(digits, bs);
    forall j | 0 <= j < |s| ensures IsHexDigit(s[j]) {
      var i := j / 2;
      assert j == 2 * i || j == 2 * i + 1;
      EncodeWithAt(digits, bs, i);
      assert IsHexDigit(digits[bs[i] / 16]) && IsHexDigit(digits[bs[i] % 16]);
    }
    var r := Decode(s);
    assert r.Ok?;
    forall k | 0 <= k < |bs| ensures r.value[k] == bs[k] {
      DecodeAt(s, k);
      EncodeWithAt(digits, bs, k);
      assert DigitValue(s[2 * k]) == bs[k] / 16;
      assert DigitValue(s[2 * k + 1]) == bs[k] % 16;
    }
    assert r.value == bs;
  }

  lemma DecodeEncode(bs: seq<byte>)
    ensures Decode(Encode(bs)) == Ok(bs)
  {
    DigitTables();
    DecodeEncodeWith(LOWER_DIGITS, bs);
  }

  lemma DecodeEncodeUpper(bs: seq<byte>)
    ensures Decode(EncodeUpper(bs)) == Ok(bs)
  {
    DigitTables();
    DecodeEncodeWith(UPPER_DIGITS, bs);
  }

  /** Encoding is a homomorphism from byte concatenation to string
      concatenation. */
  lemma EncodeWithAppend(digits: string, a: seq<byte>, b: seq<byte>)
    requires |digits| == 16
    ensures EncodeWith(digits, a + b) == EncodeWith(digits, a) + EncodeWith(digits, b)
  {
    var l := EncodeWith(digits, a + b);
    var r := EncodeWith(digits, a) + EncodeWith(digits, b);
    forall j | 0 <= j < |l| ensures l[j] == r[j] {
      var i := j / 2;
      assert j == 2 * i || j == 2 * i + 1;
      EncodeWithAt(digits, a + b, i);
      if i < |a| {
        assert (a + b)[i] == a[i];
        EncodeWithAt(digits, a, i);
      } else {
        assert (a + b)[i] == b[i - |a|];
        EncodeWithAt(digits, b, i - |a|);
        assert j - 2 * |a| == 2 * (i - |a|) || j - 2 * |a| == 2 * (i - |a|) + 1;
      }
    }
  }

  lemma EncodeAppend(a: seq<byte>, b: seq<byte>)
    ensures Encode(a + b) == Encode(a) + Encode(b)
  {
    EncodeWithAppend(LOWER_DIGITS, a, b);
  }

  lemma EncodeUpperAppend(a: seq<byte>, b: seq<byte>)
    ensures EncodeUpper(a + b) == EncodeUpper(a) + EncodeUpper(b)
  {
    EncodeWithAppend(UPPER_DIGITS, a, b);
  }
}
