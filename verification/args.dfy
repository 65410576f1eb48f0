/** The command-line value parsers of src/main.rs:39-87. The `clap`
    plumbing and `main` are not modelled, except for the extension dispatch
    that `legal_file_type` guards. Error values are the source's messages. */
module Args {
  import opened Bytes
  import Hex
  import VhxRead

  const TWO_56: nat := 0x100_0000_0000_0000

  /** `arg.starts_with("0x")`: the prefix is case-sensitive. */
  predicate HasHexPrefix(arg: string)
  {
    |arg| >= 2 && arg[0] == '0' && arg[1] == 'x'
  }

  /** The value of bytes read most significant first. */
  function BigEndianValue(bs: seq<byte>): nat
  {
    if bs == [] then 0 else BigEndianValue(bs[..|bs| - 1]) * 256 + bs[|bs| - 1]
  }

  /** `256^k`: the bound of a value shifted in `k` bytes at a time, that is
      `8 * k` bits. */
  function BytePower(k: nat): (r: nat)
    ensures r == Pow2(8 * k)
  {
    if k == 0 then 1
    else
      Pow2Add(8 * (k - 1), 8);
      Pow2Values();
      256 * BytePower(k - 1)
  }

  predicate IsDecimalDigit(c: char)
  {
    '0' <= c <= '9'
  }

  predicate AllDecimalDigits(s: string)
  {
    forall i :: 0 <= i < |s| ==> IsDecimalDigit(s[i])
  }

  /** The value of a string of decimal digits, most significant first. */
  function DigitsValue(s: string): nat
    requires AllDecimalDigits(s)
  {
    if s == [] then 0 else DigitsValue(s[..|s| - 1]) * 10 + (s[|s| - 1] as int - '0' as int)
  }

  /** `str::parse::<usize>()` for a 64-bit `usize`: an optional `+`, then at
      least one decimal digit, and a value below 2^64. */
  function ParseUsize(s: string): Option<nat>
  {
    var digits := if |s| >= 1 && s[0] == '+' then s[1..] else s;
    if digits == [] || !AllDecimalDigits(digits) then None
    else if DigitsValue(digits) >= TWO_64 then None
    else Some(DigitsValue(digits))
  }

  /** The usual decimal spelling of `n`, as a reference for `ParseUsize`. */
  function DecimalString(n: nat): (s: string)
    ensures |s| >= 1 && AllDecimalDigits(s)
  {
    var last := ['0' + (n % 10) as char];
    if n < 10 then last else DecimalString(n / 10) + last
  }

  /** What `legal_hex_or_decimal` returns. After `0x` the digits are
      hex-decoded and the bytes shifted in most significant first; bits
      shifted past bit 63 are lost, hence the remainder. */
  function HexOrDecimal(arg: string): Result<nat, string>
  {
    if HasHexPrefix(arg) then
      match Hex.Decode(arg[2..])
      case Err(_) => Err("`" + arg + "` is not a valid hexadecimal number")
      case Ok(bytes) => Ok(BigEndianValue(bytes) % TWO_64)
    else
      match ParseUsize(arg)
      case None => Err("`" + arg + "` is not a valid number")
      case Some(v) => Ok(v)
  }

  /** `legal_hex_or_decimal`. */
  method LegalHexOrDecimal(arg: string) returns (r: Result<nat, string>)
    ensures r == HexOrDecimal(arg)
  {
    if HasHexPrefix(arg) {
      var decoded := Hex.Decode(arg[2..]);
      if decoded.Err? {
        return Err("`" + arg + "` is not a valid hexadecimal number");
      }
      var result := ShiftInBytes(decoded.value);
      r := Ok(result);
    } else {
      var parsed := ParseUsize(arg);
      if parsed.None? {
        return Err("`" + arg + "` is not a valid number");
      }
      r := Ok(parsed.value);
    }
  }

  /** The `for byte in bytes` loop of src/main.rs:52-56 on a 64-bit
      `usize`. */
  method ShiftInBytes(bytes: seq<byte>) returns (result: nat)
    ensures result == BigEndianValue(bytes) % TWO_64
  {
    result := 0;
    var i := 0;
    while i < |bytes|
      invariant i <= |bytes|
      invariant result == BigEndianValue(bytes[..i]) % TWO_64
    {
      assert bytes[..i + 1][..i] == bytes[..i];
      ShiftInByte(BigEndianValue(bytes[..i]), bytes[i]);
      // `result <<= 8` keeps the low 64 bits
      result := (result * 256) % TWO_64;
      result := BitOr(result, bytes[i]);
      i := i + 1;
    }
    assert bytes[..i] == bytes;
  }

  /** One pass of the accumulation loop on a 64-bit `usize`: shifting the
      truncated value left by 8 and OR-ing in a byte is appending the byte
      and truncating. */
  lemma ShiftInByte(v: nat, b: byte)
    ensures BitOr(((v % TWO_64) * 256) % TWO_64, b) == (v * 256 + b) % TWO_64
  {
    var w := v % TWO_64;
    var lo := v % TWO_56;
    ModOfMod(v, TWO_56, 256);
    ShiftedMod(w, TWO_56, 0);
    ShiftedMod(v, TWO_56, b);
    ShiftOr8(lo, b);
  }

  /** Reducing modulo `d * m` keeps the remainder modulo `d`. */
  lemma ModOfMod(v: nat, d: nat, m: nat)
    requires d > 0 && m > 0
    ensures (v % (d * m)) % d == v % d
  {
    var q, r := v / (d * m), v % (d * m);
    assert v == q * (d * m) + r;
    assert q * (d * m) == (q * m) * d;
    DivUnique(v, d, q * m + r / d, r % d);
  }

  /** A value shifted left by one byte, with a byte OR-ed in, keeps modulo
      `d * 256` the shifted remainder modulo `d`. */
  lemma ShiftedMod(x: nat, d: nat, b: nat)
    requires d > 0 && b < 256
    ensures (x * 256 + b) % (d * 256) == (x % d) * 256 + b
  {
    var q, r := x / d, x % d;
    assert x == q * d + r;
    assert x * 256 + b == q * (d * 256) + (r * 256 + b);
    DivUnique(x * 256 + b, d * 256, q, r * 256 + b);
  }

  /** `k` bytes make a value below `256^k`. */
  lemma {:induction false} BigEndianValueBound(bs: seq<byte>)
    ensures BigEndianValue(bs) < BytePower(|bs|)
  {
    if bs != [] {
      BigEndianValueBound(bs[..|bs| - 1]);
    }
  }

  lemma {:induction false} BytePowerMonotone(j: nat, k: nat)
    requires j <= k
    ensures BytePower(j) <= BytePower(k)
    decreases k
  {
    if j < k {
      BytePowerMonotone(j, k - 1);
    }
  }

  /** With at most eight bytes after `0x` nothing is shifted out: the
      result is the exact big-endian value. */
  lemma HexArgumentExact(arg: string)
    requires HasHexPrefix(arg) && Hex.Decode(arg[2..]).Ok? && |arg| <= 18
    ensures HexOrDecimal(arg) == Ok(BigEndianValue(Hex.Decode(arg[2..]).value))
  {
    var bytes := Hex.Decode(arg[2..]).value;
    BigEndianValueBound(bytes);
    BytePowerMonotone(|bytes|, 8);
    assert BytePower(8) == TWO_64;
  }

  /** A bare `0x` is the number 0. */
  lemma BareHexPrefix()
    ensures HexOrDecimal("0x") == Ok(0)
  {
    assert "0x"[2..] == "";
  }

  /** After `0x`, an odd number of characters or a character that is not a
      hex digit is reported as not a hexadecimal number. */
  lemma MalformedHexArgument(arg: string)
    requires HasHexPrefix(arg)
    requires |arg| % 2 == 1 || exists j :: 2 <= j < |arg| && !Hex.IsHexDigit(arg[j])
    ensures HexOrDecimal(arg) == Err("`" + arg + "` is not a valid hexadecimal number")
  {
    if |arg| % 2 == 0 {
      var j :| 2 <= j < |arg| && !Hex.IsHexDigit(arg[j]);
      assert arg[2..][j - 2] == arg[j];
    }
  }

  /** An upper-case `0X` prefix is not recognised: the argument goes to the
      decimal parser, which rejects the `X`. */
  lemma UpperCasePrefixRejected(arg: string)
    requires |arg| >= 2 && arg[0] == '0' && arg[1] == 'X'
    ensures HexOrDecimal(arg) == Err("`" + arg + "` is not a valid number")
  {
    assert !IsDecimalDigit(arg[1]);
  }

  /** Appending a digit multiplies by ten and adds it. */
  lemma DigitsValueAppend(s: string, c: char)
    requires AllDecimalDigits(s) && IsDecimalDigit(c)
    ensures AllDecimalDigits(s + [c])
    ensures DigitsValue(s + [c]) == DigitsValue(s) * 10 + (c as int - '0' as int)
  {
    assert (s + [c])[..|s|] == s;
  }

  /** The digits of `n` have the value `n`. */
  lemma {:induction false} DecimalStringValue(n: nat)
    ensures DigitsValue(DecimalString(n)) == n
  {
    var last := ['0' + (n % 10) as char];
    if n < 10 {
      assert last == [] + last;
      DigitsValueAppend([], last[0]);
    } else {
      DecimalStringValue(n / 10);
      DigitsValueAppend(DecimalString(n / 10), last[0]);
    }
  }

  /** The decimal parser reads back every number below 2^64 written in
      decimal, and nothing larger. */
  lemma ParseDecimalString(n: nat)
    ensures ParseUsize(DecimalString(n)) == if n < TWO_64 then Some(n) else None
  {
    DecimalStringValue(n);
    assert IsDecimalDigit(DecimalString(n)[0]);
  }

  /** `legal_u32`: the value truncated to its low 32 bits (`as u32`). */
  function LegalU32(arg: string): Result<nat, string>
  {
    match HexOrDecimal(arg)
    case Err(e) => Err(e)
    case Ok(v) => Ok(v % TWO_32)
  }

  /** `legal_u8`: the value truncated to its low 8 bits (`as u8`). */
  function LegalU8(arg: string): Result<byte, string>
  {
    match HexOrDecimal(arg)
    case Err(e) => Err(e)
    case Ok(v) => Ok(v % 256)
  }

  /** Four bytes read back big-endian are the 32-bit value they were taken
      from. */
  lemma BigEndianValueOf32(x: nat)
    ensures BigEndianValue(ToBigEndian32(x)) == x % TWO_32
  {
    var r := ToBigEndian32(x);
    BigEndian32Value(x);
    var a, b, c, d := r[0] as int, r[1] as int, r[2] as int, r[3] as int;
    assert r[..3][..2][..1][..0] == [];
    assert BigEndianValue(r[..1]) == a;
    assert BigEndianValue(r[..2]) == a * 256 + b by { assert r[..2][..1] == r[..1]; }
    assert BigEndianValue(r[..3]) == (a * 256 + b) * 256 + c by { assert r[..3][..2] == r[..2]; }
  }

  /** A start address written as `0x` and the eight hex digits of a 32-bit
      value is read as that value. */
  lemma StartAddressHexArgument(x: nat)
    ensures LegalU32("0x" + Hex.Encode(ToBigEndian32(x))) == Ok(x % TWO_32)
  {
    HexArgumentOfBytes(ToBigEndian32(x));
    BigEndianValueOf32(x);
    DivUnique(x % TWO_32, TWO_32, 0, x % TWO_32);
  }

  /** Up to eight bytes written after `0x` in hex are read back as their
      big-endian value. */
  lemma HexArgumentOfBytes(bs: seq<byte>)
    requires |bs| <= 8
    ensures HexOrDecimal("0x" + Hex.Encode(bs)) == Ok(BigEndianValue(bs))
  {
    var arg := "0x" + Hex.Encode(bs);
    assert arg[2..] == Hex.Encode(bs);
    Hex.DecodeEncode(bs);
    HexArgumentExact(arg);
  }

  /** A decimal argument is truncated, not rejected, when it does not fit:
      `legal_u8` on the decimal spelling of `n < 2^64` gives `n mod 256`
      and `legal_u32` gives `n mod 2^32`. */
  lemma DecimalArgumentTruncated(n: nat)
    requires n < TWO_64
    ensures LegalU8(DecimalString(n)) == Ok(n % 256)
    ensures LegalU32(DecimalString(n)) == Ok(n % TWO_32)
  {
    ParseDecimalString(n);
    assert !HasHexPrefix(DecimalString(n)) by {
      if |DecimalString(n)| >= 2 {
        assert IsDecimalDigit(DecimalString(n)[1]);
      }
    }
  }

  /** `legal_chunk_size`. */
  function LegalChunkSize(arg: string): Result<nat, string>
  {
    match ParseUsize(arg)
    case None => Err("`" + arg + "` is not a valid chunk size")
    case Some(size) => if size == 64 || size == 128 then Ok(size) else Err("Chunk size must be either 64 or 128")
  }

  /** A number written in decimal is accepted as a chunk size exactly when
      it is 64 or 128. */
  lemma ChunkSizeAccepted(n: nat)
    ensures LegalChunkSize(DecimalString(n)).Ok? <==> n == 64 || n == 128
    ensures LegalChunkSize(DecimalString(n)).Ok? ==> LegalChunkSize(DecimalString(n)).value == n
  {
    ParseDecimalString(n);
  }

  /** Whatever its spelling, an accepted chunk size is the parsed value 64
      or 128: a whole number of words, at least one, so a chunk of 8 or 16
      bytes the VHX codec can divide by. */
  lemma AcceptedChunkSizeUsable(arg: string)
    requires LegalChunkSize(arg).Ok?
    ensures var size := LegalChunkSize(arg).value;
      && ParseUsize(arg) == Some(size)
      && (size == 64 || size == 128)
      && size >= 32 && size % 32 == 0
      && (VhxRead.ChunkBytes(size) == 8 || VhxRead.ChunkBytes(size) == 16)
  {
  }

  /** `legal_file_type` on a path and the result of `Path::extension` for it. */
  function LegalFileType(path: string, extension: Option<string>): Result<string, string>
  {
    match extension
    case None => Err("No file extension specified")
    case Some(ex) =>
      if ex == "hex" || ex == "vhx" || ex == "vhx128" then Ok(path)
      else Err("Unsupported file type `" + ex + "`")
  }

  datatype Format = HexFormat | VhxFormat

  /** The dispatch on the extension in `main` (src/main.rs:98-106 and
      112-116); `None` is the `panic!` arm. */
  function FormatOf(extension: string): Option<Format>
  {
    match extension
    case "hex" => Some(HexFormat)
    case "vhx" => Some(VhxFormat)
    case "vhx128" => Some(VhxFormat)
    case _ => None
  }

  /** The validator accepts exactly the paths `main` can dispatch on, so its
      "Unsupported file type was accepted" panic cannot happen, and it hands
      back the path unchanged. */
  lemma FileTypeDispatches(path: string, extension: Option<string>)
    ensures LegalFileType(path, extension).Ok? <==> extension.Some? && FormatOf(extension.value).Some?
    ensures LegalFileType(path, extension).Ok? ==> LegalFileType(path, extension).value == path
    ensures extension.None? ==> LegalFileType(path, extension) == Err("No file extension specified")
  {
  }
}
