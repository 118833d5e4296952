/** The Bech32 / Bech32m codec (BIP-173, BIP-350): a human-readable prefix,
    the separator `1`, the payload in base-32 symbols and a six-symbol
    checksum. The two variants differ only in the constant the checksum
    reduction must reach. */
module Bech32 {
  import opened Wrappers
  import opened Bitwise
  import opened BitPacket
  import opened Checksum
  import opened Base32
  import opened Text

  /** The checksum constant of Bech32. */
  const Bech32Const: nat := 1

  /** The checksum constant of Bech32m. */
  const Bech32mConst: nat := 0x2bc830a3

  /** A configured codec: the expected prefix (`None` accepts any prefix on
      decoding) and the checksum constant of its variant. */
  datatype Codec = Codec(hrp: Option<string>, sum: nat)

  /** What the constructor guarantees of every codec it builds: a lower-case
      prefix without the separator, and one of the two constants. */
  predicate ValidCodec(c: Codec)
  {
    && (c.sum == Bech32Const || c.sum == Bech32mConst)
    && (c.hrp.Some? ==> '1' !in c.hrp.value && ToLower(c.hrp.value) == c.hrp.value)
  }

  /** Why a codec cannot be built. */
  datatype CodecError = SeparatorInHrp

  /** `new Bech32(hrp, m)`: rejects a prefix containing `1`, keeps the
      prefix in lower case and picks the constant of the variant.
      `Bech32(m)` passes no prefix, `Bech32(hrp)` passes `m = false`, and
      `Bech32()` passes both. */
  function NewCodec(hrp: Option<string>, m: bool): (r: Result<Codec, CodecError>)
    ensures r.Err? <==> hrp.Some? && '1' in hrp.value
    ensures r.Ok? ==> ValidCodec(r.value)
    ensures r.Ok? ==> (r.value.sum == Bech32mConst <==> m)
    ensures r.Ok? ==> (r.value.hrp.Some? <==> hrp.Some?)
    ensures r.Ok? && hrp.Some? ==> ToLower(r.value.hrp.value) == ToLower(hrp.value)
  {
    if hrp.Some? && '1' in hrp.value then Err(SeparatorInHrp)
    else
      var stored :=
        if hrp.Some? then
          LowerUpper(hrp.value);
          LowerSeparator(hrp.value);
          Some(ToLower(hrp.value))
        else None;
      Ok(Codec(stored, if m then Bech32mConst else Bech32Const))
  }

  /** The code point of a character. */
  function Code(c: char): nat
  {
    c as int
  }

  /** `c >>> 5` of each character of the prefix. */
  function HighCodes(hrp: string): (r: seq<nat>)
    ensures |r| == |hrp|
    ensures forall i :: 0 <= i < |hrp| ==> r[i] == Code(hrp[i]) / 32
  {
    if hrp == [] then [] else [Code(hrp[0]) / 32] + HighCodes(hrp[1..])
  }

  /** The code of each character of the prefix. */
  function Codes(hrp: string): (r: seq<nat>)
    ensures |r| == |hrp|
    ensures forall i :: 0 <= i < |hrp| ==> r[i] == Code(hrp[i])
  {
    if hrp == [] then [] else [Code(hrp[0])] + Codes(hrp[1..])
  }

  /** `expandHrp`: each character's code shifted right by five, a zero,
      then each character's code, all written five bits wide. */
  function ExpandHrp(hrp: string): (r: Bits)
    ensures |r| == 5 * (2 * |hrp| + 1)
  {
    WriteInts(HighCodes(hrp), 5) + BitsOf(0, 5) + WriteInts(Codes(hrp), 5)
  }

  /** The bits `createChecksum` hands to `polymod`: the expanded prefix,
      the payload bytes padded to whole groups, and 30 zero bits for the
      checksum. */
  function ChecksumInput(hrp: string, data: seq<Byte>): (r: Bits)
    ensures |r| % 5 == 0
    ensures |r| == 5 * (2 * |hrp| + 1) + 8 * |data| + Pad(|data|) + 30
  {
    var r := ExpandHrp(hrp) + (WriteBytes(data) + Zeros(Pad(|data|))) + Zeros(30);
    var q := (8 * |data| + Pad(|data|)) / 5;
    assert 8 * |data| + Pad(|data|) == 5 * q;
    DivModUnique(|r|, 5, 2 * |hrp| + 1 + q + 6, 0);
    r
  }

  /** `createChecksum`: the reduction of the checksum input XOR the
      variant's constant. */
  function CreateChecksum(sum: nat, hrp: string, data: seq<Byte>): (r: nat)
    ensures sum < Limit ==> r < Limit
  {
    var p := Polymod(ChecksumInput(hrp, data));
    XorLimit(p, sum);
    Xor(p, sum)
  }

  /** `encodeChecksum`: the first six symbols of the four bytes of
      `k << 2`. */
  function EncodeChecksum(k: nat): (r: string)
    ensures |r| == 6
    ensures forall i :: 0 <= i < |r| ==> IsSymbol(r[i])
  {
    EncodeBytes(IntBytes(4 * k))[..6]
  }

  /** `encode`: prefix, separator, payload symbols, checksum symbols. The
      source has no defined result without a prefix. */
  function Encode(c: Codec, data: seq<Byte>): (r: string)
    requires c.hrp.Some?
    ensures |r| == |c.hrp.value| + 1 + (8 * |data| + 4) / 5 + 6
    ensures r[..|c.hrp.value|] == c.hrp.value && r[|c.hrp.value|] == '1'
  {
    c.hrp.value + "1" + (EncodeBytes(data) + EncodeChecksum(CreateChecksum(c.sum, c.hrp.value, data)))
  }

  /** `verifyChecksum`: whether the reduction of the expanded prefix and the
      bits of the symbols reaches the constant; `None` if some character is
      not a symbol. */
  function VerifyChecksum(sum: nat, hrp: string, data: string): (r: Option<bool>)
    ensures r.Some? <==> forall i :: 0 <= i < |data| ==> IsSymbol(data[i])
  {
    match DecodePacket(data)
    case None => None
    case Some(bits) =>
      DivModUnique(|ExpandHrp(hrp) + bits|, 5, 2 * |hrp| + 1 + |data|, 0);
      Some(Polymod(ExpandHrp(hrp) + bits) == sum)
  }

  /** Why a string is not accepted. The source throws one and the same
      message-less exception for every rejection; the kinds, and the order
      in which they are reported, are this model's refinement. */
  datatype DecodeError =
    | MissingSeparator
    | TooShort
    | PrefixMismatch
    | MixedCase
    | InvalidCharacter
    | ChecksumMismatch

  /** A decoded string: its lower-case prefix and its payload. */
  datatype Decoded = Decoded(hrp: string, data: seq<Byte>)

  /** Whether the lower-cased input starts with the expected prefix and the
      separator, and the last separator sits right after it. */
  predicate PrefixMatches(c: Codec, lc: string, sp: int)
    ensures PrefixMatches(c, lc, sp) <==>
      c.hrp.None? || (sp == |c.hrp.value| < |lc| && lc[..sp] == c.hrp.value && lc[sp] == '1')
  {
    if c.hrp.None? then true
    else
      StartsWithSeparator(lc, c.hrp.value);
      StartsWith(lc, c.hrp.value + "1") && |c.hrp.value| == sp
  }

  /** Whether the letters of a string are all lower case or all upper case. */
  predicate SingleCase(code: string)
    ensures SingleCase(code) <==>
      || (forall i :: 0 <= i < |code| ==> !IsUpper(code[i]))
      || (forall i :: 0 <= i < |code| ==> !IsLower(code[i]))
  {
    LowerFixed(code);
    UpperFixed(code);
    ToLower(code) == code || ToUpper(code) == code
  }

  /** The part of `decodeMap` after the checks on the shape of the string:
      `lc` is the lower-cased input and `sp` its last separator. */
  function DecodeParts(sum: nat, lc: string, sp: nat): (r: Result<Decoded, DecodeError>)
    requires sp + 7 <= |lc|
    ensures r.Ok? ==> r.value.hrp == lc[..sp]
    ensures r.Ok? ==> VerifyChecksum(sum, lc[..sp], lc[sp + 1..]) == Some(true)
    ensures r.Ok? ==> DecodeBytes(lc[sp + 1..|lc| - 6]) == Some(r.value.data)
    ensures r.Err? ==> r.error == InvalidCharacter || r.error == ChecksumMismatch
  {
    var h, vs := lc[..sp], lc[sp + 1..];
    match VerifyChecksum(sum, h, vs)
    case None => Err(InvalidCharacter)
    case Some(false) => Err(ChecksumMismatch)
    case Some(true) =>
      assert vs[..|vs| - 6] == lc[sp + 1..|lc| - 6];
      match DecodeBytes(vs[..|vs| - 6])
      case None => Err(InvalidCharacter)
      case Some(data) => Ok(Decoded(h, data))
  }

  /** The checks of `decodeMap`, given the position
      `sp` of the last separator, the lower-cased input `lc` (as long as the
      input) and whether the input's case is uniform. The source tests the
      separator, the length and the prefix in one condition, prefix first,
      and throws the same exception for each; the order separator, length,
      prefix is this model's. The case and checksum checks follow, as in the
      source. */
  function DecodeChecked(c: Codec, sp: int, lc: string, single: bool): (r: Result<Decoded, DecodeError>)
    ensures r == Err(MissingSeparator) <==> sp < 0
    ensures r.Ok? ==> 0 <= sp <= |lc| && r.value.hrp == lc[..sp] && single
    ensures r == Err(MixedCase) ==> !single
  {
    if sp < 0 then Err(MissingSeparator)
    else if |lc| < sp + 7 then Err(TooShort)
    else if !PrefixMatches(c, lc, sp) then Err(PrefixMismatch)
    else if !single then Err(MixedCase)
    else DecodeParts(c.sum, lc, sp)
  }

  /** `decodeMap`: splits at the last separator, checks the length, the
      expected prefix, the case and the checksum, and decodes the symbols
      before the last six. */
  function DecodeMap(c: Codec, code: string): (r: Result<Decoded, DecodeError>)
    ensures r == Err(MissingSeparator) <==> '1' !in code
    ensures r.Ok? ==> '1' in code && r.value.hrp == ToLower(code)[..LastIndexOf(code, '1')]
    ensures r.Ok? ==> SingleCase(code)
  {
    DecodeChecked(c, LastIndexOf(code, '1'), ToLower(code), SingleCase(code))
  }

  /** `decode`: the payload of `decodeMap`. */
  function Decode(c: Codec, code: string): (r: Result<seq<Byte>, DecodeError>)
    ensures r.Ok? <==> DecodeMap(c, code).Ok?
    ensures r.Ok? ==> r.value == DecodeMap(c, code).value.data
  {
    match DecodeMap(c, code)
    case Ok(d) => Ok(d.data)
    case Err(e) => Err(e)
  }
}
