/** The Bech32 flavour of base 32: the 32-symbol alphabet of BIP-173, the
    mapping between 5-bit groups and symbols, and the repacking of bytes
    into groups (zero-padding the last group) and of groups back into bytes
    (discarding leftover bits). */
module Base32 {
  import opened Wrappers
  import opened Bitwise
  import opened BitPacket
  import opened Text

  /** The symbol of a group: the alphabet `qpzry9x8gf2tvdw0s3jn54khce6mua7l`
      of BIP-173, in value order. */
  function CharOf(g: Group): char
  {
    match g
    case 0 => 'q'
    case 1 => 'p'
    case 2 => 'z'
    case 3 => 'r'
    case 4 => 'y'
    case 5 => '9'
    case 6 => 'x'
    case 7 => '8'
    case 8 => 'g'
    case 9 => 'f'
    case 10 => '2'
    case 11 => 't'
    case 12 => 'v'
    case 13 => 'd'
    case 14 => 'w'
    case 15 => '0'
    case 16 => 's'
    case 17 => '3'
    case 18 => 'j'
    case 19 => 'n'
    case 20 => '5'
    case 21 => '4'
    case 22 => 'k'
    case 23 => 'h'
    case 24 => 'c'
    case 25 => 'e'
    case 26 => '6'
    case 27 => 'm'
    case 28 => 'u'
    case 29 => 'a'
    case 30 => '7'
    case _ => 'l'
  }

  /** The group a symbol stands for, if the character is a symbol. */
  function ValueOf(c: char): (r: Option<Group>)
    ensures r.Some? ==> CharOf(r.value) == c
  {
    match c
    case 'q' => Some(0)
    case 'p' => Some(1)
    case 'z' => Some(2)
    case 'r' => Some(3)
    case 'y' => Some(4)
    case '9' => Some(5)
    case 'x' => Some(6)
    case '8' => Some(7)
    case 'g' => Some(8)
    case 'f' => Some(9)
    case '2' => Some(10)
    case 't' => Some(11)
    case 'v' => Some(12)
    case 'd' => Some(13)
    case 'w' => Some(14)
    case '0' => Some(15)
    case 's' => Some(16)
    case '3' => Some(17)
    case 'j' => Some(18)
    case 'n' => Some(19)
    case '5' => Some(20)
    case '4' => Some(21)
    case 'k' => Some(22)
    case 'h' => Some(23)
    case 'c' => Some(24)
    case 'e' => Some(25)
    case '6' => Some(26)
    case 'm' => Some(27)
    case 'u' => Some(28)
    case 'a' => Some(29)
    case '7' => Some(30)
    case 'l' => Some(31)
    case _ => None
  }

  /** A character of the alphabet. */
  predicate IsSymbol(c: char)
  {
    ValueOf(c).Some?
  }

  /** Each group as its symbol. */
  function EncodeGroups(gs: seq<Group>): (r: string)
    ensures |r| == |gs|
    ensures forall i :: 0 <= i < |gs| ==> IsSymbol(r[i])
  {
    if gs == [] then [] else [CharOf(gs[0])] + EncodeGroups(gs[1..])
  }

  /** Each symbol as its group; `None` if some character is not a symbol. */
  function DecodeChars(s: string): (r: Option<seq<Group>>)
    ensures r.Some? <==> forall i :: 0 <= i < |s| ==> IsSymbol(s[i])
    ensures r.Some? ==> EncodeGroups(r.value) == s
  {
    if s == [] then Some([])
    else
      match ValueOf(s[0])
      case None => None
      case Some(g) =>
        match DecodeChars(s[1..])
        case None => None
        case Some(gs) => Some([g] + gs)
  }

  /** The zero bits that complete `n` bytes to whole groups:
      `5 - (n * 8 % 5)` when that remainder is not zero. */
  function Pad(n: nat): (r: nat)
    ensures r < 5
    ensures (8 * n + r) % 5 == 0
  {
    if n * 8 % 5 > 0 then 5 - n * 8 % 5 else 0
  }

  /** The groups of a byte sequence, the last one padded with zero bits. */
  function ToGroups(bs: seq<Byte>): (r: seq<Group>)
  {
    ReadGroups(WriteBytes(bs) + Zeros(Pad(|bs|)))
  }

  /** `BASE32.encode`: the symbols of the groups of `bs`. */
  function EncodeBytes(bs: seq<Byte>): (r: string)
    ensures |r| == (8 * |bs| + 4) / 5
    ensures forall i :: 0 <= i < |r| ==> IsSymbol(r[i])
  {
    EncodeGroups(ToGroups(bs))
  }

  /** `BASE32.decodePacket`: the bits of the groups the symbols stand for. */
  function DecodePacket(s: string): (r: Option<Bits>)
    ensures r.Some? <==> forall i :: 0 <= i < |s| ==> IsSymbol(s[i])
    ensures r.Some? ==> |r.value| == 5 * |s|
  {
    match DecodeChars(s)
    case None => None
    case Some(gs) => Some(WriteGroups(gs))
  }

  /** `BASE32.decode`: the whole bytes in the bits of the symbols; the
      fewer than eight bits left over are dropped. */
  function DecodeBytes(s: string): (r: Option<seq<Byte>>)
    ensures r.Some? <==> forall i :: 0 <= i < |s| ==> IsSymbol(s[i])
    ensures r.Some? ==> |r.value| == 5 * |s| / 8
  {
    match DecodePacket(s)
    case None => None
    case Some(bits) => Some(ReadBytes(bits))
  }

  /** Every group's symbol stands for that group: the alphabet has no
      repeated symbol. */
  lemma ValueOfCharOf(g: Group)
    ensures ValueOf(CharOf(g)) == Some(g)
  {
  }

  /** No symbol is the separator, and every symbol is its own lower case. */
  lemma AlphabetLower()
    ensures forall g: Group :: CharOf(g) != '1' && !IsUpper(CharOf(g))
  {
  }

  lemma EncodeGroupsAppend(a: seq<Group>, b: seq<Group>)
    ensures EncodeGroups(a + b) == EncodeGroups(a) + EncodeGroups(b)
  {
    var l, r := EncodeGroups(a + b), EncodeGroups(a) + EncodeGroups(b);
    assert |l| == |r|;
    forall i | 0 <= i < |l|
      ensures l[i] == r[i]
    {
      EncodeGroupsAt(a + b, i);
      if i < |a| {
        EncodeGroupsAt(a, i);
      } else {
        EncodeGroupsAt(b, i - |a|);
      }
    }
  }

  /** The `i`-th symbol is the symbol of the `i`-th group. */
  lemma {:induction false} EncodeGroupsAt(gs: seq<Group>, i: nat)
    requires i < |gs|
    ensures EncodeGroups(gs)[i] == CharOf(gs[i])
  {
    if i > 0 {
      EncodeGroupsAt(gs[1..], i - 1);
    }
  }

  /** Symbols decode back to the groups they were made from. */
  lemma {:induction false} DecodeEncodeGroups(gs: seq<Group>)
    ensures DecodeChars(EncodeGroups(gs)) == Some(gs)
  {
    if gs != [] {
      var s := EncodeGroups(gs);
      assert s[0] == CharOf(gs[0]) && s[1..] == EncodeGroups(gs[1..]);
      ValueOfCharOf(gs[0]);
      DecodeEncodeGroups(gs[1..]);
      assert gs == [gs[0]] + gs[1..];
    }
  }

  /** The groups of `bs` carry its bits followed by the zero padding. */
  lemma WriteToGroups(bs: seq<Byte>)
    ensures WriteGroups(ToGroups(bs)) == WriteBytes(bs) + Zeros(Pad(|bs|))
  {
    WriteReadGroups(WriteBytes(bs) + Zeros(Pad(|bs|)));
  }

  /** Fewer than eight zero bits read as no byte. */
  lemma ReadBytesPadding(bs: seq<Byte>, p: nat)
    requires p < 8
    ensures ReadBytes(WriteBytes(bs) + Zeros(p)) == bs
  {
    ReadBytesAppend(WriteBytes(bs), Zeros(p));
    ReadWriteBytes(bs);
    assert bs + [] == bs;
  }

  /** The round trip of the byte codec: decoding what `EncodeBytes` made
      gives the bytes back. */
  lemma DecodeEncodeBytes(bs: seq<Byte>)
    ensures DecodeBytes(EncodeBytes(bs)) == Some(bs)
  {
    DecodeEncodeGroups(ToGroups(bs));
    WriteToGroups(bs);
    ReadBytesPadding(bs, Pad(|bs|));
  }
}
