/** What the codec promises: the checksum symbols are the six groups of the
    checksum, a checksum made for one constant verifies against that
    constant and no other, encoding then decoding gives the payload back,
    and decoding ignores the case of a single-case string. */
module Bech32Properties {
  import opened Wrappers
  import opened Bitwise
  import opened BitPacket
  import opened Checksum
  import opened Base32
  import opened Text
  import opened Bech32

  /** No symbol is the separator or an upper-case letter. */
  lemma SymbolChar(c: char)
    requires IsSymbol(c)
    ensures c != '1' && !IsUpper(c)
  {
    AlphabetLower();
    var g := ValueOf(c).value;
    assert CharOf(g) == c;
  }

  lemma AppendAssoc(a: Bits, b: Bits, c: Bits)
    ensures a + (b + c) == (a + b) + c
  {
  }

  /** The groups of `expandHrp`: the low five bits of each code shifted
      right by five, a zero, and the low five bits of each code. */
  lemma ExpandHrpSeq(hrp: string)
    ensures ReadGroups(ExpandHrp(hrp)) == LowBits(HighCodes(hrp), 5) + ([0] + LowBits(Codes(hrp), 5))
  {
    Pow2Values();
    var a, z, b := WriteInts(HighCodes(hrp), 5), BitsOf(0, 5), WriteInts(Codes(hrp), 5);
    ReadGroupsAppend(a, z + b);
    ReadGroupsAppend(z, b);
    AppendAssoc(a, z, b);
    ReadWriteIntsLow(HighCodes(hrp), 5);
    ReadWriteIntsLow(Codes(hrp), 5);
    ZeroGroup();
  }

  /** Five zero bits read as the one group 0. */
  lemma ZeroGroup()
    ensures ReadGroups(BitsOf(0, 5)) == [0]
  {
    var z := BitsOf(0, 5);
    Pow2Values();
    ReadBitsOf(0, 5);
    assert ReadGroups(z) == [ReadInt(z[..5])] + ReadInts(z[5..], 5);
    assert z[..5] == z;
  }

  /** `expandHrp` as groups: for each character its code shifted right by
      five (low five bits kept), a zero group, then each character's code
      (low five bits kept). */
  lemma ExpandHrpGroups(hrp: string)
    ensures |ReadGroups(ExpandHrp(hrp))| == 2 * |hrp| + 1
    ensures forall i :: 0 <= i < |hrp| ==> ReadGroups(ExpandHrp(hrp))[i] == (Code(hrp[i]) / 32) % 32
    ensures ReadGroups(ExpandHrp(hrp))[|hrp|] == 0
    ensures forall i :: 0 <= i < |hrp| ==> ReadGroups(ExpandHrp(hrp))[|hrp| + 1 + i] == Code(hrp[i]) % 32
  {
    Pow2Values();
    ExpandHrpSeq(hrp);
    var hi, lo := LowBits(HighCodes(hrp), 5), LowBits(Codes(hrp), 5);
    var r := ReadGroups(ExpandHrp(hrp));
    forall i | 0 <= i < |hrp|
      ensures r[i] == (Code(hrp[i]) / 32) % 32 && r[|hrp| + 1 + i] == Code(hrp[i]) % 32
    {
      assert r[i] == hi[i];
      assert r[|hrp| + 1 + i] == lo[i];
    }
  }

  /** `encodeChecksum`: the four bytes of `k << 2` make seven symbols, and
      the first six are the symbols of the six 5-bit groups of `k`. */
  lemma EncodeChecksumGroups(k: nat)
    requires k < Limit
    ensures EncodeChecksum(k) == EncodeGroups(ChecksumGroups(k))
  {
    Pow2Values();
    var x := 4 * k;
    WriteIntBytes(x);
    BitsOfSplit(x, 30, 2);
    ShrDiv(x, 2);
    DivModUnique(x, 4, k, 0);
    assert Shr(x, 2) == k;
    assert Pad(4) == 3;
    var tail := BitsOf(x, 2) + Zeros(3);
    var bits := WriteBytes(IntBytes(x)) + Zeros(Pad(4));
    assert bits == BitsOf(k, 30) + tail;
    ReadGroupsAppend(BitsOf(k, 30), tail);
    ReadDigits(k, 6, 5);
    assert ReadGroups(BitsOf(k, 30)) == ChecksumGroups(k);
    var gs := ReadGroups(bits);
    assert gs == ChecksumGroups(k) + ReadGroups(tail);
    EncodeGroupsAppend(ChecksumGroups(k), ReadGroups(tail));
    assert EncodeBytes(IntBytes(x)) == EncodeGroups(gs);
  }

  /** The symbols of the payload followed by the checksum symbols, which
      decode to the payload groups followed by the checksum groups. */
  lemma DecodeTail(data: seq<Byte>, k: nat)
    requires k < Limit
    ensures DecodePacket(EncodeBytes(data) + EncodeChecksum(k))
         == Some(WriteBytes(data) + Zeros(Pad(|data|)) + WriteGroups(ChecksumGroups(k)))
  {
    EncodeChecksumGroups(k);
    EncodeGroupsAppend(ToGroups(data), ChecksumGroups(k));
    DecodeEncodeGroups(ToGroups(data) + ChecksumGroups(k));
    WriteGroupsAppend(ToGroups(data), ChecksumGroups(k));
    WriteToGroups(data);
  }

  /** Checksum soundness: the payload symbols followed by the checksum that
      `createChecksum` made for constant `sum` verify against a constant
      exactly when that constant is `sum`. */
  lemma ChecksumSound(sum: nat, other: nat, hrp: string, data: seq<Byte>)
    requires sum < Limit
    ensures VerifyChecksum(other, hrp, EncodeBytes(data) + EncodeChecksum(CreateChecksum(sum, hrp, data)))
         == Some(other == sum)
  {
    var k := CreateChecksum(sum, hrp, data);
    var e, p := ExpandHrp(hrp), WriteBytes(data) + Zeros(Pad(|data|));
    var cg := ChecksumGroups(k);
    DecodeTail(data, k);
    WriteToGroups(data);
    var ep := e + p;
    var m := 2 * |hrp| + 1 + |ToGroups(data)|;
    assert |ep| == 5 * m;
    DivModUnique(|ep|, 5, m, 0);
    var s := Polymod(ep);
    // The reduction at the checksum slot, before it is filled.
    PolymodSplit(ep, Zeros(30));
    ReadZeros(6);
    assert ChecksumInput(hrp, data) == ep + Zeros(30);
    assert Polymod(ChecksumInput(hrp, data)) == PolymodFrom(s, ReadGroups(Zeros(30)));
    assert ReadGroups(Zeros(30)) == ZeroGroups(6);
    assert k == Xor(PolymodFrom(s, ZeroGroups(6)), sum);
    // The reduction over the filled slot.
    var full := ep + WriteGroups(cg);
    assert |full| == 5 * (m + 6);
    DivModUnique(|full|, 5, m + 6, 0);
    AppendAssoc(e, p, WriteGroups(cg));
    PolymodSplit(ep, WriteGroups(cg));
    ReadWriteGroups(cg);
    Residue(s, sum);
    assert Polymod(full) == sum;
  }

  /** The character at `i` after the separator comes from `tail`. */
  lemma JoinAt(h: string, tail: string, i: int)
    requires |h| < i < |h| + 1 + |tail|
    ensures (h + "1" + tail)[i] == tail[i - |h| - 1]
  {
  }

  /** The prefix and the tail are recovered by slicing around the
      separator. */
  lemma JoinParts(h: string, tail: string)
    ensures (h + "1" + tail)[..|h|] == h && (h + "1" + tail)[|h| + 1..] == tail
  {
  }

  /** A lower-case prefix, the separator and a tail without upper-case
      letters make a lower-case string. */
  lemma JoinLower(h: string, tail: string)
    requires ToLower(h) == h
    requires forall j :: 0 <= j < |tail| ==> !IsUpper(tail[j])
    ensures ToLower(h + "1" + tail) == h + "1" + tail
  {
    var s := h + "1" + tail;
    LowerFixed(h);
    forall i | 0 <= i < |s|
      ensures !IsUpper(s[i])
    {
      if i < |h| {
        assert s[i] == h[i];
      } else if i > |h| {
        JoinAt(h, tail, i);
      }
    }
    LowerFixed(s);
  }

  /** With no separator in the tail, the last separator is the one after
      the prefix. */
  lemma JoinLast(h: string, tail: string)
    requires forall j :: 0 <= j < |tail| ==> tail[j] != '1'
    ensures LastIndexOf(h + "1" + tail, '1') == |h|
  {
    var s := h + "1" + tail;
    var sp := LastIndexOf(s, '1');
    assert s[|h|] == '1';
    if sp > |h| {
      JoinAt(h, tail, sp);
    }
  }

  /** The shape of an encoded string: lower case throughout, the last
      separator right after the prefix, and after it the payload symbols
      and the checksum symbols. */
  lemma EncodeShape(c: Codec, data: seq<Byte>)
    requires ValidCodec(c) && c.hrp.Some?
    ensures ToLower(Encode(c, data)) == Encode(c, data)
    ensures LastIndexOf(Encode(c, data), '1') == |c.hrp.value|
    ensures Encode(c, data)[..|c.hrp.value|] == c.hrp.value
    ensures Encode(c, data)[|c.hrp.value| + 1..]
         == EncodeBytes(data) + EncodeChecksum(CreateChecksum(c.sum, c.hrp.value, data))
  {
    var h, k := c.hrp.value, CreateChecksum(c.sum, c.hrp.value, data);
    var tail := EncodeBytes(data) + EncodeChecksum(k);
    EncodeChecksumGroups(k);
    assert forall j :: 0 <= j < |tail| ==> IsSymbol(tail[j]) by {
      var eb, ec := EncodeBytes(data), EncodeChecksum(k);
      forall j | 0 <= j < |tail|
        ensures IsSymbol(tail[j])
      {
        if j < |eb| {
          assert tail[j] == eb[j];
        } else {
          assert tail[j] == ec[j - |eb|];
        }
      }
    }
    forall j | 0 <= j < |tail|
      ensures tail[j] != '1' && !IsUpper(tail[j])
    {
      SymbolChar(tail[j]);
    }
    JoinLower(h, tail);
    JoinLast(h, tail);
    JoinParts(h, tail);
  }

  /** Slicing from `a` and then taking `b - a` is slicing from `a` to `b`. */
  lemma DropTake(s: string, a: nat, b: nat)
    requires a <= b <= |s|
    ensures s[a..][..b - a] == s[a..b]
  {
  }

  /** The front part of a join is recovered by taking its length. */
  lemma TakeFront(x: string, y: string)
    ensures (x + y)[..|x|] == x && (x + y)[..|x + y| - |y|] == x
  {
  }

  /** The checksum and payload step accepts a string whose checksum holds
      and whose symbols before the checksum decode. */
  lemma PartsAccept(sum: nat, lc: string, sp: nat, h: string, tail: string, eb: string, data: seq<Byte>)
    requires sp + 7 <= |lc|
    requires lc[..sp] == h && lc[sp + 1..] == tail && lc[sp + 1..|lc| - 6] == eb
    requires VerifyChecksum(sum, h, tail) == Some(true) && DecodeBytes(eb) == Some(data)
    ensures DecodeParts(sum, lc, sp) == Ok(Decoded(h, data))
  {
  }

  /** A lower-case string with its last separator at `sp`, long enough and
      with the expected prefix, goes on to the checksum and payload step. */
  lemma ShapeAccept(c: Codec, s: string, sp: nat)
    requires SingleCase(s) && LastIndexOf(s, '1') == sp
    requires sp + 7 <= |s| && PrefixMatches(c, ToLower(s), sp)
    ensures DecodeMap(c, s) == DecodeParts(c.sum, ToLower(s), sp)
  {
  }

  /** The slices of a joined string that decoding looks at. */
  lemma JoinSlices(h: string, eb: string, ck: string)
    requires |ck| == 6
    ensures |h + "1" + (eb + ck)| == |h| + 7 + |eb|
    ensures (h + "1" + (eb + ck))[..|h| + 1] == h + "1"
    ensures (h + "1" + (eb + ck))[..|h|] == h
    ensures (h + "1" + (eb + ck))[|h| + 1..] == eb + ck
    ensures (h + "1" + (eb + ck))[|h| + 1..|h + "1" + (eb + ck)| - 6] == eb
  {
    var s := h + "1" + (eb + ck);
    JoinParts(h, eb + ck);
    DropTake(s, |h| + 1, |s| - 6);
    TakeFront(eb, ck);
  }

  /** A lower-case joined string passes the shape checks. */
  lemma JoinedShape(d: Codec, h: string, eb: string, ck: string)
    requires ToLower(h + "1" + (eb + ck)) == h + "1" + (eb + ck)
    requires LastIndexOf(h + "1" + (eb + ck), '1') == |h| && |ck| == 6
    requires d.hrp.None? || d.hrp == Some(h)
    ensures DecodeMap(d, h + "1" + (eb + ck)) == DecodeParts(d.sum, h + "1" + (eb + ck), |h|)
  {
    var s := h + "1" + (eb + ck);
    JoinSlices(h, eb, ck);
    assert PrefixMatches(d, s, |h|);
    assert SingleCase(s);
    ShapeAccept(d, s, |h|);
  }

  /** A joined string whose checksum holds and whose payload symbols decode
      passes the checksum and payload step. */
  lemma JoinedParts(sum: nat, h: string, eb: string, ck: string, data: seq<Byte>)
    requires |ck| == 6
    requires VerifyChecksum(sum, h, eb + ck) == Some(true) && DecodeBytes(eb) == Some(data)
    ensures DecodeParts(sum, h + "1" + (eb + ck), |h|) == Ok(Decoded(h, data))
  {
    JoinSlices(h, eb, ck);
    PartsAccept(sum, h + "1" + (eb + ck), |h|, h, eb + ck, eb, data);
  }

  /** A lower-case string made of a prefix, the separator, payload symbols
      and six checksum symbols that verify is decoded to the prefix and the
      payload. */
  lemma AcceptJoined(d: Codec, h: string, eb: string, ck: string, data: seq<Byte>)
    requires ToLower(h + "1" + (eb + ck)) == h + "1" + (eb + ck)
    requires LastIndexOf(h + "1" + (eb + ck), '1') == |h| && |ck| == 6
    requires VerifyChecksum(d.sum, h, eb + ck) == Some(true) && DecodeBytes(eb) == Some(data)
    requires d.hrp.None? || d.hrp == Some(h)
    ensures DecodeMap(d, h + "1" + (eb + ck)) == Ok(Decoded(h, data))
  {
    JoinedShape(d, h, eb, ck);
    JoinedParts(d.sum, h, eb, ck, data);
  }

  /** The round trip: a codec with the same constant, expecting the same
      prefix or none, decodes what `encode` made to its prefix and payload. */
  lemma RoundTrip(c: Codec, d: Codec, data: seq<Byte>)
    requires ValidCodec(c) && c.hrp.Some?
    requires d.sum == c.sum && (d.hrp.None? || d.hrp == c.hrp)
    ensures DecodeMap(d, Encode(c, data)) == Ok(Decoded(c.hrp.value, data))
  {
    var h := c.hrp.value;
    var eb, ck := EncodeBytes(data), EncodeChecksum(CreateChecksum(c.sum, h, data));
    EncodeShape(c, data);
    ChecksumSound(c.sum, c.sum, h, data);
    DecodeEncodeBytes(data);
    AcceptJoined(d, h, eb, ck, data);
  }

  /** `decode` returns the payload `encode` was given. */
  lemma DecodeEncode(c: Codec, data: seq<Byte>)
    requires ValidCodec(c) && c.hrp.Some?
    ensures Decode(c, Encode(c, data)) == Ok(data)
  {
    RoundTrip(c, c, data);
  }

  /** Variant separation: a string encoded with one constant is rejected
      by a codec of the other variant for its checksum. */
  lemma VariantSeparation(c: Codec, d: Codec, data: seq<Byte>)
    requires ValidCodec(c) && ValidCodec(d) && c.hrp.Some?
    requires d.sum != c.sum && (d.hrp.None? || d.hrp == c.hrp)
    ensures DecodeMap(d, Encode(c, data)) == Err(ChecksumMismatch)
  {
    var h, s := c.hrp.value, Encode(c, data);
    EncodeShape(c, data);
    ChecksumSound(c.sum, d.sum, h, data);
    assert s[..|h| + 1] == h + "1";
    assert PrefixMatches(d, ToLower(s), LastIndexOf(s, '1'));
  }

  /** `decodeMap` looks at its input only through the last separator, the
      length, the lower-cased form and whether the case is uniform. */
  lemma DecodeMapCongruent(c: Codec, x: string, y: string)
    requires LastIndexOf(x, '1') == LastIndexOf(y, '1') && |x| == |y|
    requires ToLower(x) == ToLower(y) && SingleCase(x) == SingleCase(y)
    ensures DecodeMap(c, x) == DecodeMap(c, y)
  {
  }

  /** The case check only turns a result into the mixed-case error. */
  lemma CheckedCase(c: Codec, sp: int, lc: string)
    ensures DecodeChecked(c, sp, lc, false) == Err(MixedCase)
         || DecodeChecked(c, sp, lc, false) == DecodeChecked(c, sp, lc, true)
  {
  }

  /** Decoding does not depend on the case of the input: the upper-case and
      the lower-case form of a string decode alike, and so does the string
      itself unless it mixes cases, which is rejected. */
  lemma CaseInsensitive(c: Codec, s: string)
    ensures DecodeMap(c, ToUpper(s)) == DecodeMap(c, ToLower(s))
    ensures DecodeMap(c, ToLower(s)) != Err(MixedCase)
    ensures DecodeMap(c, s) == Err(MixedCase) || DecodeMap(c, s) == DecodeMap(c, ToLower(s))
  {
    LastIndexOfCase(s);
    LowerUpper(s);
    DecodeMapCongruent(c, ToUpper(s), ToLower(s));
    assert SingleCase(ToLower(s));
    if SingleCase(s) {
      DecodeMapCongruent(c, s, ToLower(s));
    } else {
      CheckedCase(c, LastIndexOf(s, '1'), ToLower(s));
    }
  }

  /** A string whose letters are neither all lower nor all upper case is
      never accepted: it is reported as mixed case, or its lower case is
      rejected too (`RejectMixedCase` states when it is mixed case). */
  lemma MixedCaseRejected(c: Codec, s: string)
    requires exists i :: 0 <= i < |s| && IsUpper(s[i])
    requires exists j :: 0 <= j < |s| && IsLower(s[j])
    ensures DecodeMap(c, s).Err?
    ensures DecodeMap(c, s) == Err(MixedCase) || DecodeMap(c, ToLower(s)).Err?
  {
    var i :| 0 <= i < |s| && IsUpper(s[i]);
    var j :| 0 <= j < |s| && IsLower(s[j]);
    LowerFixed(s);
    UpperFixed(s);
    assert !SingleCase(s);
    CaseInsensitive(c, s);
  }

  /** A string starting with a prefix and the separator starts with the
      prefix. */
  lemma StartsWithPrefix(lc: string, h: string)
    requires StartsWith(lc, h + "1")
    ensures lc[..|h|] == h
  {
    assert lc[..|h|] == lc[..|h| + 1][..|h|];
  }

  /** An accepted string passed the shape checks and was decoded by the
      checksum and payload step. */
  lemma AcceptedParts(c: Codec, s: string)
    requires DecodeMap(c, s).Ok?
    ensures 0 <= LastIndexOf(s, '1') && LastIndexOf(s, '1') + 7 <= |ToLower(s)| == |s|
    ensures PrefixMatches(c, ToLower(s), LastIndexOf(s, '1'))
    ensures DecodeMap(c, s) == DecodeParts(c.sum, ToLower(s), LastIndexOf(s, '1'))
  {
  }

  /** The payload of an accepted string is what its symbols before the
      checksum decode to. */
  lemma PartsPayload(sum: nat, lc: string, sp: nat)
    requires sp + 7 <= |lc| && DecodeParts(sum, lc, sp).Ok?
    ensures DecodeBytes(lc[sp + 1..|lc| - 6]) == Some(DecodeParts(sum, lc, sp).value.data)
  {
  }

  /** What an accepted string satisfies: a separator with at least seven
      characters from it to the end, the expected prefix, a checksum that
      reaches the codec's constant, and a payload decoded from the symbols
      between the separator and the last six. */
  lemma DecodeSound(c: Codec, s: string)
    requires DecodeMap(c, s).Ok?
    ensures LastIndexOf(s, '1') >= 0 && LastIndexOf(s, '1') + 7 <= |s|
    ensures c.hrp.Some? ==> DecodeMap(c, s).value.hrp == c.hrp.value
    ensures VerifyChecksum(c.sum, DecodeMap(c, s).value.hrp, ToLower(s)[LastIndexOf(s, '1') + 1..]) == Some(true)
    ensures DecodeBytes(ToLower(s)[LastIndexOf(s, '1') + 1..|ToLower(s)| - 6]) == Some(DecodeMap(c, s).value.data)
  {
    var sp, lc := LastIndexOf(s, '1'), ToLower(s);
    AcceptedParts(c, s);
    PartsPayload(c.sum, lc, sp);
    if c.hrp.Some? {
      StartsWithPrefix(lc, c.hrp.value);
    }
  }

  /** A checksum that verifies leaves only symbols before it, so the
      checksum and payload step accepts. */
  lemma PartsOk(sum: nat, lc: string, sp: nat)
    requires sp + 7 <= |lc| && VerifyChecksum(sum, lc[..sp], lc[sp + 1..]) == Some(true)
    ensures DecodeParts(sum, lc, sp).Ok?
  {
    var vs := lc[sp + 1..];
    var pay := vs[..|vs| - 6];
    assert pay == lc[sp + 1..|lc| - 6];
    forall i | 0 <= i < |pay|
      ensures IsSymbol(pay[i])
    {
      assert pay[i] == vs[i];
    }
  }

  /** The conditions under which `decodeMap` accepts a string: a last
      separator with at least six characters after it, the expected prefix,
      a single case, and a checksum that reaches the codec's constant. */
  predicate Acceptable(c: Codec, s: string)
  {
    var sp, lc := LastIndexOf(s, '1'), ToLower(s);
    && 0 <= sp && sp + 7 <= |s| && PrefixMatches(c, lc, sp) && SingleCase(s)
    && VerifyChecksum(c.sum, lc[..sp], lc[sp + 1..]) == Some(true)
  }

  /** An accepted string meets the conditions. */
  lemma AcceptedAcceptable(c: Codec, s: string)
    requires DecodeMap(c, s).Ok?
    ensures Acceptable(c, s)
  {
    AcceptedParts(c, s);
  }

  /** A string that meets the conditions is accepted. */
  lemma AcceptableAccepted(c: Codec, s: string)
    requires Acceptable(c, s)
    ensures DecodeMap(c, s).Ok?
  {
    var sp, lc := LastIndexOf(s, '1'), ToLower(s);
    assert 0 <= sp && sp + 7 <= |lc| && PrefixMatches(c, lc, sp) && SingleCase(s);
    assert VerifyChecksum(c.sum, lc[..sp], lc[sp + 1..]) == Some(true);
    PartsOk(c.sum, lc, sp);
    var r := DecodeParts(c.sum, lc, sp);
    assert r.Ok?;
    ShapeAccept(c, s, sp);
    assert DecodeMap(c, s) == r;
  }

  /** `decodeMap` accepts exactly the strings that meet the conditions. */
  lemma DecodeAccepts(c: Codec, s: string)
    ensures DecodeMap(c, s).Ok? <==> Acceptable(c, s)
  {
    if DecodeMap(c, s).Ok? {
      AcceptedAcceptable(c, s);
    }
    if Acceptable(c, s) {
      AcceptableAccepted(c, s);
    }
  }

  /** Fewer than six characters after the last separator: too short. */
  lemma RejectTooShort(c: Codec, s: string)
    requires 0 <= LastIndexOf(s, '1') && |s| < LastIndexOf(s, '1') + 7
    ensures DecodeMap(c, s) == Err(TooShort)
  {
    assert DecodeMap(c, s) == DecodeChecked(c, LastIndexOf(s, '1'), ToLower(s), SingleCase(s));
  }

  /** Long enough, but a configured prefix that does not end right before
      the last separator: a prefix mismatch. */
  lemma RejectPrefix(c: Codec, s: string)
    requires 0 <= LastIndexOf(s, '1') && LastIndexOf(s, '1') + 7 <= |s| && c.hrp.Some?
    requires !StartsWith(ToLower(s), c.hrp.value + "1") || |c.hrp.value| != LastIndexOf(s, '1')
    ensures DecodeMap(c, s) == Err(PrefixMismatch)
  {
    assert DecodeMap(c, s) == DecodeChecked(c, LastIndexOf(s, '1'), ToLower(s), SingleCase(s));
  }

  /** Shape and prefix pass, but the string has both an upper-case and a
      lower-case letter: mixed case. */
  lemma RejectMixedCase(c: Codec, s: string, i: nat, j: nat)
    requires 0 <= LastIndexOf(s, '1') && LastIndexOf(s, '1') + 7 <= |s|
    requires PrefixMatches(c, ToLower(s), LastIndexOf(s, '1'))
    requires i < |s| && j < |s| && IsUpper(s[i]) && IsLower(s[j])
    ensures DecodeMap(c, s) == Err(MixedCase)
  {
    var sp, lc := LastIndexOf(s, '1'), ToLower(s);
    assert !SingleCase(s);
    CheckedMixed(c, sp, lc);
    assert DecodeMap(c, s) == DecodeChecked(c, sp, lc, false);
  }

  /** Past the shape and prefix checks, a mixed-case input is reported as
      such. */
  lemma CheckedMixed(c: Codec, sp: int, lc: string)
    requires 0 <= sp && sp + 7 <= |lc| && PrefixMatches(c, lc, sp)
    ensures DecodeChecked(c, sp, lc, false) == Err(MixedCase)
  {
  }

  /** Shape, prefix and case pass, but the checksum misses the codec's
      constant: a checksum mismatch. */
  lemma RejectChecksum(c: Codec, s: string)
    requires 0 <= LastIndexOf(s, '1') && LastIndexOf(s, '1') + 7 <= |s|
    requires PrefixMatches(c, ToLower(s), LastIndexOf(s, '1')) && SingleCase(s)
    requires VerifyChecksum(c.sum, ToLower(s)[..LastIndexOf(s, '1')], ToLower(s)[LastIndexOf(s, '1') + 1..]) == Some(false)
    ensures DecodeMap(c, s) == Err(ChecksumMismatch)
  {
    var sp, lc := LastIndexOf(s, '1'), ToLower(s);
    assert DecodeMap(c, s) == DecodeChecked(c, sp, lc, true);
    assert DecodeChecked(c, sp, lc, true) == DecodeParts(c.sum, lc, sp);
  }

  /** `new Bech32(hrp, m)` then `encode` then `decode` on the same codec
      recovers the payload, whatever the case of the prefix given. */
  lemma NewCodecRoundTrip(hrp: string, m: bool, data: seq<Byte>)
    requires '1' !in hrp
    ensures NewCodec(Some(hrp), m).Ok?
    ensures Decode(NewCodec(Some(hrp), m).value, Encode(NewCodec(Some(hrp), m).value, data)) == Ok(data)
  {
    DecodeEncode(NewCodec(Some(hrp), m).value, data);
  }
}
