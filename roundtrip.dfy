/**
 * Decoding what `pg_b64_encode` produced gives back the original bytes, and
 * a few fixed inputs behave as the standard and the source dictate.
 */
module Base64RoundTrip {
  import opened Base64Tables
  import opened Base64Encoder
  import opened Base64Decoder
  import opened Base64DecodeShape

  /** Four loop iterations over `cs`, from outcome `o`. */
  function Steps4(o: Option<DecodeState>, cs: seq<byte>): Option<DecodeState>
    requires |cs| == 4
  {
    Next(Next(Next(Next(o, cs[0]), cs[1]), cs[2]), cs[3])
  }

  lemma Run4(s: seq<byte>, n: nat)
    requires n + 4 <= |s|
    ensures RunPrefix(s, n + 4) == Steps4(RunPrefix(s, n), s[n..n + 4])
  {
    assert RunPrefix(s, n + 4) == Next(RunPrefix(s, n + 3), s[n + 3]);
    assert RunPrefix(s, n + 3) == Next(RunPrefix(s, n + 2), s[n + 2]);
    assert RunPrefix(s, n + 2) == Next(RunPrefix(s, n + 1), s[n + 1]);
  }

  /** The decoder reads an encoder symbol as the value it was made from, and queues it while fewer than three are pending. */
  lemma ReadSymbol(pend: seq<sextet>, end: nat, out: seq<byte>, v: sextet)
    requires |pend| < 3
    ensures Next(Some(DecodeState(pend, end, out)), Symbol(v)) == Some(DecodeState(pend + [v], end, out))
  {
    SymbolInverse(v);
  }

  /** The fourth symbol flushes the accumulator. */
  lemma ReadLastSymbol(s0: sextet, s1: sextet, s2: sextet, end: nat, out: seq<byte>, v: sextet)
    ensures Next(Some(DecodeState([s0, s1, s2], end, out)), Symbol(v))
            == Some(DecodeState([], end, out + UnitBytes(s0, s1, s2, v, end)))
  {
    SymbolInverse(v);
  }

  /** The bytes the decoder rebuilds from the fields of a group are the group's bytes. */
  lemma FieldsBytes(b0: byte, b1: byte, b2: byte)
    ensures Byte0(Field0(b0), Field1(b0, b1)) == b0
    ensures Byte1(Field1(b0, b1), Field2(b1, b2)) == b1
    ensures Byte2(Field2(b1, b2), Field3(b2)) == b2
  {
    assert Field1(b0, b1) / 16 == b0 % 4;
    assert Field1(b0, b1) % 16 == b1 / 16;
    assert Field2(b1, b2) / 4 == b1 % 16;
    assert Field2(b1, b2) % 4 == b2 / 64;
  }

  /** A full group's four symbols, read with no end marker and nothing pending, append its three bytes. */
  lemma GroupDecodes(out: seq<byte>, b0: byte, b1: byte, b2: byte)
    ensures Steps4(Some(DecodeState([], 0, out)), EncodeGroup(b0, b1, b2))
            == Some(DecodeState([], 0, out + [b0, b1, b2]))
  {
    var f0, f1, f2, f3 := Field0(b0), Field1(b0, b1), Field2(b1, b2), Field3(b2);
    ReadSymbol([], 0, out, f0);
    assert [] + [f0 as sextet] == [f0];
    ReadSymbol([f0], 0, out, f1);
    assert [f0 as sextet] + [f1] == [f0, f1];
    ReadSymbol([f0, f1], 0, out, f2);
    assert [f0 as sextet, f1] + [f2] == [f0, f1, f2];
    ReadLastSymbol(f0, f1, f2, 0, out, f3);
    FieldsBytes(b0, b1, b2);
    assert UnitBytes(f0, f1, f2, f3, 0) == [b0, b1, b2];
  }

  /** After two symbols, '=' at position 2 sets the end marker to 1 and the next '=' flushes one byte. */
  lemma ReadPadPad(s0: sextet, s1: sextet, out: seq<byte>)
    ensures Next(Next(Some(DecodeState([s0, s1], 0, out)), Pad), Pad)
            == Some(DecodeState([], 1, out + [Byte0(s0, s1)]))
  {
    assert [s0, s1] + [0 as sextet] == [s0, s1, 0];
    assert UnitBytes(s0, s1, 0, 0, 1) == [Byte0(s0, s1)];
  }

  /** After three symbols, '=' at position 3 sets the end marker to 2 and flushes two bytes. */
  lemma ReadPad(s0: sextet, s1: sextet, s2: sextet, out: seq<byte>)
    ensures Next(Some(DecodeState([s0, s1, s2], 0, out)), Pad)
            == Some(DecodeState([], 2, out + [Byte0(s0, s1), Byte1(s1, s2)]))
  {
    assert UnitBytes(s0, s1, s2, 0, 2) == [Byte0(s0, s1), Byte1(s1, s2)];
  }

  /** "xx==": one trailing byte comes back, with the end marker 1. */
  lemma TailOneDecodes(out: seq<byte>, b0: byte)
    ensures Steps4(Some(DecodeState([], 0, out)), EncodeTail([b0]))
            == Some(DecodeState([], 1, out + [b0]))
  {
    var f0, f1 := Field0(b0), Field1(b0, 0);
    var r := EncodeTail([b0]);
    assert r == [Symbol(f0), Symbol(f1), Pad, Pad];
    ReadSymbol([], 0, out, f0);
    assert [] + [f0 as sextet] == [f0];
    var o1 := Next(Some(DecodeState([], 0, out)), r[0]);
    assert o1 == Some(DecodeState([f0], 0, out));
    ReadSymbol([f0], 0, out, f1);
    assert [f0 as sextet] + [f1] == [f0, f1];
    var o2 := Next(o1, r[1]);
    assert o2 == Some(DecodeState([f0, f1], 0, out));
    ReadPadPad(f0, f1, out);
    FieldsBytes(b0, 0, 0);
  }

  /** "xxx=": two trailing bytes come back, with the end marker 2. */
  lemma TailTwoDecodes(out: seq<byte>, b0: byte, b1: byte)
    ensures Steps4(Some(DecodeState([], 0, out)), EncodeTail([b0, b1]))
            == Some(DecodeState([], 2, out + [b0, b1]))
  {
    var f0, f1, f2 := Field0(b0), Field1(b0, b1), Field2(b1, 0);
    var r := EncodeTail([b0, b1]);
    assert r == [Symbol(f0), Symbol(f1), Symbol(f2), Pad];
    ReadSymbol([], 0, out, f0);
    assert [] + [f0 as sextet] == [f0];
    var o1 := Next(Some(DecodeState([], 0, out)), r[0]);
    assert o1 == Some(DecodeState([f0], 0, out));
    ReadSymbol([f0], 0, out, f1);
    assert [f0 as sextet] + [f1] == [f0, f1];
    var o2 := Next(o1, r[1]);
    assert o2 == Some(DecodeState([f0, f1], 0, out));
    ReadSymbol([f0, f1], 0, out, f2);
    assert [f0 as sextet, f1] + [f2] == [f0, f1, f2];
    var o3 := Next(o2, r[2]);
    assert o3 == Some(DecodeState([f0, f1, f2], 0, out));
    ReadPad(f0, f1, f2, out);
    FieldsBytes(b0, b1, 0);
  }

  /** Reading a group's four symbols after a prefix that ended on a group boundary appends the group's bytes. */
  lemma GroupStep(s: seq<byte>, n: nat, out: seq<byte>, b0: byte, b1: byte, b2: byte)
    requires n + 4 <= |s|
    requires RunPrefix(s, n) == Some(DecodeState([], 0, out))
    requires s[n..n + 4] == EncodeGroup(b0, b1, b2)
    ensures RunPrefix(s, n + 4) == Some(DecodeState([], 0, out + [b0, b1, b2]))
  {
    Run4(s, n);
    GroupDecodes(out, b0, b1, b2);
  }

  /** The first `3 * k` bytes are the first `3 * k - 3` followed by the next three. */
  lemma PrefixGrows(src: seq<byte>, k: nat)
    requires 0 < k && 3 * k <= |src|
    ensures src[..3 * k - 3] + [src[3 * k - 3], src[3 * k - 2], src[3 * k - 1]] == src[..3 * k]
  {
  }

  lemma SplitAt(src: seq<byte>, i: nat)
    requires i <= |src|
    ensures src[..i] + src[i..] == src
  {
  }

  /** A string that starts with the encoding of `k` groups starts with that of `k - 1`, then group `k - 1`. */
  lemma GroupsPrefix(src: seq<byte>, k: nat, s: seq<byte>)
    requires 0 < k && 3 * k <= |src| && 4 * k <= |s|
    requires s[..4 * k] == EncodeGroups(src, k)
    ensures s[..4 * k - 4] == EncodeGroups(src, k - 1)
    ensures s[4 * k - 4..4 * k] == EncodeGroup(src[3 * k - 3], src[3 * k - 2], src[3 * k - 1])
  {
    var front := EncodeGroups(src, k - 1);
    assert s[..4 * k - 4] == s[..4 * k][..4 * k - 4] == front;
    assert s[4 * k - 4..4 * k] == s[..4 * k][4 * k - 4..];
  }

  /**
   * Decoding a string that starts with the encoding of the first `k` groups
   * reaches, after those `4 * k` characters, the first `3 * k` bytes with no end marker.
   */
  lemma {:induction false} GroupsRoundTrip(src: seq<byte>, k: nat, s: seq<byte>)
    requires 3 * k <= |src| && 4 * k <= |s|
    requires s[..4 * k] == EncodeGroups(src, k)
    ensures RunPrefix(s, 4 * k) == Some(DecodeState([], 0, src[..3 * k]))
  {
    if k == 0 {
      assert src[..0] == [];
    } else {
      GroupsPrefix(src, k, s);
      GroupsRoundTrip(src, k - 1, s);
      var n := 4 * (k - 1);
      GroupStep(s, n, src[..3 * k - 3], src[3 * k - 3], src[3 * k - 2], src[3 * k - 1]);
      PrefixGrows(src, k);
    }
  }

  /** The encoding begins with its full groups, so the loop reaches the end of them with the bytes they came from. */
  lemma GroupsInEncoded(src: seq<byte>)
    ensures 4 * (|src| / 3) <= |Encoded(src)|
    ensures RunPrefix(Encoded(src), 4 * (|src| / 3)) == Some(DecodeState([], 0, src[..3 * (|src| / 3)]))
  {
    var k := |src| / 3;
    EncodedSplit(src, k, |src| % 3);
    assert Encoded(src)[..4 * k] == EncodeGroups(src, k);
    GroupsRoundTrip(src, k, Encoded(src));
  }

  /** Reading the trailing group after a prefix that ended on a group boundary appends the tail's bytes. */
  lemma TailStep(s: seq<byte>, n: nat, out: seq<byte>, t: seq<byte>)
    requires n + 4 <= |s| && (|t| == 1 || |t| == 2)
    requires RunPrefix(s, n) == Some(DecodeState([], 0, out))
    requires s[n..n + 4] == EncodeTail(t)
    ensures RunPrefix(s, n + 4) == Some(DecodeState([], |t|, out + t))
  {
    Run4(s, n);
    if |t| == 1 {
      assert t == [t[0]];
      TailOneDecodes(out, t[0]);
    } else {
      assert t == [t[0], t[1]];
      TailTwoDecodes(out, t[0], t[1]);
    }
  }

  /** When the length is a multiple of three, the loop ends on a group boundary with every byte written. */
  lemma WholeGroupsRun(src: seq<byte>)
    requires |src| % 3 == 0
    ensures RunPrefix(Encoded(src), |Encoded(src)|) == Some(DecodeState([], 0, src))
  {
    var k := |src| / 3;
    GroupsInEncoded(src);
    EncodedSplit(src, k, 0);
    assert src[..3 * k] == src;
  }

  /** The last four characters of the encoding of a string whose length is not a multiple of three encode its tail. */
  lemma EncodedTailChunk(src: seq<byte>)
    requires |src| % 3 != 0
    ensures |Encoded(src)| == 4 * (|src| / 3) + 4
    ensures Encoded(src)[4 * (|src| / 3)..4 * (|src| / 3) + 4] == EncodeTail(src[3 * (|src| / 3)..])
  {
    var k := |src| / 3;
    EncodedSplit(src, k, |src| % 3);
  }

  /** Otherwise the trailing group sets the end marker to the tail's length and writes its bytes. */
  lemma TailRun(src: seq<byte>)
    requires |src| % 3 != 0
    ensures RunPrefix(Encoded(src), |Encoded(src)|) == Some(DecodeState([], |src| % 3, src))
  {
    var k := |src| / 3;
    var t := src[3 * k..];
    GroupsInEncoded(src);
    EncodedTailChunk(src);
    TailStep(Encoded(src), 4 * k, src[..3 * k], t);
    SplitAt(src, 3 * k);
  }

  /** Decoding the encoding of any byte string gives it back: `pg_b64_decode` inverts `pg_b64_encode`. */
  lemma RoundTrip(src: seq<byte>)
    ensures Decoded(Encoded(src)) == Some(src)
  {
    if |src| % 3 == 0 {
      WholeGroupsRun(src);
    } else {
      TailRun(src);
    }
  }

  /** The encoder's output is always accepted by the decoder. */
  lemma EncodedIsWellFormed(src: seq<byte>)
    ensures WellFormed(Encoded(src))
  {
    RoundTrip(src);
    DecodeAccepts(Encoded(src));
  }

  /** The usual "Man" example: "Man" is "TWFu", "Ma" is "TWE=" and "M" is "TQ==". */
  lemma EncodeExamples()
    ensures Encoded([77, 97, 110]) == [84, 87, 70, 117]
    ensures Encoded([77, 97]) == [84, 87, 69, 61]
    ensures Encoded([77]) == [84, 81, 61, 61]
  {
    assert EncodeGroups([77, 97, 110], 1) == [84, 87, 70, 117];
    assert EncodeGroups([77, 97], 0) == [];
    assert EncodeGroups([77], 0) == [];
  }

  /** "TWFu" decodes to "Man" and "TQ==" to "M". */
  lemma DecodeVectors()
    ensures Decoded([84, 87, 70, 117]) == Some([77, 97, 110])
    ensures Decoded([84, 81, 61, 61]) == Some([77])
  {
    EncodeExamples();
    RoundTrip([77, 97, 110]);
    RoundTrip([77]);
  }

  /** The groups and trailing groups of "foobar" and its prefixes, character by character. */
  lemma FoobarPieces()
    ensures EncodeGroup(102, 111, 111) == [90, 109, 57, 118]
    ensures EncodeGroup(98, 97, 114) == [89, 109, 70, 121]
    ensures EncodeTail([102]) == [90, 103, 61, 61]
    ensures EncodeTail([102, 111]) == [90, 109, 56, 61]
    ensures EncodeTail([98]) == [89, 103, 61, 61]
    ensures EncodeTail([98, 97]) == [89, 109, 69, 61]
  {
  }

  /**
   * The test vectors of section 10 of RFC 4648: "" is "", "f" is "Zg==", "fo"
   * is "Zm8=", "foo" is "Zm9v", "foob" is "Zm9vYg==", "fooba" is "Zm9vYmE="
   * and "foobar" is "Zm9vYmFy".
   */
  lemma Rfc4648Encodings()
    ensures Encoded([]) == []
    ensures Encoded([102]) == [90, 103, 61, 61]
    ensures Encoded([102, 111]) == [90, 109, 56, 61]
    ensures Encoded([102, 111, 111]) == [90, 109, 57, 118]
    ensures Encoded([102, 111, 111, 98]) == [90, 109, 57, 118, 89, 103, 61, 61]
    ensures Encoded([102, 111, 111, 98, 97]) == [90, 109, 57, 118, 89, 109, 69, 61]
    ensures Encoded([102, 111, 111, 98, 97, 114]) == [90, 109, 57, 118, 89, 109, 70, 121]
  {
    FoobarPieces();
    assert EncodeGroups([102], 0) == [];
    assert EncodeGroups([102, 111], 0) == [];
    assert EncodeGroups([102, 111, 111], 1) == [90, 109, 57, 118];
    assert EncodeGroups([102, 111, 111, 98], 1) == [90, 109, 57, 118];
    assert EncodeGroups([102, 111, 111, 98, 97], 1) == [90, 109, 57, 118];
    assert EncodeGroups([102, 111, 111, 98, 97, 114], 1) == [90, 109, 57, 118];
    assert EncodeGroups([102, 111, 111, 98, 97, 114], 2) == [90, 109, 57, 118, 89, 109, 70, 121];
  }

  /** The same vectors decode back: each RFC 4648 encoding yields its input. */
  lemma Rfc4648Decodings()
    ensures Decoded([]) == Some([])
    ensures Decoded([90, 103, 61, 61]) == Some([102])
    ensures Decoded([90, 109, 56, 61]) == Some([102, 111])
    ensures Decoded([90, 109, 57, 118]) == Some([102, 111, 111])
    ensures Decoded([90, 109, 57, 118, 89, 103, 61, 61]) == Some([102, 111, 111, 98])
    ensures Decoded([90, 109, 57, 118, 89, 109, 69, 61]) == Some([102, 111, 111, 98, 97])
    ensures Decoded([90, 109, 57, 118, 89, 109, 70, 121]) == Some([102, 111, 111, 98, 97, 114])
  {
    Rfc4648Encodings();
    RoundTrip([]);
    RoundTrip([102]);
    RoundTrip([102, 111]);
    RoundTrip([102, 111, 111]);
    RoundTrip([102, 111, 111, 98]);
    RoundTrip([102, 111, 111, 98, 97]);
    RoundTrip([102, 111, 111, 98, 97, 114]);
  }

  /**
   * "QQ==" and the lenient "QQ=A" both decode to "A"; "QQ ==" (whitespace),
   * "=AAA" (a '=' at position 0) and "QQ" (an incomplete group) are refused.
   */
  lemma DecodeExamples()
    ensures Decoded([81, 81, 61, 61]) == Some([65])
    ensures Decoded([81, 81, 61, 65]) == Some([65])
    ensures Decoded([81, 81, 32, 61, 61]) == None
    ensures Decoded([61, 65, 65, 65]) == None
    ensures Decoded([81, 81]) == None
  {
    var padded: seq<byte> := [81, 81, 61, 61];
    var lenient: seq<byte> := [81, 81, 61, 65];
    assert Symbol(16) == 81 && Symbol(0) == 65;
    ReadSymbol([], 0, [], 16);
    assert [] + [16 as sextet] == [16];
    ReadSymbol([16], 0, [], 16);
    assert [16 as sextet] + [16] == [16, 16];
    assert RunPrefix(padded, 1) == Next(RunPrefix(padded, 0), 81);
    assert RunPrefix(padded, 2) == Some(DecodeState([16, 16], 0, []));
    ReadPadPad(16, 16, []);
    assert [] + [Byte0(16, 16)] == [65];
    assert RunPrefix(padded, 4) == Next(Next(RunPrefix(padded, 2), 61), 61);
    assert RunPrefix(lenient, 1) == Next(RunPrefix(lenient, 0), 81);
    assert RunPrefix(lenient, 2) == Some(DecodeState([16, 16], 0, []));
    assert [16 as sextet, 16] + [0] == [16, 16, 0];
    assert RunPrefix(lenient, 3) == Some(DecodeState([16, 16, 0], 1, []));
    ReadLastSymbol(16, 16, 0, 1, [], 0);
    assert UnitBytes(16, 16, 0, 0, 1) == [65];
    assert RunPrefix(lenient, 4) == Next(RunPrefix(lenient, 3), 65);
    var spaced: seq<byte> := [81, 81, 32, 61, 61];
    assert RunPrefix(spaced, 3) == None;
    FailureSticks(spaced, 3, 5);
  }
}
