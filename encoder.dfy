/**
 * `pg_b64_encode`: bytes are packed most-significant-first into a 24-bit
 * accumulator; every 3 bytes become four alphabet symbols, and a trailing
 * group of 1 or 2 bytes becomes "xx==" or "xxx=".
 *
 * The specification functions describe the output group by group; the
 * method `Encode` is the byte-at-a-time loop of the source, writing into the
 * caller's buffer, proved to produce exactly `Encoded(src)`.
 */
module Base64Encoder {
  import opened Base64Tables
  import opened Base64Lengths
  import opened Base64Arith

  /** The 24-bit group `b0 << 16 | b1 << 8 | b2`. */
  function GroupValue(b0: byte, b1: byte, b2: byte): nat
  {
    b0 as int * 0x10000 + b1 as int * 0x100 + b2
  }

  /**
   * The four 6-bit fields of the group `b0 << 16 | b1 << 8 | b2`, most
   * significant first, written byte by byte (`GroupFields` shows they are
   * `(buf >> 18) & 0x3f`, `(buf >> 12) & 0x3f`, `(buf >> 6) & 0x3f` and `buf & 0x3f`).
   */
  function Field0(b0: byte): int { b0 / 4 }
  function Field1(b0: byte, b1: byte): int { b0 % 4 * 16 + b1 / 16 }
  function Field2(b1: byte, b2: byte): int { b1 % 16 * 4 + b2 / 64 }
  function Field3(b2: byte): int { b2 % 64 }

  /** The shifts and masks of the accumulator pick out the byte-wise fields. */
  lemma GroupFields(b0: byte, b1: byte, b2: byte)
    ensures var n := GroupValue(b0, b1, b2);
            n / 0x40000 % 64 == Field0(b0) && n / 0x1000 % 64 == Field1(b0, b1) &&
            n / 0x40 % 64 == Field2(b1, b2) && n % 64 == Field3(b2)
  {
    var n := GroupValue(b0, b1, b2);
    var f0, f1, f2, f3 := Field0(b0), Field1(b0, b1), Field2(b1, b2), Field3(b2);
    assert n == ((f0 * 64 + f1) * 64 + f2) * 64 + f3;
    DivideExactly((f0 * 64 + f1) * 64 + f2, f3, 64);
    DivideExactly(f0 * 64 + f1, f2, 64);
    DivideExactly(f0 * 64 + f1, f2 * 64 + f3, 0x1000);
    DivideExactly(f0, f1 * 0x1000 + f2 * 64 + f3, 0x40000);
    DivideExactly(f0, f1, 64);
    DivideExactly(0, f0, 64);
  }

  /** The four fields put back together give the group again. */
  lemma FieldsJoin(b0: byte, b1: byte, b2: byte)
    ensures Field0(b0) * 0x40000 + Field1(b0, b1) * 0x1000 + Field2(b1, b2) * 0x40 + Field3(b2)
            == GroupValue(b0, b1, b2)
  {
  }

  /** The four symbols a full group of three bytes becomes. */
  function EncodeGroup(b0: byte, b1: byte, b2: byte): (r: seq<byte>)
    ensures |r| == 4 && Pad !in r
  {
    [Symbol(Field0(b0)), Symbol(Field1(b0, b1)), Symbol(Field2(b1, b2)), Symbol(Field3(b2))]
  }

  /**
   * The symbols of a full group, read back through the inverse table, are the
   * four 6-bit fields of `b0 << 16 | b1 << 8 | b2`, most significant first.
   */
  lemma EncodeGroupFields(b0: byte, b1: byte, b2: byte)
    ensures var r := EncodeGroup(b0, b1, b2);
            IsSymbol(r[0]) && IsSymbol(r[1]) && IsSymbol(r[2]) && IsSymbol(r[3]) &&
            SymbolValue(r[0]) * 0x40000 + SymbolValue(r[1]) * 0x1000
            + SymbolValue(r[2]) * 0x40 + SymbolValue(r[3]) == GroupValue(b0, b1, b2)
  {
    FieldsJoin(b0, b1, b2);
    SymbolInverse(Field0(b0));
    SymbolInverse(Field1(b0, b1));
    SymbolInverse(Field2(b1, b2));
    SymbolInverse(Field3(b2));
  }

  /**
   * The four characters a trailing group of one or two bytes becomes: the
   * leading fields of the zero-filled group, then '=' for each missing byte.
   */
  function EncodeTail(t: seq<byte>): (r: seq<byte>)
    requires |t| == 1 || |t| == 2
    ensures |r| == 4 && r[0] != Pad && r[1] != Pad && r[3] == Pad
    ensures r[2] == Pad <==> |t| == 1
  {
    var b1 := if |t| == 2 then t[1] else 0;
    [Symbol(Field0(t[0])), Symbol(Field1(t[0], b1)), if |t| == 2 then Symbol(Field2(b1, 0)) else Pad, Pad]
  }

  /**
   * The symbols of a trailing group, read back through the inverse table, are
   * the leading fields of the zero-filled group; they carry all its bits.
   */
  lemma EncodeTailFields(t: seq<byte>)
    requires |t| == 1 || |t| == 2
    ensures var r := EncodeTail(t);
            IsSymbol(r[0]) && IsSymbol(r[1]) && (|t| == 2 ==> IsSymbol(r[2])) &&
            SymbolValue(r[0]) * 0x40000 + SymbolValue(r[1]) * 0x1000
            + (if |t| == 2 then SymbolValue(r[2]) * 0x40 else 0)
            == GroupValue(t[0], if |t| == 2 then t[1] else 0, 0)
  {
    var b1 := if |t| == 2 then t[1] else 0;
    FieldsJoin(t[0], b1, 0);
    SymbolInverse(Field0(t[0]));
    SymbolInverse(Field1(t[0], b1));
    SymbolInverse(Field2(b1, 0));
  }

  /** The encoding of the first `k` full groups of `src`: four alphabet symbols per group, no padding. */
  function EncodeGroups(src: seq<byte>, k: nat): (r: seq<byte>)
    requires 3 * k <= |src|
    ensures |r| == 4 * k
  {
    if k == 0 then []
    else EncodeGroups(src, k - 1) + EncodeGroup(src[3 * k - 3], src[3 * k - 2], src[3 * k - 1])
  }

  /** The encoding of full groups consists of alphabet symbols only. */
  lemma {:induction false} GroupsAreSymbols(src: seq<byte>, k: nat)
    requires 3 * k <= |src|
    ensures forall i :: 0 <= i < 4 * k ==> IsSymbol(EncodeGroups(src, k)[i])
  {
    if k > 0 {
      GroupsAreSymbols(src, k - 1);
      var front := EncodeGroups(src, k - 1);
      var last := EncodeGroup(src[3 * k - 3], src[3 * k - 2], src[3 * k - 1]);
      EncodeGroupFields(src[3 * k - 3], src[3 * k - 2], src[3 * k - 1]);
      forall i | 0 <= i < 4 * k ensures IsSymbol((front + last)[i]) {
        if i < |front| {
          assert (front + last)[i] == front[i];
        } else {
          assert (front + last)[i] == last[i - |front|];
        }
      }
    }
  }

  /**
   * Symbols followed by the tail of a group with `m` bytes (`m` == 0: no tail)
   * have '=' exactly in the last position when `m` is 2 and in the last two
   * when `m` is 1.
   */
  lemma PaddingLayout(groups: seq<byte>, tail: seq<byte>, m: nat)
    requires forall i :: 0 <= i < |groups| ==> IsSymbol(groups[i])
    requires m < 3 && (m == 0 <==> tail == [])
    requires m != 0 ==> |tail| == 4 && IsSymbol(tail[0]) && IsSymbol(tail[1]) && tail[3] == Pad
    requires m == 1 ==> tail[2] == Pad
    requires m == 2 ==> IsSymbol(tail[2])
    ensures var r := groups + tail;
            forall i :: 0 <= i < |r| ==>
              (IsSymbol(r[i]) || r[i] == Pad) &&
              (r[i] == Pad <==> (i == |r| - 1 && m != 0) || (i == |r| - 2 && m == 1))
  {
    var r := groups + tail;
    forall i | 0 <= i < |r|
      ensures IsSymbol(r[i]) || r[i] == Pad
      ensures r[i] == Pad <==> (i == |r| - 1 && m != 0) || (i == |r| - 2 && m == 1)
    {
      if i < |groups| {
        assert r[i] == groups[i];
      } else {
        assert r[i] == tail[i - |groups|];
      }
    }
  }

  /** What `pg_b64_encode` writes for `src`: the full groups, then the trailing bytes if any. */
  function Encoded(src: seq<byte>): (r: seq<byte>)
    ensures |r| % 4 == 0 && 4 * |src| <= 3 * |r| <= 4 * |src| + 8
  {
    var k := |src| / 3;
    var g := EncodeGroups(src, k);
    if 3 * k == |src| then g else g + EncodeTail(src[3 * k..])
  }

  /** The encoding is 4 * ceil(|src| / 3) characters long. */
  lemma EncodedLength(src: seq<byte>)
    ensures |Encoded(src)| == 4 * ((|src| + 2) / 3)
  {
    var k := |src| / 3;
    assert (|src| + 2) / 3 == if 3 * k == |src| then k else k + 1;
  }

  /**
   * Every character of the encoding is an alphabet symbol or '='; '=' fills
   * exactly the last position when |src| % 3 == 2 and the last two when
   * |src| % 3 == 1, and appears nowhere else.
   */
  lemma EncodedLayout(src: seq<byte>)
    ensures var r := Encoded(src);
            forall i :: 0 <= i < |r| ==>
              (IsSymbol(r[i]) || r[i] == Pad) &&
              (r[i] == Pad <==> (i == |r| - 1 && |src| % 3 != 0) || (i == |r| - 2 && |src| % 3 == 1))
  {
    var k := |src| / 3;
    GroupsAreSymbols(src, k);
    if 3 * k < |src| {
      EncodeTailFields(src[3 * k..]);
    }
    PaddingLayout(EncodeGroups(src, k), if 3 * k == |src| then [] else EncodeTail(src[3 * k..]), |src| % 3);
  }

  /** The encoding splits into the full groups and the encoding of the trailing bytes, if any. */
  lemma EncodedSplit(src: seq<byte>, k: nat, j: nat)
    requires |src| == 3 * k + j && j < 3
    ensures j == 0 ==> Encoded(src) == EncodeGroups(src, k)
    ensures j != 0 ==> Encoded(src) == EncodeGroups(src, k) + EncodeTail(src[3 * k..])
  {
    assert |src| / 3 == k;
  }

  /** `buf |= b << (pos << 3)` for `pos` in 0..2; the shifted byte lands in bits that are still zero. */
  function Shifted(b: byte, pos: int): nat
    requires 0 <= pos <= 2
  {
    if pos == 2 then b as int * 0x10000 else if pos == 1 then b as int * 0x100 else b
  }

  /** The buffer the caller sizes with `pg_b64_enc_len` has room for every group the encoder writes. */
  lemma RoomForGroup(len: nat, k: nat)
    requires 3 * k < len
    ensures 4 * k + 4 <= EncLen(len)
  {
  }

  /**
   * `pg_b64_enc_len` is an upper bound, not the exact length: it is exact when
   * `len % 3 == 1`, two too large when `len % 3 == 0` and one too large when
   * `len % 3 == 2`.
   */
  lemma EncLenSlack(src: seq<byte>)
    ensures EncLen(|src|) == |Encoded(src)| + (if |src| % 3 == 0 then 2 else if |src| % 3 == 1 then 0 else 1)
  {
    EncodedLength(src);
  }

  /**
   * The four stores the encoder makes when the accumulator holds a full group:
   * the symbols of `(buf >> 18) & 0x3f`, `(buf >> 12) & 0x3f`, `(buf >> 6) & 0x3f`
   * and `buf & 0x3f` go to `dst[p..p + 4]`, which then holds the group's encoding.
   */
  method StoreGroup(dst: array<byte>, p: nat, buf: nat, ghost b0: byte, ghost b1: byte, ghost b2: byte)
    requires p + 4 <= dst.Length
    requires buf == GroupValue(b0, b1, b2)
    modifies dst
    ensures dst[..p + 4] == old(dst[..p]) + EncodeGroup(b0, b1, b2)
    ensures dst[p + 4..] == old(dst[p + 4..])
  {
    GroupFields(b0, b1, b2);
    var v0, v1, v2, v3 := buf / 0x40000 % 64, buf / 0x1000 % 64, buf / 0x40 % 64, buf % 64;
    AlphabetTableMatches(v0);
    AlphabetTableMatches(v1);
    AlphabetTableMatches(v2);
    AlphabetTableMatches(v3);
    dst[p] := Base64Digits[v0];
    dst[p + 1] := Base64Digits[v1];
    dst[p + 2] := Base64Digits[v2];
    dst[p + 3] := Base64Digits[v3];
  }

  /** The write-out of group `k`: after the encodings of groups 0..k-1, `dst` holds those of groups 0..k. */
  method WriteGroup(dst: array<byte>, p: nat, buf: nat, ghost src: seq<byte>, ghost k: nat)
    requires 3 * k + 3 <= |src| && p == 4 * k && dst.Length >= EncLen(|src|)
    requires buf == GroupValue(src[3 * k], src[3 * k + 1], src[3 * k + 2])
    requires dst[..p] == EncodeGroups(src, k)
    modifies dst
    ensures dst[..p + 4] == EncodeGroups(src, k + 1)
    ensures dst[p + 4..] == old(dst[p + 4..])
  {
    RoomForGroup(|src|, k);
    StoreGroup(dst, p, buf, src[3 * k], src[3 * k + 1], src[3 * k + 2]);
  }

  /** The characters `_base64` gives for the fields of a zero-filled trailing group. */
  lemma TailDigits(buf: nat, pos: int, t: seq<byte>)
    requires 0 <= pos <= 1 && |t| == 2 - pos
    requires buf == GroupValue(t[0], if pos == 0 then t[1] else 0, 0)
    ensures EncodeTail(t) == [Base64Digits[buf / 0x40000 % 64], Base64Digits[buf / 0x1000 % 64],
                              if pos == 0 then Base64Digits[buf / 0x40 % 64] else Pad, Pad]
  {
    GroupFields(t[0], if pos == 0 then t[1] else 0, 0);
    AlphabetTableMatches(buf / 0x40000 % 64);
    AlphabetTableMatches(buf / 0x1000 % 64);
    AlphabetTableMatches(buf / 0x40 % 64);
  }

  /**
   * The four stores after the loop when 1 (`pos` == 1) or 2 (`pos` == 0) bytes
   * are left over: two symbols, a third one or '=', then '='.
   */
  method StoreTail(dst: array<byte>, p: nat, buf: nat, pos: int, ghost t: seq<byte>)
    requires p + 4 <= dst.Length
    requires 0 <= pos <= 1 && |t| == 2 - pos
    requires buf == GroupValue(t[0], if pos == 0 then t[1] else 0, 0)
    modifies dst
    ensures dst[..p + 4] == old(dst[..p]) + EncodeTail(t)
    ensures dst[p + 4..] == old(dst[p + 4..])
  {
    TailDigits(buf, pos, t);
    dst[p] := Base64Digits[buf / 0x40000 % 64];
    dst[p + 1] := Base64Digits[buf / 0x1000 % 64];
    dst[p + 2] := if pos == 0 then Base64Digits[buf / 0x40 % 64] else Pad;
    dst[p + 3] := Pad;
  }

  /**
   * The write-out after the loop: nothing when no byte is left over
   * (`pos` == 2), else the trailing group. Afterwards `dst[..n]` is the whole
   * encoding.
   */
  method WriteTail(dst: array<byte>, p: nat, buf: nat, pos: int, ghost src: seq<byte>, ghost k: nat)
    returns (n: nat)
    requires 0 <= pos <= 2 && |src| == 3 * k + (2 - pos) && p == 4 * k && dst.Length >= EncLen(|src|)
    requires pos == 1 ==> buf == src[3 * k] as int * 0x10000
    requires pos == 0 ==> buf == src[3 * k] as int * 0x10000 + src[3 * k + 1] as int * 0x100
    requires dst[..p] == EncodeGroups(src, k)
    modifies dst
    ensures n <= dst.Length
    ensures dst[..n] == Encoded(src)
    ensures dst[n..] == old(dst[n..])
  {
    EncodedSplit(src, k, 2 - pos);
    n := p;
    if pos != 2 {
      RoomForGroup(|src|, k);
      StoreTail(dst, p, buf, pos, src[3 * k..]);
      n := p + 4;
    }
  }

  /**
   * `pg_b64_encode(src, len, dst)`: writes the encoding of `src` at the start of
   * `dst` and returns its length; nothing else in `dst` changes. The caller
   * sizes `dst` with `pg_b64_enc_len`.
   */
  method Encode(src: seq<byte>, dst: array<byte>) returns (n: int)
    requires dst.Length >= EncLen(|src|)
    modifies dst
    ensures 0 <= n <= dst.Length
    ensures dst[..n] == Encoded(src)
    ensures dst[n..] == old(dst[n..])
  {
    var i := 0;        // s - src
    var p := 0;        // p - dst
    var pos := 2;
    var buf: nat := 0;
    ghost var k := 0;  // groups written so far
    while i < |src|
      invariant 0 <= pos <= 2 && i == 3 * k + (2 - pos) <= |src|
      invariant p == 4 * k
      invariant pos == 2 ==> buf == 0
      invariant pos == 1 ==> buf == src[3 * k] as int * 0x10000
      invariant pos == 0 ==> buf == src[3 * k] as int * 0x10000 + src[3 * k + 1] as int * 0x100
      invariant dst[..p] == EncodeGroups(src, k)
      invariant dst[p..] == old(dst[p..])
    {
      buf := buf + Shifted(src[i], pos);
      pos := pos - 1;
      i := i + 1;

      if pos < 0 {
        WriteGroup(dst, p, buf, src, k);
        p := p + 4;
        k := k + 1;
        pos := 2;
        buf := 0;
      }
    }
    n := WriteTail(dst, p, buf, pos, src, k);
  }
}
