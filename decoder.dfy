/**
 * `pg_b64_decode`: characters are read one at a time; each alphabet symbol
 * adds six bits to an accumulator, and every fourth character flushes it as
 * up to three bytes. The first '=' marks the end of the data, and after it
 * every group of four yields only one or two bytes.
 *
 * The decoder is lenient once the end has been marked: only the position of
 * the first '=' is checked, later '=' characters count as the value 0, and
 * alphabet symbols after a '=' are still accepted.
 *
 * `Step` is one iteration of the source loop on an abstract state; `RunPrefix`
 * runs it over the first `n` characters and `Decoded` is the outcome of the
 * whole call. The method `Decode` is the loop itself, over the caller's buffer,
 * proved to return exactly `Decoded(src)`.
 */
module Base64Decoder {
  import opened Base64Tables
  import opened Base64Lengths
  import opened Base64Arith

  datatype Option<T> = None | Some(value: T)

  /** The value of one input character: six bits. */
  type sextet = x: int | 0 <= x < 64

  /**
   * The decoder's variables between two characters: the six-bit values read
   * since the last flush (`pos` is their number), the end marker `end`
   * (0: no '=' seen; 1 or 2: bytes per group after the first '='), and the
   * bytes written so far.
   */
  datatype DecodeState = DecodeState(pend: seq<sextet>, end: nat, out: seq<byte>)

  const Start := DecodeState([], 0, [])

  /** The accumulator `buf` after the pending values have been shifted in. */
  function Accum(pend: seq<sextet>): nat
    requires |pend| <= 3
  {
    if |pend| == 0 then 0
    else if |pend| == 1 then pend[0] as int
    else if |pend| == 2 then pend[0] as int * 64 + pend[1]
    else (pend[0] as int * 64 + pend[1]) * 64 + pend[2]
  }

  /** The three bytes of a full accumulator `s0 s1 s2 s3`, most significant first. */
  function Byte0(s0: sextet, s1: sextet): byte { s0 * 4 + s1 / 16 }
  function Byte1(s1: sextet, s2: sextet): byte { s1 % 16 * 16 + s2 / 4 }
  function Byte2(s2: sextet, s3: sextet): byte { s2 % 4 * 64 + s3 }

  /**
   * The bytes written when the fourth value arrives: `(buf >> 16) & 255`
   * always, `(buf >> 8) & 255` when `end == 0 || end > 1`, and `buf & 255`
   * when `end == 0 || end > 2`.
   */
  function UnitBytes(s0: sextet, s1: sextet, s2: sextet, s3: sextet, end: nat): (r: seq<byte>)
    ensures |r| == if end == 1 then 1 else if end == 2 then 2 else 3
    ensures r == [Byte0(s0, s1), Byte1(s1, s2), Byte2(s2, s3)][..|r|]
  {
    [Byte0(s0, s1)]
    + (if end == 0 || end > 1 then [Byte1(s1, s2)] else [])
    + (if end == 0 || end > 2 then [Byte2(s2, s3)] else [])
  }

  /** `buf = (buf << 6) + b; pos++`, flushing and resetting `buf` and `pos` at the fourth value. */
  function Feed(st: DecodeState, b: sextet): DecodeState
  {
    if |st.pend| == 3 then
      DecodeState([], st.end, st.out + UnitBytes(st.pend[0], st.pend[1], st.pend[2], b, st.end))
    else
      DecodeState(st.pend + [b], st.end, st.out)
  }

  /**
   * What the loop makes of character `c` with `pos` values pending and end
   * marker `end`: `None` when it returns -1 (whitespace, a first '=' outside
   * positions 2 and 3, a character outside the alphabet), otherwise the
   * six-bit value to shift in and the new end marker.
   */
  function Classify(c: byte, pos: nat, end: nat): (r: Option<(sextet, nat)>)
    ensures r.None? <==> IsWhitespace(c) || (c == Pad && end == 0 && pos != 2 && pos != 3) ||
                         (c != Pad && !IsSymbol(c))
    ensures r.Some? && c != Pad ==> Symbol(r.value.0) == c
    ensures r.Some? && c == Pad ==> r.value.0 == 0
    ensures r.Some? && end != 0 ==> r.value.1 == end
    ensures r.Some? && end == 0 ==> r.value.1 <= 2 && (r.value.1 == 0 <==> c != Pad)
  {
    if IsWhitespace(c) then None
    else if c == Pad then
      if end == 0 && pos != 2 && pos != 3 then None
      else Some((0, if end != 0 then end else if pos == 2 then 1 else 2))
    else if !IsSymbol(c) then None
    else
      LookupInverse(c);
      Some((SymbolValue(c), end))
  }

  /**
   * One iteration of the decoding loop on character `c`; `None` is the
   * `return -1` of the source.
   */
  function Step(st: DecodeState, c: byte): (r: Option<DecodeState>)
    ensures r.Some? <==> Classify(c, |st.pend|, st.end).Some?
    ensures r.Some? ==> st.out <= r.value.out
    ensures r.Some? && |st.pend| < 4 ==> |r.value.pend| == (|st.pend| + 1) % 4
  {
    match Classify(c, |st.pend|, st.end)
    case None => None
    case Some((b, end)) => Some(Feed(st.(end := end), b))
  }

  function Next(o: Option<DecodeState>, c: byte): Option<DecodeState>
  {
    match o
    case None => None
    case Some(st) => Step(st, c)
  }

  /** The outcome of the loop after the first `n` characters of `s`. */
  function RunPrefix(s: seq<byte>, n: nat): Option<DecodeState>
    requires n <= |s|
  {
    if n == 0 then Some(Start) else Next(RunPrefix(s, n - 1), s[n - 1])
  }

  /** The position within a group of four advances by one and wraps from 3 to 0. */
  lemma PosStep(n: nat)
    requires n >= 1
    ensures n % 4 == ((n - 1) % 4 + 1) % 4
  {
    var u := (n - 1) / 4;
    assert n - 1 == 4 * u + (n - 1) % 4;
    if (n - 1) % 4 == 3 {
      assert n == 4 * (u + 1);
    } else {
      assert n == 4 * u + ((n - 1) % 4 + 1);
    }
  }

  /** Every accepted character advances `pos`: after `n` characters it is `n % 4`. */
  lemma {:induction false} PendCount(s: seq<byte>, n: nat)
    requires n <= |s|
    ensures RunPrefix(s, n).Some? ==> |RunPrefix(s, n).value.pend| == n % 4
  {
    if n > 0 {
      PendCount(s, n - 1);
      PosStep(n);
    }
  }

  /**
   * What `pg_b64_decode` returns: the bytes written, or `None` for -1 (also
   * when the last group is incomplete, so it never succeeds on a length that
   * is not a multiple of four).
   */
  function Decoded(s: seq<byte>): (r: Option<seq<byte>>)
    ensures r.Some? ==> |s| % 4 == 0
    ensures |s| == 0 ==> r == Some([])
  {
    PendCount(s, |s|);
    match RunPrefix(s, |s|)
    case None => None
    case Some(st) => if |st.pend| != 0 then None else Some(st.out)
  }

  /** Once the loop has returned -1 on a prefix, the whole call returns -1. */
  lemma {:induction false} FailureSticks(s: seq<byte>, n: nat, m: nat)
    requires n <= m <= |s|
    requires RunPrefix(s, n) == None
    ensures RunPrefix(s, m) == None
    decreases m
  {
    if m > n {
      FailureSticks(s, n, m - 1);
    }
  }

  /** The shifts and masks of a full accumulator pick out the bytes of `UnitBytes`. */
  lemma UnitFields(s0: sextet, s1: sextet, s2: sextet, s3: sextet)
    ensures var buf := ((s0 * 64 + s1) * 64 + s2) * 64 + s3;
            buf / 0x10000 % 256 == Byte0(s0, s1) && buf / 0x100 % 256 == Byte1(s1, s2) &&
            buf % 256 == Byte2(s2, s3)
  {
    var buf := ((s0 * 64 + s1) * 64 + s2) * 64 + s3;
    var c0, c1, c2 := Byte0(s0, s1) as int, Byte1(s1, s2) as int, Byte2(s2, s3) as int;
    assert buf == (c0 * 256 + c1) * 256 + c2;
    DivideExactly(c0 * 256 + c1, c2, 256);
    DivideExactly(c0, c1, 256);
    DivideExactly(c0, c1 * 256 + c2, 0x10000);
    DivideExactly(0, c0, 256);
  }

  /**
   * The stores made when the fourth value arrives: one, two or three bytes
   * at `dst[p..]`, as `UnitBytes` says; `q` is the new write position.
   */
  method WriteUnit(dst: array<byte>, p: nat, buf: nat, end: nat,
                   ghost s0: sextet, ghost s1: sextet, ghost s2: sextet, ghost s3: sextet)
    returns (q: nat)
    requires p + 3 <= dst.Length
    requires buf == ((s0 * 64 + s1) * 64 + s2) * 64 + s3
    modifies dst
    ensures q == p + |UnitBytes(s0, s1, s2, s3, end)|
    ensures dst[..q] == old(dst[..p]) + UnitBytes(s0, s1, s2, s3, end)
    ensures dst[q..] == old(dst[q..])
  {
    UnitFields(s0, s1, s2, s3);
    dst[p] := buf / 0x10000 % 256;
    q := p + 1;
    if end == 0 || end > 1 {
      dst[q] := buf / 0x100 % 256;
      q := q + 1;
    }
    if end == 0 || end > 2 {
      dst[q] := buf % 256;
      q := q + 1;
    }
  }

  /**
   * The checks the loop makes on one character, with their `return -1` as a
   * negative `b`: whitespace is refused; '=' sets the end marker from `pos`
   * if it is not set yet (and is refused at any other position) and counts as
   * 0; any other character is looked up in `b64lookup` if its code is in
   * 1..126, and refused if that gives no value.
   */
  method ClassifyChar(c: byte, pos: nat, end: nat) returns (b: int, end': nat)
    ensures b < 64
    ensures b < 0 <==> Classify(c, pos, end) == None
    ensures b >= 0 ==> Classify(c, pos, end) == Some((b, end'))
  {
    end' := end;
    if c == 32 || c == 9 || c == 10 || c == 13 {
      return -1, end';
    }
    if c == Pad {
      if end == 0 {
        if pos == 2 {
          end' := 1;
        } else if pos == 3 {
          end' := 2;
        } else {
          return -1, end';
        }
      }
      b := 0;
    } else {
      b := -1;
      if 0 < c < 127 {
        LookupTableMatches(c);
        b := Lookup[c];
      }
    }
  }

  /**
   * `pg_b64_decode(src, len, dst)`: returns -1 exactly when `Decoded(src)` is
   * `None`; otherwise writes the decoded bytes at the start of `dst`, leaves
   * the rest of `dst` alone and returns their number. The caller sizes `dst`
   * with `pg_b64_dec_len`.
   */
  method Decode(src: seq<byte>, dst: array<byte>) returns (r: int)
    requires dst.Length >= DecLen(|src|)
    modifies dst
    ensures r == -1 <==> Decoded(src) == None
    ensures r != -1 ==> 0 <= r <= dst.Length && dst[..r] == Decoded(src).value && dst[r..] == old(dst[r..])
  {
    var i := 0;        // s - src
    var p := 0;        // p - dst
    var buf: nat := 0;
    var pos := 0;
    var end := 0;
    ghost var pend: seq<sextet> := [];
    ghost var units := 0;   // groups of four flushed so far
    while i < |src|
      invariant i <= |src| && i == 4 * units + pos && pos == |pend| <= 3
      invariant 0 <= p <= 3 * units && p <= dst.Length
      invariant buf == Accum(pend)
      invariant RunPrefix(src, i) == Some(DecodeState(pend, end, dst[..p]))
      invariant dst[p..] == old(dst[p..])
    {
      var c := src[i];
      i := i + 1;
      var b;
      b, end := ClassifyChar(c, pos, end);
      if b < 0 {
        FailureSticks(src, i, |src|);
        return -1;
      }

      buf := buf * 64 + b;
      pos := pos + 1;
      if pos == 4 {
        DecLenCoversUnits(|src|, units + 1);
        p := WriteUnit(dst, p, buf, end, pend[0], pend[1], pend[2], b);
        buf := 0;
        pos := 0;
        pend := [];
        units := units + 1;
      } else {
        pend := pend + [b];
      }
    }

    if pos != 0 {
      return -1;
    }
    r := p;
  }
}
