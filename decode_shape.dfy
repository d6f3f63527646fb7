/**
 * Which inputs `pg_b64_decode` accepts and how many bytes it writes, stated
 * without the step machine: an input is accepted exactly when it has no
 * whitespace, every character is '=' or an alphabet symbol, its first '='
 * (if any) sits at position 2 or 3 of a group of four, and its length is a
 * multiple of four. Characters after the first '=' are not checked any
 * further.
 */
module Base64DecodeShape {
  import opened Base64Tables
  import opened Base64Lengths
  import opened Base64Decoder

  /** The index of the first '=' at or after `i`, or `|s|` when there is none. */
  function FirstPadFrom(s: seq<byte>, i: nat): (f: nat)
    requires i <= |s|
    ensures i <= f <= |s|
    ensures forall j :: i <= j < f ==> s[j] != Pad
    ensures f < |s| ==> s[f] == Pad
    decreases |s| - i
  {
    if i == |s| then |s| else if s[i] == Pad then i else FirstPadFrom(s, i + 1)
  }

  /** The index of the first '=' in `s`, or `|s|` when there is none. */
  function FirstPad(s: seq<byte>): nat
  {
    FirstPadFrom(s, 0)
  }

  /** The end marker the first '=' at index `f` sets: 1 at position 2 of its group, 2 at position 3. */
  function EndCode(f: nat): nat
  {
    if f % 4 == 2 then 1 else 2
  }

  /** The check character `j` must pass: not whitespace, '=' or a symbol, and a first '=' at position 2 or 3. */
  predicate Admissible(s: seq<byte>, j: nat)
    requires j < |s|
  {
    !IsWhitespace(s[j]) && (s[j] == Pad || IsSymbol(s[j])) &&
    (j == FirstPad(s) ==> j % 4 == 2 || j % 4 == 3)
  }

  /** The inputs `pg_b64_decode` accepts. */
  predicate WellFormed(s: seq<byte>)
  {
    (forall j :: 0 <= j < |s| ==> Admissible(s, j)) && |s| % 4 == 0
  }

  /**
   * Bytes written after `n` characters when the first '=' is at `f`: three
   * for each group of four completed before the group holding `f`, and
   * `EndCode(f)` for that group and each complete group after it.
   */
  function OutLen(n: nat, f: nat): nat
  {
    if f / 4 >= n / 4 then 3 * (n / 4) else 3 * (f / 4) + EndCode(f) * (n / 4 - f / 4)
  }

  /** One more character adds to `OutLen` only when it completes a group. */
  lemma OutLenStep(n: nat, f: nat)
    requires n >= 1
    ensures OutLen(n, f) == OutLen(n - 1, f) + (if n % 4 != 0 then 0 else if f < n then EndCode(f) else 3)
  {
    var u := (n - 1) / 4;
    if n % 4 == 0 {
      assert n / 4 == u + 1;
      assert f < n <==> f / 4 <= u;
    } else {
      assert n / 4 == u;
    }
  }

  /** The first '=' of `s` is at index `j` exactly when `s[j]` is '=' and there is none before. */
  lemma FirstPadAt(s: seq<byte>, j: nat)
    requires j < |s|
    ensures FirstPad(s) == j <==> s[j] == Pad && FirstPad(s) >= j
  {
  }

  /**
   * The state of the loop after `n` characters: it has not returned -1
   * exactly when every character so far passed its check, and then `pos` is
   * `n % 4`, `end` is set by the first '=' read, and `OutLen` bytes are written.
   */
  lemma {:induction false} RunShape(s: seq<byte>, n: nat)
    requires n <= |s|
    ensures RunPrefix(s, n).Some? <==> forall j :: 0 <= j < n ==> Admissible(s, j)
    ensures RunPrefix(s, n).Some? ==>
              var st := RunPrefix(s, n).value;
              |st.pend| == n % 4 &&
              st.end == (if FirstPad(s) < n then EndCode(FirstPad(s)) else 0) &&
              |st.out| == OutLen(n, FirstPad(s))
  {
    if n > 0 {
      var f := FirstPad(s);
      RunShape(s, n - 1);
      OutLenStep(n, f);
      PendCount(s, n);
      var prev := RunPrefix(s, n - 1);
      if prev.Some? {
        var st := prev.value;
        var c := s[n - 1];
        FirstPadAt(s, n - 1);
        match Classify(c, |st.pend|, st.end)
        case None =>
          assert !Admissible(s, n - 1);
        case Some((b, end)) =>
          assert Admissible(s, n - 1);
          assert end == (if f < n then EndCode(f) else 0);
          assert forall j :: 0 <= j < n ==> Admissible(s, j) by {
            forall j | 0 <= j < n ensures Admissible(s, j) {
              if j < n - 1 {
              }
            }
          }
      } else {
        assert !Admissible(s, n - 1) || !(forall j :: 0 <= j < n - 1 ==> Admissible(s, j));
      }
    }
  }

  /**
   * The end marker is only ever 0, 1 or 2, so the test `end > 2` guarding the
   * third byte never holds: after the first '=' no group writes a third byte.
   */
  lemma EndAtMostTwo(s: seq<byte>, n: nat)
    requires n <= |s| && RunPrefix(s, n).Some?
    ensures RunPrefix(s, n).value.end <= 2
    ensures FirstPad(s) < n ==> RunPrefix(s, n).value.end != 0
  {
    RunShape(s, n);
  }

  /** `pg_b64_decode` succeeds exactly on the well-formed inputs. */
  lemma DecodeAccepts(s: seq<byte>)
    ensures Decoded(s).Some? <==> WellFormed(s)
  {
    RunShape(s, |s|);
  }

  /**
   * The number of bytes written: three per group of four without '=', three
   * per group before the one holding the first '=', and one or two (as that
   * '=' is at position 2 or 3) for that group and every group after it.
   */
  lemma DecodedLength(s: seq<byte>)
    requires Decoded(s).Some?
    ensures |Decoded(s).value| ==
              if FirstPad(s) == |s| then 3 * (|s| / 4)
              else 3 * (FirstPad(s) / 4) + EndCode(FirstPad(s)) * (|s| / 4 - FirstPad(s) / 4)
  {
    RunShape(s, |s|);
  }

  /** At most three bytes per complete group: `OutLen` never exceeds `pg_b64_dec_len`. */
  lemma OutLenFits(n: nat, f: nat)
    ensures OutLen(n, f) <= DecLen(n)
  {
    var u, v := n / 4, f / 4;
    if v < u {
      var e := EndCode(f);
      assert e * (u - v) <= 3 * (u - v) by {
        assert 3 * (u - v) == e * (u - v) + (3 - e) * (u - v);
      }
    }
    DecLenCoversUnits(n, u);
  }

  /** The decoded bytes fit in the buffer `pg_b64_dec_len` sizes. */
  lemma DecodedFitsDecLen(s: seq<byte>)
    requires Decoded(s).Some?
    ensures |Decoded(s).value| <= DecLen(|s|)
  {
    RunShape(s, |s|);
    OutLenFits(|s|, FirstPad(s));
  }

  /**
   * The four ways to get -1: a whitespace character anywhere; a character
   * that is neither '=' nor a symbol; a first '=' at position 0 or 1 of its
   * group; a length that is not a multiple of four.
   */
  lemma DecodeRejects(s: seq<byte>, j: nat)
    requires j < |s|
    requires IsWhitespace(s[j]) || (s[j] != Pad && !IsSymbol(s[j])) ||
             (j == FirstPad(s) && j % 4 != 2 && j % 4 != 3) || |s| % 4 != 0
    ensures Decoded(s) == None
  {
    DecodeAccepts(s);
    assert !Admissible(s, j) || |s| % 4 != 0;
  }
}
