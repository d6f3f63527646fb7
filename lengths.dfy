/**
 * The buffer-size helpers callers use before encoding or decoding.
 * Both work on non-negative lengths; the C `int` arithmetic cannot
 * overflow in this model.
 */
module Base64Lengths {

  /**
   * `pg_b64_enc_len`: `(srclen + 2) * 4 / 3`. It leaves room for four
   * characters per started group of three bytes, with at most two to spare.
   */
  function EncLen(srclen: nat): (r: nat)
    ensures 4 * ((srclen + 2) / 3) <= r <= 4 * ((srclen + 2) / 3) + 2
  {
    (srclen + 2) * 4 / 3
  }

  /**
   * `pg_b64_dec_len`: `(srclen * 3) >> 2`. It leaves room for three bytes per
   * complete group of four characters, with at most two to spare.
   */
  function DecLen(srclen: nat): (r: nat)
    ensures 3 * (srclen / 4) <= r <= 3 * (srclen / 4) + 2
  {
    srclen * 3 / 4
  }

  /** Every complete group of four characters fits: `3 * units` bytes fit when `4 * units` characters are read. */
  lemma DecLenCoversUnits(srclen: nat, units: nat)
    requires 4 * units <= srclen
    ensures 3 * units <= DecLen(srclen)
  {
  }
}
