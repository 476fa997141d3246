/**
 * The packed-decimal score decoder the adapter calls (`getDecimalScore` of
 * the emulator's ROM utilities).  That file is not part of this model; the
 * decoder is taken to be the usual two-byte one: each byte holds two decimal
 * digits, one per nibble, the lower byte giving units and tens and the
 * higher byte hundreds and thousands.  Nibbles above 9 are not rejected: they
 * are weighted like digits.
 */
module RomUtils {
  import opened Atari

  /** A byte whose two nibbles are both decimal digits. */
  predicate IsBcd(b: Byte) {
    b / 16 <= 9 && b % 16 <= 9
  }

  /** The two-digit number a byte shows: ten times its high nibble plus its low nibble. */
  function Bcd(b: Byte): (r: nat)
    ensures r <= 165
    ensures IsBcd(b) ==> r <= 99
  {
    (b / 16) * 10 + b % 16
  }

  /** The byte that shows the two digits of `n`. */
  function ToBcd(n: nat): (b: Byte)
    requires n < 100
    ensures IsBcd(b)
  {
    (n / 10) * 16 + n % 10
  }

  /** Decoding the byte that shows `n` gives `n` back. */
  lemma BcdOfToBcd(n: nat)
    requires n < 100
    ensures Bcd(ToBcd(n)) == n
  {
  }

  /** Every valid packed-decimal byte is the encoding of the number it shows. */
  lemma ToBcdOfBcd(b: Byte)
    requires IsBcd(b)
    ensures ToBcd(Bcd(b)) == b
  {
  }

  /**
   * `getDecimalScore(lower, higher)`: the four-digit number shown by the
   * bytes at `lower` (units, tens) and `higher` (hundreds, thousands).
   */
  function DecimalScore(ram: Ram, lower: nat, higher: nat): (r: nat)
    requires lower < 256 && higher < 256
    ensures r <= 16665
    ensures IsBcd(ram[lower]) && IsBcd(ram[higher]) ==> r <= 9999
  {
    Bcd(ram[lower]) + 100 * Bcd(ram[higher])
  }
}
