/**
 * The emulated Atari 2600 as the game adapter sees it: a byte-addressed RAM
 * it reads, and a console it can drive by pressing Select and by asking for
 * a soft reset.  Instruction execution and frame timing are not modelled.
 */
module Atari {

  /** An unsigned byte, as `readRam` returns it. */
  type Byte = x: int | 0 <= x < 256

  /** The console's memory: one byte for each address 0x00..0xFF. */
  type Ram = r: seq<Byte> | |r| == 256 witness seq(256, _ => 0)

  /** The synthetic inputs the adapter injects into the console. */
  datatype Input = Select(frames: nat) | SoftReset

  /**
   * The console and its environment.  Pressing Select moves the game's
   * mode indicator one step along `modeCycle` and shows the new value in
   * RAM at `modeAddr`; every injected input is appended to `inputs`.
   */
  class Console {
    var ram: Ram
    /** The values the mode indicator takes, in the order Select cycles through them. */
    const modeCycle: seq<Byte>
    /** The RAM address of the mode indicator. */
    const modeAddr: nat
    /** Which entry of `modeCycle` the console is on. */
    var cursor: nat
    /** Every input injected so far, oldest first. */
    var inputs: seq<Input>

    ghost predicate Valid()
      reads this
    {
      0 < |modeCycle| && cursor < |modeCycle| && modeAddr < 256
    }

    constructor (ram0: Ram, cycle: seq<Byte>, addr: nat, start: nat)
      requires start < |cycle| && addr < 256
      ensures Valid()
      ensures ram == ram0 && modeCycle == cycle && modeAddr == addr
      ensures cursor == start && inputs == []
    {
      ram := ram0;
      modeCycle := cycle;
      modeAddr := addr;
      cursor := start;
      inputs := [];
    }

    /** The byte at `addr`. */
    function ReadRam(addr: nat): Byte
      requires addr < 256
      reads this
    {
      ram[addr]
    }

    /** Presses Select for `frames` frames: the mode indicator shows the next mode of the cycle. */
    method PressSelect(frames: nat)
      requires Valid()
      modifies this
      ensures Valid()
      ensures cursor == Next(|modeCycle|, old(cursor))
      ensures ram == old(ram)[modeAddr := modeCycle[cursor]]
      ensures inputs == old(inputs) + [Select(frames)]
    {
      cursor := Next(|modeCycle|, cursor);
      ram := ram[modeAddr := modeCycle[cursor]];
      inputs := inputs + [Select(frames)];
    }

    /** Soft-resets the console, keeping the mode that is selected. */
    method SoftResetConsole()
      requires Valid()
      modifies this`inputs
      ensures Valid()
      ensures inputs == old(inputs) + [SoftReset]
    {
      inputs := inputs + [SoftReset];
    }
  }

  /** The cycle position that follows position `c` in a cycle of length `n`, wrapping round at the end. */
  function Next(n: nat, c: nat): (r: nat)
    requires c < n
    ensures r < n
    ensures r == (c + 1) % n
  {
    if c + 1 == n then 0 else c + 1
  }

  /** The cycle position reached from `c` after `presses` presses of Select. */
  function CursorAfter(n: nat, c: nat, presses: nat): (r: nat)
    requires c < n
    ensures r < n
  {
    if presses == 0 then c else Next(n, CursorAfter(n, c, presses - 1))
  }

  /** Euclidean division is unique: `x == q * n + r` with `0 <= r < n` fixes `x / n` and `x % n`. */
  lemma DivModUnique(x: int, n: int, q: int, r: int)
    requires 0 < n && 0 <= r < n && x == q * n + r
    ensures x / n == q && x % n == r
  {
    var q' := x / n;
    if q > q' {
      ProductAtLeast(q - q', n);
    } else if q < q' {
      ProductAtLeast(q' - q, n);
    }
  }

  /** A positive multiple of `n` is at least `n`. */
  lemma ProductAtLeast(k: int, n: int)
    requires 1 <= k && 0 < n
    ensures k * n >= n
  {
  }

  /** Counting presses round the cycle agrees with counting them modulo the cycle length. */
  lemma {:induction false} CursorAfterIsModular(n: nat, c: nat, presses: nat)
    requires c < n
    ensures CursorAfter(n, c, presses) == (c + presses) % n
  {
    if presses == 0 {
      DivModUnique(c, n, 0, c);
    } else {
      CursorAfterIsModular(n, c, presses - 1);
      SuccessorMod(c + presses - 1, n);
    }
  }

  /** Adding one before or after reducing modulo `n` gives the same remainder. */
  lemma SuccessorMod(x: nat, n: nat)
    requires 0 < n
    ensures (x % n + 1) % n == (x + 1) % n
  {
    var q, k := x / n, x % n;
    assert x == q * n + k;
    if k + 1 == n {
      DivModUnique(x + 1, n, q + 1, 0);
      DivModUnique(k + 1, n, 1, 0);
    } else {
      DivModUnique(x + 1, n, q, k + 1);
      DivModUnique(k + 1, n, 0, k + 1);
    }
  }
}
