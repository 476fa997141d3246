/**
 * The Skiing game adapter (`SkiingSettings`).  Each step it reads the race
 * clock from RAM and turns the time that passed into a negative reward, and
 * it reads the end-of-race flag.  It also classifies actions, lists the game
 * modes, saves and loads its state, and selects a game mode by pressing
 * Select until the console shows the wanted one.
 */
module Skiing {
  import opened Outcomes
  import opened Atari
  import opened Actions
  import opened Serialization
  import opened RomUtils

  /** RAM addresses the adapter reads. */
  const MinutesAddr: nat := 0xE8
  const SecondsAddr: nat := 0xE9
  const CentisecondsAddr: nat := 0xEA
  const ModeAddr: nat := 0xEB
  const EndFlagAddr: nat := 0x91

  /** Centiseconds in a minute: the weight of the raw minutes byte. */
  const CentisecondsPerMinute: nat := 6000

  /** The largest score the decoder can produce (all three clock bytes 0xFF). */
  const MaxScore: nat := 255 * 6000 + 16665

  /** The modes this game can be played in are 1 to 10. */
  predicate IsMode(m: int) {
    1 <= m <= 10
  }

  /**
   * The race clock read from RAM, in centiseconds: the raw minutes byte
   * times 6000 plus the packed-decimal seconds and hundredths.  It stays
   * within what a 32-bit `int` holds.
   */
  function ElapsedScore(ram: Ram): (r: nat)
    ensures r <= MaxScore < 0x8000_0000
  {
    ram[MinutesAddr] * CentisecondsPerMinute + DecimalScore(ram, CentisecondsAddr, SecondsAddr)
  }

  /**
   * The reward a step gives when the previous score was `previous`: time
   * that passed is penalised, so the reward is negative exactly when the
   * clock moved forward and positive exactly when it moved back.
   */
  function StepReward(previous: int, ram: Ram): (r: int)
    ensures r < 0 <==> ElapsedScore(ram) > previous
    ensures r > 0 <==> ElapsedScore(ram) < previous
    ensures r == 0 <==> ElapsedScore(ram) == previous
    ensures ElapsedScore(ram) + r == previous
  {
    previous - ElapsedScore(ram)
  }

  /** The end-of-race flag: the byte at 0x91 is 0xFF. */
  predicate EndFlagSet(ram: Ram) {
    ram[EndFlagAddr] == 0xFF
  }

  /** A stream whose next three values are the two integers and the boolean `SaveState` writes. */
  predicate HoldsSavedState(s: seq<Token>) {
    |s| >= 3 && s[0].IntToken? && s[1].IntToken? && s[2].BoolToken?
  }

  const NoSuchMode: string := "This mode doesn't currently exist for this game"

  class SkiingSettings {
    /** The reward of the latest step. */
    var reward: int
    /** The race time decoded at the latest step. */
    var score: int
    /** Whether the latest step saw the end-of-race flag. */
    var terminal: bool
    /** The game mode that `Reset` selects. */
    var mode: int

    /** The mode is always one of the game's modes. */
    ghost predicate Valid()
      reads this
    {
      IsMode(mode)
    }

    constructor ()
      ensures Valid()
      ensures reward == 0 && score == 0 && !terminal && mode == 1
    {
      reward := 0;
      score := 0;
      terminal := false;
      mode := 1;
    }

    /** A new adapter with the same field values. */
    method Clone() returns (c: SkiingSettings)
      ensures fresh(c)
      ensures c.reward == reward && c.score == score && c.terminal == terminal && c.mode == mode
    {
      c := new SkiingSettings();
      c.reward, c.score, c.terminal, c.mode := reward, score, terminal, mode;
    }

    /**
     * Processes the latest frame: the score becomes the clock shown in RAM,
     * the reward the old score minus the new one, and the terminal flag is
     * recomputed from the end-of-race byte.  The mode is not touched.
     */
    method Step(console: Console)
      modifies this`reward, this`score, this`terminal
      ensures score == ElapsedScore(console.ram)
      ensures GetReward() == StepReward(old(score), console.ram)
      ensures IsTerminal() == EndFlagSet(console.ram)
      ensures mode == old(mode)
    {
      var centiseconds := DecimalScore(console.ram, CentisecondsAddr, SecondsAddr);
      var minutes := console.ReadRam(MinutesAddr);
      var newScore := minutes * CentisecondsPerMinute + centiseconds;
      reward := score - newScore;
      score := newScore;
      var endFlag := console.ReadRam(EndFlagAddr);
      terminal := endFlag == 0xFF;
    }

    /** Whether the episode has ended, as the latest step (or reset or load) left it. */
    function IsTerminal(): (r: bool)
      reads this
      ensures r <==> terminal
    {
      terminal
    }

    /** The reward of the latest step (or reset or load). */
    function GetReward(): (r: int)
      reads this
      ensures r == reward
    {
      reward
    }

    /** Only doing nothing and steering left or right are needed to play. */
    static function IsMinimal(a: Action): (r: bool)
      ensures r <==> Controls(a).Some? && Controls(a).value.vertical == 0 && !Controls(a).value.fire
    {
      match a
      case Noop | Right | Left => true
      case _ => false
    }

    /** Every action that holds the fire button is refused; all others are allowed. */
    static function IsLegal(a: Action): (r: bool)
      ensures r <==> !PressesFire(a)
    {
      match a
      case Fire | UpFire | DownFire | LeftFire | RightFire
        | UpLeftFire | UpRightFire | DownLeftFire | DownRightFire => false
      case _ => true
    }

    /** Starts a new episode in the current mode: clears the step state and selects `mode` again. */
    method Reset(console: Console) returns (ghost presses: nat, ghost polled: Byte)
      requires Valid() && console.Valid()
      requires console.modeAddr == ModeAddr && mode in console.modeCycle
      modifies this, console
      ensures Valid() && console.Valid()
      ensures reward == 0 && score == 0 && !terminal && mode == old(mode)
      ensures presses >= 1 && polled == mode && console.ram[ModeAddr] == mode
      ensures console.inputs == old(console.inputs) + seq(presses, _ => Select(2)) + [SoftReset]
    {
      reward := 0;
      score := 0;
      terminal := false;
      var status;
      status, presses, polled := SetMode(mode, console);
    }

    /** Writes reward, score and terminal flag, in that order. */
    method SaveState(ser: Serializer)
      modifies ser
      ensures ser.data == old(ser.data) + [IntToken(reward), IntToken(score), BoolToken(terminal)]
    {
      ser.PutInt(reward);
      ser.PutInt(score);
      ser.PutBool(terminal);
    }

    /**
     * Reads reward, score and terminal flag, in that order.  A read that
     * fails ends the load, so the fields read before it keep their new
     * values and the rest keep their old ones.  The mode is not touched.
     */
    method LoadState(des: Deserializer) returns (status: Status)
      modifies this`reward, this`score, this`terminal, des
      ensures status.Success? <==> HoldsSavedState(old(des.rest))
      ensures status.Success? ==> des.rest == old(des.rest)[3..]
      ensures reward == (if old(des.rest) != [] && old(des.rest)[0].IntToken?
                         then old(des.rest)[0].i else old(reward))
      ensures score == (if |old(des.rest)| >= 2 && old(des.rest)[0].IntToken? && old(des.rest)[1].IntToken?
                        then old(des.rest)[1].i else old(score))
      ensures terminal == (if HoldsSavedState(old(des.rest)) then old(des.rest)[2].b else old(terminal))
      ensures mode == old(mode)
    {
      var r := des.GetInt();
      if r.None? {
        return Failure("cannot read the reward");
      }
      reward := r.value;
      var s := des.GetInt();
      if s.None? {
        return Failure("cannot read the score");
      }
      score := s.value;
      var t := des.GetBool();
      if t.None? {
        return Failure("cannot read the terminal flag");
      }
      terminal := t.value;
      status := Success;
    }

    /** Sixteen presses of Down, which skip the race's opening. */
    method GetStartingActions() returns (actions: seq<Action>)
      ensures |actions| == 16
      ensures forall i :: 0 <= i < |actions| ==> actions[i] == Down
      ensures forall i :: 0 <= i < |actions| ==> IsLegal(actions[i])
    {
      actions := [];
      for i := 0 to 16
        invariant |actions| == i
        invariant forall k :: 0 <= k < i ==> actions[k] == Down
      {
        actions := actions + [Down];
      }
    }

    /** The modes 1 to 10, in increasing order. */
    method GetAvailableModes() returns (modes: seq<int>)
      ensures |modes| == 10
      ensures forall i :: 0 <= i < |modes| ==> modes[i] == i + 1
      ensures forall m :: m in modes <==> IsMode(m)
    {
      var a := new int[10];
      for i := 0 to 10
        invariant forall k :: 0 <= k < i ==> a[k] == k + 1
      {
        a[i] := i + 1;
      }
      modes := a[..];
      forall m | IsMode(m)
        ensures m in modes
      {
        assert modes[m - 1] == m;
      }
    }

    /**
     * Selects mode `m`.  A mode outside 1..10 is refused and nothing
     * changes.  Otherwise the adapter records `m`, presses Select once to
     * open the selection screen, keeps pressing Select until the mode byte
     * shows `m`, and soft-resets the console.
     *
     * The source loops for as long as the console needs; that it stops at
     * all rests on the console's cycle of modes containing `m`, which the
     * second `requires` states.  `polled` is the last value the loop read
     * from the mode byte, before the soft reset.
     */
    method SetMode(m: int, console: Console) returns (status: Status, ghost presses: nat, ghost polled: Byte)
      requires Valid() && console.Valid() && console.modeAddr == ModeAddr
      requires IsMode(m) ==> m in console.modeCycle
      modifies this`mode, console
      ensures Valid() && console.Valid()
      ensures status.Success? <==> IsMode(m)
      ensures !IsMode(m) ==> status == Failure(NoSuchMode) && mode == old(mode) && unchanged(console)
      ensures IsMode(m) ==> mode == m && presses >= 1 && polled == m && console.ram[ModeAddr] == m
      ensures IsMode(m) ==>
        console.cursor == CursorAfter(|console.modeCycle|, old(console.cursor), presses) &&
        console.cursor == (old(console.cursor) + presses) % |console.modeCycle| &&
        console.inputs == old(console.inputs) + seq(presses, _ => Select(2)) + [SoftReset]
      ensures IsMode(m) ==> forall p :: 1 <= p < presses ==>
        console.modeCycle[CursorAfter(|console.modeCycle|, old(console.cursor), p)] != m
    {
      if !IsMode(m) {
        return Failure(NoSuchMode), 0, 0;
      }
      mode := m;
      ghost var n, c0 := |console.modeCycle|, console.cursor;
      ghost var target :| 0 <= target < n && console.modeCycle[target] == m;
      console.PressSelect(2);
      presses := 1;
      var shown := console.ReadRam(ModeAddr);
      while shown != mode
        invariant console.Valid() && console.modeAddr == ModeAddr && |console.modeCycle| == n
        invariant mode == m && 1 <= presses
        invariant console.cursor == CursorAfter(n, c0, presses)
        invariant shown == console.ram[ModeAddr] == console.modeCycle[console.cursor]
        invariant console.inputs == old(console.inputs) + seq(presses, _ => Select(2))
        invariant forall p :: 1 <= p < presses ==> console.modeCycle[CursorAfter(n, c0, p)] != m
        decreases if target >= console.cursor then target - console.cursor else target - console.cursor + n
      {
        console.PressSelect(2);
        presses := presses + 1;
        shown := console.ReadRam(ModeAddr);
      }
      polled := shown;
      CursorAfterIsModular(n, c0, presses);
      console.SoftResetConsole();
      status := Success;
    }
  }
}
