/**
 * Properties of the Skiing adapter that relate several operations: the
 * clock decoder against an independent clock encoder, the reward as the
 * time that passed, the action sets, and short call sequences of the class.
 */
module SkiingProperties {
  import opened Outcomes
  import opened Atari
  import opened Actions
  import opened Serialization
  import opened RomUtils
  import opened Skiing

  /** The longest race the minutes byte can show, in centiseconds. */
  const ClockLimit: nat := 256 * 6000

  /** RAM whose race clock shows `t` centiseconds: raw minutes, packed-decimal seconds and hundredths. */
  function ShowClock(ram: Ram, t: nat): (r: Ram)
    requires t < ClockLimit
    ensures forall a :: 0 <= a < 256 && a != MinutesAddr && a != SecondsAddr && a != CentisecondsAddr ==> r[a] == ram[a]
  {
    ram[MinutesAddr := t / 6000][SecondsAddr := ToBcd((t % 6000) / 100)][CentisecondsAddr := ToBcd(t % 100)]
  }

  /** RAM that shows a well-formed clock: decimal seconds below 60 and decimal hundredths. */
  predicate ShowsClock(ram: Ram) {
    IsBcd(ram[SecondsAddr]) && Bcd(ram[SecondsAddr]) < 60 && IsBcd(ram[CentisecondsAddr])
  }

  /** The decoder reads back every clock value the console can show. */
  lemma ElapsedScoreOfClock(ram: Ram, t: nat)
    requires t < ClockLimit
    ensures ShowsClock(ShowClock(ram, t))
    ensures ElapsedScore(ShowClock(ram, t)) == t
  {
    var r := ShowClock(ram, t);
    var minutes, rest := t / 6000, t % 6000;
    var seconds, hundredths := rest / 100, rest % 100;
    assert t % 100 == hundredths by {
      DivModUnique(t, 6000, minutes, rest);
      DivModUnique(rest, 100, seconds, hundredths);
      DivModUnique(t, 100, minutes * 60 + seconds, hundredths);
    }
    BcdOfToBcd(seconds);
    BcdOfToBcd(hundredths);
    assert r[MinutesAddr] == minutes;
    assert DecimalScore(r, CentisecondsAddr, SecondsAddr) == hundredths + 100 * seconds;
  }

  /** A well-formed clock is exactly what `ShowClock` writes for the time it decodes to. */
  lemma ShowClockOfElapsedScore(ram: Ram)
    requires ShowsClock(ram)
    ensures ElapsedScore(ram) < ClockLimit
    ensures ShowClock(ram, ElapsedScore(ram)) == ram
  {
    var minutes: nat, seconds, hundredths := ram[MinutesAddr], Bcd(ram[SecondsAddr]), Bcd(ram[CentisecondsAddr]);
    var t := ElapsedScore(ram);
    var rest := 100 * seconds + hundredths;
    assert t == minutes * 6000 + rest;
    DivModUnique(t, 6000, minutes, rest);
    DivModUnique(rest, 100, seconds, hundredths);
    DivModUnique(t, 100, minutes * 60 + seconds, hundredths);
    ToBcdOfBcd(ram[SecondsAddr]);
    ToBcdOfBcd(ram[CentisecondsAddr]);
  }

  /** A step's reward is minus the race time that passed since the previous step. */
  lemma RewardIsTimePassed(before: Ram, after: Ram, t1: nat, t2: nat)
    requires t1 < ClockLimit && t2 < ClockLimit
    ensures StepReward(ElapsedScore(ShowClock(before, t1)), ShowClock(after, t2)) == t1 - t2
  {
    ElapsedScoreOfClock(before, t1);
    ElapsedScoreOfClock(after, t2);
  }

  /** Every action of the minimal set is legal. */
  lemma MinimalIsLegal(a: Action)
    ensures SkiingSettings.IsMinimal(a) ==> SkiingSettings.IsLegal(a)
  {
  }

  /** Two steps on the same RAM: the second one rewards nothing. */
  method RepeatedStepRewardsNothing(g: SkiingSettings, console: Console)
    modifies g
    ensures g.GetReward() == 0
    ensures g.score == ElapsedScore(console.ram)
  {
    g.Step(console);
    g.Step(console);
  }

  /** The terminal flag follows the end-of-race byte of the latest step only: it is not sticky. */
  method TerminalFollowsLatestStep(g: SkiingSettings, console: Console, flag: Byte)
    modifies g, console
    ensures g.IsTerminal() <==> flag == 0xFF
  {
    console.ram := console.ram[EndFlagAddr := 0xFF];
    g.Step(console);
    assert g.IsTerminal();
    console.ram := console.ram[EndFlagAddr := flag];
    g.Step(console);
  }

  /** Saving one adapter and loading the stream into another copies the three fields and keeps the mode. */
  method SaveThenLoad(source: SkiingSettings, target: SkiingSettings)
    modifies target
    ensures target.reward == old(source.reward) && target.score == old(source.score)
    ensures target.terminal == old(source.terminal) && target.mode == old(target.mode)
  {
    var ser := new Serializer();
    source.SaveState(ser);
    var des := new Deserializer(ser.data);
    var status := target.LoadState(des);
    assert status.Success?;
  }
}
