# Skiing game adapter

A Dafny model of `SkiingSettings`, the adapter that lets a learning harness
play Atari 2600 Skiing on the Arcade Learning Environment.  Once per frame the
adapter reads the race clock from console RAM and turns the time that passed
into a negative reward.  It also reads the end-of-race flag.  It says which
joystick actions are legal and which are minimal, and lists the game modes.
It saves and loads its state, and it selects a mode by pressing Select until
the console's mode byte shows the wanted mode.

Modules:

- `Atari` (atari.dfy): bytes, the 256-byte RAM, and a `Console` class that
  stands for the emulator's `System` and `StellaEnvironment`.  It holds the
  RAM, the cycle of values the mode byte takes as Select is pressed, and a
  log of injected inputs.
- `Actions` (actions.dfy): the player-A actions by name, with `Other` for
  the rest of the enumeration.  `Controls` is a reference decomposition of
  each action into joystick direction and fire button.
- `Serialization` (serialization.dfy): the state stream as a sequence of
  tagged integers and booleans.
- `RomUtils` (rom_utils.dfy): the packed-decimal decoder `getDecimalScore`.
- `Skiing` (skiing.dfy): the adapter class `SkiingSettings` and the
  functions that specify it.
- `SkiingProperties` (skiing_properties.dfy): lemmas and client methods that
  relate several operations.

`SkiingSettings.Valid()` says that the mode is in 1..10.  The constructor
establishes it and every method keeps it, so it holds in every reachable
state.  `IsTerminal` and `GetReward` are plain field reads; the contract
of `Step` is stated through them.

The terminal flag is recomputed on every step, as the code does
(src/games/supported/Skiing.cpp:46-47).  It is not sticky: a later step
that reads another value at 0x91 clears it.  Some descriptions of this
adapter call the flag sticky until reset.  The model follows the code.

## Model

| member | source | states |
|---|---|---|
| `RomUtils.DecimalScore` | src/games/supported/Skiing.cpp:38 | the decoded hundredths-and-seconds value is at most 16665, and at most 9999 when both bytes are valid packed decimal |
| `RomUtils.BcdOfToBcd` | src/games/supported/Skiing.cpp:38 | decoding the packed-decimal byte of any two-digit number gives the number back |
| `RomUtils.ToBcdOfBcd` | src/games/supported/Skiing.cpp:38 | every valid packed-decimal byte is the encoding of the number it decodes to |
| `Skiing.ElapsedScore` | src/games/supported/Skiing.cpp:38-40 | the score, raw minutes times 6000 plus the decoded seconds and hundredths, is at most 1546665, so it fits a 32-bit int |
| `Skiing.StepReward` | src/games/supported/Skiing.cpp:41-42 | the reward is old score minus new score: negative exactly when the clock moved forward, positive exactly when it moved back, zero exactly when it did not move |
| `Skiing.SkiingSettings.constructor` | src/games/supported/Skiing.cpp:17-22 | a new adapter has reward 0, score 0, terminal false and mode 1, and satisfies the mode invariant |
| `Skiing.SkiingSettings.Clone` | src/games/supported/Skiing.cpp:26-31 | the clone is a new object with the same four field values |
| `Skiing.SkiingSettings.Step` | src/games/supported/Skiing.cpp:35-48 | the score becomes the decoded clock, the reward the old score minus it, and terminal becomes whether the byte at 0x91 is 0xFF; the mode is untouched |
| `Skiing.SkiingSettings.IsTerminal` | src/games/supported/Skiing.cpp:52-55 | returns the terminal flag as the latest `Step` (or `Reset`, or `LoadState`) left it, reading nothing else |
| `Skiing.SkiingSettings.GetReward` | src/games/supported/Skiing.cpp:59-62 | returns the reward the latest `Step` (or `Reset`, or `LoadState`) stored, reading nothing else |
| `Skiing.SkiingSettings.IsMinimal` | src/games/supported/Skiing.cpp:66-76 | an action is minimal exactly when it is a player-A action with no vertical push and no fire: NOOP, RIGHT and LEFT |
| `Skiing.SkiingSettings.IsLegal` | src/games/supported/Skiing.cpp:78-94 | an action is legal exactly when it does not hold the fire button |
| `Skiing.SkiingSettings.Reset` | src/games/supported/Skiing.cpp:97-103 | reward, score and terminal are cleared, the mode is kept and selected again, and the last value polled from the mode byte is that mode |
| `Skiing.SkiingSettings.SaveState` | src/games/supported/Skiing.cpp:106-110 | the stream gains reward, score and terminal, in that order, after what it held |
| `Skiing.SkiingSettings.LoadState` | src/games/supported/Skiing.cpp:113-117 | reward, score and terminal are read in that order; loading succeeds exactly when the stream holds two integers and a boolean; a failed read leaves that field and the later ones unchanged; the mode is never touched |
| `Skiing.SkiingSettings.GetStartingActions` | src/games/supported/Skiing.cpp:119-124 | sixteen actions, every one of them DOWN, and all legal |
| `Skiing.SkiingSettings.GetAvailableModes` | src/games/supported/Skiing.cpp:130-136 | ten modes with `modes[i] == i + 1`, and a value is listed exactly when it is a valid mode |
| `Skiing.SkiingSettings.SetMode` | src/games/supported/Skiing.cpp:139-157 | a mode outside 1..10 fails with the source's message and changes nothing; otherwise the mode is set, Select is pressed at least once, pressing stops at the first press that shows the mode, the last value polled from 0xEB is the mode, the cycle position advanced by the number of presses modulo the cycle length, and a soft reset follows |
| `SkiingProperties.ShowClock` | src/games/supported/Skiing.cpp:38-40 | writing a clock value changes only the minutes, seconds and hundredths bytes |
| `SkiingProperties.ElapsedScoreOfClock` | src/games/supported/Skiing.cpp:38-40 | the score decoded from a clock showing t centiseconds is t, for every t the minutes byte can hold |
| `SkiingProperties.ShowClockOfElapsedScore` | src/games/supported/Skiing.cpp:38-40 | RAM showing a well-formed clock is exactly the clock written for the score it decodes to |
| `SkiingProperties.RewardIsTimePassed` | src/games/supported/Skiing.cpp:38-42 | between two clock readings the reward is minus the centiseconds that passed |
| `SkiingProperties.MinimalIsLegal` | src/games/supported/Skiing.cpp:66-94 | every minimal action is legal |
| `SkiingProperties.RepeatedStepRewardsNothing` | src/games/supported/Skiing.cpp:40-43 | a second step on unchanged RAM gives reward 0 |
| `SkiingProperties.TerminalFollowsLatestStep` | src/games/supported/Skiing.cpp:46-47 | after a terminal step, the next step's flag depends only on its own end-of-race byte |
| `SkiingProperties.SaveThenLoad` | src/games/supported/Skiing.cpp:106-117 | loading what one adapter saved copies its reward, score and terminal flag and keeps the loader's mode |

## Left out

- The emulator's CPU, frame timing and RAM layout.  RAM is a 256-byte
  sequence indexed by address.  `readRam` is modelled as a plain read of
  that sequence.
- `getDecimalScore` lives in the ROM utilities, which are not part of this
  model.  It is taken to be the two-byte packed-decimal decoder: units and
  tens from the byte at 0xEA, hundreds and thousands from the byte at 0xE9.
  Nibbles above 9 are weighted like digits.
- Pressing Select only moves the mode byte to the next value of the
  console's mode cycle and logs the press with its frame count.  The other
  RAM changes of those frames are not modelled.
- The soft reset only logs itself.  RAM, the mode byte at 0xEB included,
  is assumed unchanged by it; what it does to the rest of the console is not
  modelled.  The contracts of `SetMode` and `Reset` also state the last value
  polled before the reset, which does not rest on this assumption.
- SetMode: the source's polling loop has no bound.  The model requires that
  a valid mode appears in the console's mode cycle, and proves that the loop
  then ends.  A console that never shows the mode, where the source hangs,
  is outside the model.
- Reset: it requires that the stored mode appears in the console's mode
  cycle, for the same reason.
- The byte encoding of the state stream.  The stream is a sequence of tagged
  values.  A read whose next value is missing or of the other kind fails and
  ends the load; how the real stream reports such failures is not modelled.
- Heap allocation in `clone`: only the copy of the field values is modelled.
- The widths of `reward_t` and `mode_t`.  Fields are unbounded integers.
  The decoded score is proved to fit a 32-bit int.  A reward computed from a
  loaded score of any size is not bounded.
