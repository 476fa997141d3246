/**
 * The emulator's action enumeration, as far as the Skiing adapter looks at
 * it: the eighteen PLAYER_A_* joystick actions by name, and every other
 * action (player B's, reset, ...) folded into `Other`.
 */
module Actions {
  import opened Outcomes

  datatype Action =
    | Noop | Fire | Up | Right | Left | Down
    | UpRight | UpLeft | DownRight | DownLeft
    | UpFire | RightFire | LeftFire | DownFire
    | UpRightFire | UpLeftFire | DownRightFire | DownLeftFire
    | Other

  /**
   * What a player-A action does with the joystick: its vertical push
   * (1 up, -1 down), its horizontal push (1 right, -1 left) and whether
   * the fire button is held.
   */
  datatype Stick = Stick(vertical: int, horizontal: int, fire: bool)

  /** The joystick position an action stands for; `None` for actions that are not player A's. */
  function Controls(a: Action): Option<Stick> {
    match a
    case Noop => Some(Stick(0, 0, false))
    case Fire => Some(Stick(0, 0, true))
    case Up => Some(Stick(1, 0, false))
    case Right => Some(Stick(0, 1, false))
    case Left => Some(Stick(0, -1, false))
    case Down => Some(Stick(-1, 0, false))
    case UpRight => Some(Stick(1, 1, false))
    case UpLeft => Some(Stick(1, -1, false))
    case DownRight => Some(Stick(-1, 1, false))
    case DownLeft => Some(Stick(-1, -1, false))
    case UpFire => Some(Stick(1, 0, true))
    case RightFire => Some(Stick(0, 1, true))
    case LeftFire => Some(Stick(0, -1, true))
    case DownFire => Some(Stick(-1, 0, true))
    case UpRightFire => Some(Stick(1, 1, true))
    case UpLeftFire => Some(Stick(1, -1, true))
    case DownRightFire => Some(Stick(-1, 1, true))
    case DownLeftFire => Some(Stick(-1, -1, true))
    case Other => None
  }

  /** Whether the action holds the fire button down. */
  predicate PressesFire(a: Action) {
    Controls(a).Some? && Controls(a).value.fire
  }

}
