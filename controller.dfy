/** The play/pause switch and speed multiplier the animation loop consults
    before every tick. */
module Control {

  /** The controller's two settings as a value. */
  datatype Settings = Settings(running: bool, speed: real)

  /** The settings after the play/pause button: the switch flips, the speed stays. */
  function Toggled(s: Settings): (r: Settings)
    ensures r.running != s.running && r.speed == s.speed
  {
    s.(running := !s.running)
  }

  /** The settings after the speed slider moved to `multiplier`: the speed is
      the multiplier, the switch stays. */
  function Retimed(s: Settings, multiplier: real): (r: Settings)
    ensures r.speed == multiplier && r.running == s.running
  {
    s.(speed := multiplier)
  }

  /** Pressing the play/pause button twice restores the settings. */
  lemma ToggleTwice(s: Settings)
    ensures Toggled(Toggled(s)) == s
    ensures Toggled(s) != s
  {
  }

  /** Setting the speed twice keeps only the last value, and setting it to
      the current value changes nothing. */
  lemma RetimeTwice(s: Settings, m: real, n: real)
    ensures Retimed(Retimed(s, m), n) == Retimed(s, n)
    ensures Retimed(s, s.speed) == s
  {
  }

  class SimulationController {
    var running: bool
    var speed: real

    function Current(): Settings
      reads this
    {
      Settings(running, speed)
    }

    /** A new controller is running at normal speed. */
    constructor()
      ensures running && speed == 1.0
    {
      running := true;
      speed := 1.0;
    }

    method TogglePause()
      modifies this
      ensures Current() == Toggled(old(Current()))
    {
      running := !running;
    }

    method SetSpeed(multiplier: real)
      modifies this
      ensures Current() == Retimed(old(Current()), multiplier)
    {
      speed := multiplier;
    }

    method IsRunning() returns (r: bool)
      ensures r == Current().running
    {
      r := running;
    }

    method GetSpeed() returns (r: real)
      ensures r == Current().speed
    {
      r := speed;
    }
  }
}
