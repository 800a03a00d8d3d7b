/** One creature's per-tick behaviour (creature.ts): find the nearest food,
    steer toward it, eat it when close, split on high energy, move, bounce off
    the walls and drain energy.

    The pure function `Step` is the specification of one update, over the
    value `Agent` (a creature's numeric state); the class `Creature` holds
    the same fields and its method `Update` mutates them in place, proved
    against `Step`. Randomness and the floating-point direction
    normalisation are inputs: `Steer` gives the velocity toward a food from
    the offset to it, `Draw` holds the four random numbers a newborn consumes. */
module Creatures {
  import opened Seqs
  import opened Foods

  const InitialEnergy: real := 100.0
  const FoodEnergy: real := 50.0
  /** `len < 5` on the Euclidean distance is `dx*dx + dy*dy < 25` on the squared one. */
  const EatRadiusSq: real := 25.0
  const SplitThreshold: real := 150.0
  const DrainRate: real := 5.0
  /** The child is placed at `parent + random*10 - 5` on each axis. */
  const ChildSpread: real := 10.0

  /** A creature's numeric state. `dead` is the flag the world checks after
      each update; no creature operation ever sets it. */
  datatype Agent = Agent(x: real, y: real, vx: real, vy: real, energy: real, dead: bool)

  /** The `Math.random()` values one newborn consumes, in call order: two for
      its position, two for its initial velocity. */
  datatype Draw = Draw(px: real, py: real, pvx: real, pvy: real)

  /** The velocity a creature takes toward a food, given the offset `(dx, dy)`
      to it; in the source `(dx/len*50, dy/len*50)` with `len = sqrt(dx*dx+dy*dy)`. */
  type Steer = (real, real) -> (real, real)

  /** What one update produces: the creature's new state, the food array after
      it, and the child it appended to the world, if any. */
  datatype Outcome = Outcome(self: Agent, foods: seq<Food>, child: Option<Agent>)

  /** `(Math.random() - 0.5) * 2`, given the random number. */
  function InitialVelocity(r: real): (v: real)
    ensures 0.0 <= r < 1.0 ==> -1.0 <= v < 1.0
  {
    (r - 0.5) * 2.0
  }

  /** The state of a freshly constructed creature at `(x, y)`. */
  function Newborn(x: real, y: real, rx: real, ry: real): Agent
  {
    Agent(x, y, InitialVelocity(rx), InitialVelocity(ry), InitialEnergy, false)
  }

  // ---------------------------------------------------------------------------
  // Nearest food

  /** The result of the nearest-food scan after it has looked at `foods[..n]`:
      a later food replaces the current best only when strictly closer. */
  function NearestIn(foods: seq<Food>, x: real, y: real, n: nat): (r: Option<nat>)
    requires n <= |foods|
    ensures r.Some? ==> r.value < n
  {
    if n == 0 then None
    else
      var best := NearestIn(foods, x, y, n - 1);
      if best.None? || SqDist(foods[n - 1], x, y) < SqDist(foods[best.value], x, y)
      then Some(n - 1)
      else best
  }

  /** The index the full scan picks. */
  function Nearest(foods: seq<Food>, x: real, y: real): (r: Option<nat>)
    ensures r.Some? ==> r.value < |foods|
  {
    NearestIn(foods, x, y, |foods|)
  }

  /** `k` is the first index of minimal squared distance. */
  ghost predicate IsFirstNearest(foods: seq<Food>, x: real, y: real, k: nat)
  {
    && k < |foods|
    && (forall j :: 0 <= j < |foods| ==> SqDist(foods[k], x, y) <= SqDist(foods[j], x, y))
    && (forall j :: 0 <= j < k ==> SqDist(foods[k], x, y) < SqDist(foods[j], x, y))
  }

  /** The scan over a prefix finds the first minimum of that prefix, and finds
      nothing only on an empty prefix. */
  lemma {:induction false} NearestInIsFirstNearest(foods: seq<Food>, x: real, y: real, n: nat)
    requires n <= |foods|
    ensures NearestIn(foods, x, y, n).None? <==> n == 0
    ensures NearestIn(foods, x, y, n).Some? ==> IsFirstNearest(foods[..n], x, y, NearestIn(foods, x, y, n).value)
  {
    if n > 0 {
      NearestInIsFirstNearest(foods, x, y, n - 1);
      var best := NearestIn(foods, x, y, n - 1);
      var r := NearestIn(foods, x, y, n);
      var p := foods[..n];
      assert forall j :: 0 <= j < n - 1 ==> p[j] == foods[..n - 1][j];
    }
  }

  /** The nearest food is the first one at minimal squared distance; there is
      none exactly when the food array is empty. */
  lemma NearestIsFirstNearest(foods: seq<Food>, x: real, y: real)
    ensures Nearest(foods, x, y).None? <==> foods == []
    ensures Nearest(foods, x, y).Some? ==> IsFirstNearest(foods, x, y, Nearest(foods, x, y).value)
  {
    NearestInIsFirstNearest(foods, x, y, |foods|);
    assert foods[..|foods|] == foods;
  }

  /** At most one index is a first minimum, so the tie-break is determined. */
  lemma FirstNearestUnique(foods: seq<Food>, x: real, y: real, k1: nat, k2: nat)
    requires IsFirstNearest(foods, x, y, k1) && IsFirstNearest(foods, x, y, k2)
    ensures k1 == k2
  {
    var d1, d2 := SqDist(foods[k1], x, y), SqDist(foods[k2], x, y);
    assert d1 <= d2 && d2 <= d1;
    assert k1 < k2 ==> d2 < d1;
    assert k2 < k1 ==> d1 < d2;
  }

  /** No earlier food equals the nearest one, so `indexOf(closest)` in the
      source finds the index the scan chose. */
  lemma NearestIsFirstOccurrence(foods: seq<Food>, x: real, y: real)
    requires Nearest(foods, x, y).Some?
    ensures forall j :: 0 <= j < Nearest(foods, x, y).value ==> foods[j] != foods[Nearest(foods, x, y).value]
  {
    NearestIsFirstNearest(foods, x, y);
  }

  // ---------------------------------------------------------------------------
  // One update, as a function of the state before it

  /** The velocity after the target search: toward the nearest food if there
      is one, otherwise the old velocity. */
  function Heading(a: Agent, foods: seq<Food>, steer: Steer): (real, real)
  {
    match Nearest(foods, a.x, a.y)
    case Some(k) => steer(foods[k].x - a.x, foods[k].y - a.y)
    case None => (a.vx, a.vy)
  }

  /** The index of the food eaten: the nearest one, if it lies within the eat radius. */
  function Eaten(foods: seq<Food>, x: real, y: real): (r: Option<nat>)
    ensures r.Some? ==> r.value < |foods|
  {
    match Nearest(foods, x, y)
    case Some(k) => if SqDist(foods[k], x, y) < EatRadiusSq then Some(k) else None
    case None => None
  }

  /** Energy after the eat step. */
  function Fed(a: Agent, foods: seq<Food>): real
  {
    if Eaten(foods, a.x, a.y).Some? then a.energy + FoodEnergy else a.energy
  }

  /** The food array after the eat step. */
  function Leftover(a: Agent, foods: seq<Food>): seq<Food>
  {
    match Eaten(foods, a.x, a.y)
    case Some(k) => RemoveAt(foods, k)
    case None => foods
  }

  /** Energy after the reproduction step. */
  function Kept(fed: real): real
  {
    if fed > SplitThreshold then fed / 2.0 else fed
  }

  /** `v` negated when the coordinate `p` lies outside `[0, bound]`. */
  function Bounce(p: real, v: real, bound: real): real
  {
    if p < 0.0 || p > bound then -v else v
  }

  /** The child born when the energy after eating, `fed`, exceeds the
      threshold: next to the parent's position, holding half of `fed`. */
  function Offspring(a: Agent, fed: real, draw: Draw): Option<Agent>
  {
    if fed > SplitThreshold
    then Some(Newborn(a.x + draw.px * ChildSpread - 5.0, a.y + draw.py * ChildSpread - 5.0, draw.pvx, draw.pvy)
                .(energy := Kept(fed)))
    else None
  }

  /** Explicit Euler integration of one coordinate: `p + v*dt`. */
  function Integrate(p: real, v: real, dt: real): real
  {
    p + v * dt
  }

  /** The state after moving with velocity `v` for `dt`, bouncing and
      draining, starting from energy `kept`. */
  function Moved(a: Agent, v: (real, real), kept: real, dt: real, width: real, height: real): Agent
  {
    var nx, ny := Integrate(a.x, v.0, dt), Integrate(a.y, v.1, dt);
    Agent(nx, ny, Bounce(nx, v.0, width), Bounce(ny, v.1, height), kept - dt * DrainRate, a.dead)
  }

  /** One call of `Creature.update` on the state `a`. */
  function Step(a: Agent, dt: real, width: real, height: real, foods: seq<Food>, steer: Steer, draw: Draw): Outcome
  {
    Outcome(Moved(a, Heading(a, foods, steer), Kept(Fed(a, foods)), dt, width, height),
            Leftover(a, foods),
            Offspring(a, Fed(a, foods), draw))
  }

  // ---------------------------------------------------------------------------
  // Properties of one update

  /** With no food at all there is no target and the velocity is kept. */
  lemma NoFoodKeepsHeading(a: Agent, steer: Steer)
    ensures Heading(a, [], steer) == (a.vx, a.vy)
    ensures Eaten([], a.x, a.y).None?
  {
  }

  /** The creature eats exactly when its nearest food is within the eat radius;
      it then gains exactly `FoodEnergy` and exactly that food leaves the array,
      the others keeping their order. Otherwise energy and array are unchanged. */
  lemma StepEats(a: Agent, dt: real, width: real, height: real, foods: seq<Food>, steer: Steer, draw: Draw)
    ensures var o := Step(a, dt, width, height, foods, steer, draw);
      var k := Nearest(foods, a.x, a.y);
      && (Eaten(foods, a.x, a.y).Some? <==> k.Some? && SqDist(foods[k.value], a.x, a.y) < EatRadiusSq)
      && (Eaten(foods, a.x, a.y).Some? ==>
            && Fed(a, foods) == a.energy + FoodEnergy
            && o.foods == RemoveAt(foods, k.value)
            && |o.foods| == |foods| - 1)
      && (Eaten(foods, a.x, a.y).None? ==> Fed(a, foods) == a.energy && o.foods == foods)
      && IsSubseq(o.foods, foods)
  {
    match Eaten(foods, a.x, a.y)
    case Some(k) => RemoveAtIsSubseq(foods, k);
    case None => SubseqRefl(foods);
  }

  /** Reproduction happens exactly when the energy after eating exceeds the
      threshold; parent and child then each hold half of it, so together they
      hold all of it, and the child is a live creature next to the parent's
      position before it moved. */
  lemma StepSplits(a: Agent, dt: real, width: real, height: real, foods: seq<Food>, steer: Steer, draw: Draw)
    ensures var o := Step(a, dt, width, height, foods, steer, draw);
      var fed := Fed(a, foods);
      && (o.child.Some? <==> fed > SplitThreshold)
      && (o.child.Some? ==>
            && o.child.value.energy == fed / 2.0
            && o.self.energy + dt * DrainRate + o.child.value.energy == fed
            && !o.child.value.dead
            && o.child.value.x == a.x + draw.px * ChildSpread - 5.0
            && o.child.value.y == a.y + draw.py * ChildSpread - 5.0
            && (0.0 <= draw.px < 1.0 ==> a.x - 5.0 <= o.child.value.x < a.x + 5.0)
            && (0.0 <= draw.py < 1.0 ==> a.y - 5.0 <= o.child.value.y < a.y + 5.0))
  {
  }

  /** The position advances by the velocity chosen in the same update times
      `dt`, and is never clamped to the world. */
  lemma StepMoves(a: Agent, dt: real, width: real, height: real, foods: seq<Food>, steer: Steer, draw: Draw)
    ensures var o := Step(a, dt, width, height, foods, steer, draw);
      var v := Heading(a, foods, steer);
      o.self.x == a.x + v.0 * dt && o.self.y == a.y + v.1 * dt
  {
  }

  /** A velocity component is negated exactly when the new position lies
      outside `[0, width]` (resp. `[0, height]`) on that axis; otherwise it is
      the one chosen by the target search. */
  lemma StepBounces(a: Agent, dt: real, width: real, height: real, foods: seq<Food>, steer: Steer, draw: Draw)
    ensures var o := Step(a, dt, width, height, foods, steer, draw);
      var v := Heading(a, foods, steer);
      && (o.self.x < 0.0 || o.self.x > width ==> o.self.vx == -v.0)
      && (0.0 <= o.self.x <= width ==> o.self.vx == v.0)
      && (o.self.y < 0.0 || o.self.y > height ==> o.self.vy == -v.1)
      && (0.0 <= o.self.y <= height ==> o.self.vy == v.1)
  {
  }

  /** Energy ends at the post-reproduction energy minus `5*dt`, whatever it
      reaches; the update never sets the death flag. */
  lemma StepDrains(a: Agent, dt: real, width: real, height: real, foods: seq<Food>, steer: Steer, draw: Draw)
    ensures var o := Step(a, dt, width, height, foods, steer, draw);
      && o.self.energy == Kept(Fed(a, foods)) - DrainRate * dt
      && o.self.dead == a.dead
      && (Eaten(foods, a.x, a.y).None? && Fed(a, foods) <= SplitThreshold ==> o.self.energy == a.energy - DrainRate * dt)
  {
  }

  /** Energy 140 with a food at distance 2 and `dt = 1`: it eats (190), splits
      (95 each) and drains to 90; the food is gone. */
  lemma EatSplitDrainExample(steer: Steer, draw: Draw)
    ensures var o := Step(Agent(100.0, 100.0, 0.0, 0.0, 140.0, false), 1.0, 1200.0, 800.0,
                          [Food(102.0, 100.0)], steer, draw);
      && o.self.energy == 90.0
      && o.child.Some? && o.child.value.energy == 95.0
      && o.foods == []
  {
    assert SqDist(Food(102.0, 100.0), 100.0, 100.0) == 4.0;
  }

  // ---------------------------------------------------------------------------
  // The creature object

  class Creature {
    var x: real
    var y: real
    var vx: real
    var vy: real
    var energy: real
    var dead: bool

    /** The creature's numeric state as a value. */
    function State(): Agent
      reads this
    {
      Agent(x, y, vx, vy, energy, dead)
    }

    /** A creature at `(x0, y0)` with energy 100; `rx`, `ry` are the random
        numbers its initial velocity is drawn from. */
    constructor(x0: real, y0: real, rx: real, ry: real)
      ensures State() == Newborn(x0, y0, rx, ry)
    {
      x, y := x0, y0;
      vx, vy := InitialVelocity(rx), InitialVelocity(ry);
      energy := InitialEnergy;
      dead := false;
    }

    /** The nearest-food loop: the first food of minimal squared distance. */
    method FindNearest(foods: seq<Food>) returns (closest: Option<nat>)
      ensures closest == Nearest(foods, x, y)
      ensures closest.None? <==> foods == []
      ensures closest.Some? ==> IsFirstNearest(foods, x, y, closest.value)
    {
      closest := None;
      var minDist := 0.0;
      var i := 0;
      while i < |foods|
        invariant 0 <= i <= |foods|
        invariant closest == NearestIn(foods, x, y, i)
        invariant closest.Some? ==> minDist == SqDist(foods[closest.value], x, y)
      {
        var dist := SqDist(foods[i], x, y);
        if closest.None? || dist < minDist {
          minDist := dist;
          closest := Some(i);
        }
        i := i + 1;
      }
      NearestIsFirstNearest(foods, x, y);
    }

    /** One tick of this creature. `foods` is the world's shared food array
        and `rest` what is left of it; a child, when one is born, is returned
        for the world to append to its creature list. */
    method Update(dt: real, width: real, height: real, foods: seq<Food>, steer: Steer, draw: Draw)
      returns (rest: seq<Food>, child: Creature?)
      modifies this
      ensures var o := Step(old(State()), dt, width, height, foods, steer, draw);
        && State() == o.self
        && rest == o.foods
        && (child == null <==> o.child.None?)
        && (child != null ==> fresh(child) && child.State() == o.child.value)
    {
      ghost var a := State();
      rest := Seek(foods, steer);
      ghost var fed := energy;
      child := Reproduce(draw);
      ghost var b := State();
      Travel(dt, width, height);
      assert b == Agent(a.x, a.y, Heading(a, foods, steer).0, Heading(a, foods, steer).1, Kept(fed), a.dead);
    }

    /** Steering and eating: head for the nearest food and eat it when it is
        within the eat radius. */
    method Seek(foods: seq<Food>, steer: Steer) returns (rest: seq<Food>)
      modifies this`vx, this`vy, this`energy
      ensures (vx, vy) == Heading(old(State()), foods, steer)
      ensures energy == Fed(old(State()), foods)
      ensures rest == Leftover(old(State()), foods)
    {
      rest := foods;
      var closest := FindNearest(foods);
      if closest.Some? {
        var k := closest.value;
        var dx := foods[k].x - x;
        var dy := foods[k].y - y;
        var v := steer(dx, dy);
        vx, vy := v.0, v.1;
        if SqDist(foods[k], x, y) < EatRadiusSq {
          energy := energy + FoodEnergy;
          rest := RemoveAt(foods, k);
        }
      }
    }

    /** Reproduction: above the threshold the energy is halved and a child
        holding the other half is born next to the creature. */
    method Reproduce(draw: Draw) returns (child: Creature?)
      modifies this`energy
      ensures energy == Kept(old(energy))
      ensures child == null <==> Offspring(old(State()), old(energy), draw).None?
      ensures child != null ==> fresh(child) && child.State() == Offspring(old(State()), old(energy), draw).value
    {
      child := null;
      if energy > SplitThreshold {
        energy := energy / 2.0;
        child := new Creature(x + draw.px * ChildSpread - 5.0, y + draw.py * ChildSpread - 5.0, draw.pvx, draw.pvy);
        child.energy := energy;
      }
    }

    /** Movement: integrate the position, bounce off the world's edges and
        pay the energy drain. */
    method Travel(dt: real, width: real, height: real)
      modifies this`x, this`y, this`vx, this`vy, this`energy
      ensures State() == Moved(old(State()), (old(vx), old(vy)), old(energy), dt, width, height)
    {
      x := Integrate(x, vx, dt);
      y := Integrate(y, vy, dt);
      if x < 0.0 || x > width {
        vx := -vx;
      }
      if y < 0.0 || y > height {
        vy := -vy;
      }
      energy := energy - dt * DrainRate;
    }
  }
}
