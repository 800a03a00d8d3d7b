/** The world's per-tick bookkeeping (world.ts): a uniform spatial grid of
    creatures, the reverse-index pass that updates creatures and removes the
    dead ones, the timer-driven food spawner with its cap, the ageing of
    visual effects and the bounded population history.

    Each piece has a pure specification here (`Sweep`, `Survivors`, `Bucket`,
    `Spawned`, `Aged`, `Push`) with its properties proved as lemmas; the
    class `World` at the end performs the same work in place and is proved
    against them. */
module Worlds {
  import opened Seqs
  import opened Foods
  import opened Creatures

  /** Side length of one grid cell. */
  const CellSize: real := 50.0
  /** The spawner never grows the food array past this many items. */
  const MaxFood: nat := 5000
  /** Number of population samples kept. */
  const HistoryLength: nat := 3000
  /** Lifetime at which an effect is fully opaque. */
  const FadeTime: real := 0.3
  /** Initial seconds between two spawned foods. */
  const InitialSpawnInterval: real := 0.1
  const SeedCreatures: nat := 50
  const SeedFoods: nat := 200

  // ---------------------------------------------------------------------------
  // Grid geometry

  /** `Math.ceil`. */
  function Ceil(r: real): int
  {
    -((-r).Floor)
  }

  lemma CeilBounds(r: real)
    ensures r <= Ceil(r) as real < r + 1.0
  {
  }

  /** Number of cells needed to cover `extent`: `ceil(extent / 50)`. */
  function CellCount(extent: real): int
  {
    Ceil(extent / CellSize)
  }

  /** Index of the cell containing coordinate `v`: `floor(v / 50)`. */
  function CellIndex(v: real): int
  {
    (v / CellSize).Floor
  }

  /** The cell of a creature state. */
  function Cell(a: Agent): (int, int)
  {
    (CellIndex(a.x), CellIndex(a.y))
  }

  /** A JavaScript array length built from `n`: negative counts give none. */
  function Clamp(n: int): nat
  {
    if n < 0 then 0 else n
  }

  /** Every coordinate of the half-open extent `[0, extent)` falls in one of
      the `CellCount(extent)` cells. A negative coordinate, or one at or beyond
      `CellCount(extent) * CellSize`, falls in none of them; one between the
      extent and that far edge of the grid still falls in the last cell, and
      the far edge `extent` itself falls in none when `extent` is a multiple
      of the cell size. */
  lemma CellsCoverExtent(v: real, extent: real)
    ensures 0.0 <= v < extent ==> 0 <= CellIndex(v) < CellCount(extent)
    ensures v < 0.0 ==> CellIndex(v) < 0
    ensures v >= CellCount(extent) as real * CellSize ==> CellIndex(v) >= CellCount(extent)
  {
    CeilBounds(extent / CellSize);
    if 0.0 <= v < extent {
      assert v / CellSize < extent / CellSize;
    }
  }

  /** On a 1200-wide world a creature at exactly `x = 1200` is in no column. */
  lemma FarEdgeOutsideGrid()
    ensures CellCount(1200.0) == 24 && CellIndex(1200.0) == 24
  {
  }

  /** On a 1210-wide world the grid reaches to 1250, so a creature that has
      moved past the world's edge to `x = 1220` is still in the last column. */
  lemma PastEdgeInLastColumn()
    ensures CellCount(1210.0) == 25 && CellIndex(1220.0) == 24
  {
  }

  // ---------------------------------------------------------------------------
  // The creature pass

  /** What the creature pass produces: the final states of the creatures that
      existed when it began (by their original index), the food array after
      it and the states of the children born, in birth order. */
  datatype Pass = Pass(agents: seq<Agent>, foods: seq<Food>, children: seq<Agent>)

  /** The children `o` adds to the world, as a sequence. */
  function Born(o: Outcome): seq<Agent>
  {
    if o.child.Some? then [o.child.value] else []
  }

  /** The creature pass over the first `i` creatures, highest index first:
      creature `i-1` takes its turn against the current food array, then the
      pass continues below it with the food that remains. The randomness
      creature `j` consumes is `draws(j)`. */
  function Sweep(agents: seq<Agent>, i: nat, foods: seq<Food>, dt: real, width: real, height: real,
                 steer: Steer, draws: nat -> Draw): (r: Pass)
    requires i <= |agents|
    ensures |r.agents| == |agents|
    decreases i, 1
  {
    if i == 0 then Pass(agents, foods, []) else Turn(agents, i, foods, dt, width, height, steer, draws)
  }

  /** Creature `i-1` updates, then the pass goes on over the creatures below
      it; its children come before theirs. */
  function Turn(agents: seq<Agent>, i: nat, foods: seq<Food>, dt: real, width: real, height: real,
                steer: Steer, draws: nat -> Draw): (r: Pass)
    requires 0 < i <= |agents|
    ensures |r.agents| == |agents|
    decreases i, 0
  {
    var o := Step(agents[i - 1], dt, width, height, foods, steer, draws(i - 1));
    var p := Sweep(agents[i - 1 := o.self], i - 1, o.foods, dt, width, height, steer, draws);
    Pass(p.agents, p.foods, Born(o) + p.children)
  }

  /** The pass only touches the creatures below `i` and never sets or clears
      a death flag; the food left is what it started with minus at most one
      item per creature visited, the rest in their original order; at most
      one child is born per creature visited, and every child is alive. */
  lemma {:induction false} SweepFacts(agents: seq<Agent>, i: nat, foods: seq<Food>, dt: real, width: real, height: real,
                                      steer: Steer, draws: nat -> Draw)
    requires i <= |agents|
    ensures var p := Sweep(agents, i, foods, dt, width, height, steer, draws);
      && |p.agents| == |agents|
      && (forall j :: i <= j < |agents| ==> p.agents[j] == agents[j])
      && (forall j :: 0 <= j < |agents| ==> p.agents[j].dead == agents[j].dead)
      && IsSubseq(p.foods, foods)
      && |foods| - i <= |p.foods| <= |foods|
      && |p.children| <= i
      && (forall c :: c in p.children ==> !c.dead)
    decreases i
  {
    if i == 0 {
      SubseqRefl(foods);
    } else {
      var o := Step(agents[i - 1], dt, width, height, foods, steer, draws(i - 1));
      StepEats(agents[i - 1], dt, width, height, foods, steer, draws(i - 1));
      StepSplits(agents[i - 1], dt, width, height, foods, steer, draws(i - 1));
      StepDrains(agents[i - 1], dt, width, height, foods, steer, draws(i - 1));
      var next := agents[i - 1 := o.self];
      SweepFacts(next, i - 1, o.foods, dt, width, height, steer, draws);
      var p := Sweep(next, i - 1, o.foods, dt, width, height, steer, draws);
      assert Sweep(agents, i, foods, dt, width, height, steer, draws) == Pass(p.agents, p.foods, Born(o) + p.children);
      SubseqTrans(p.foods, o.foods, foods);
      SubseqLength(p.foods, foods);
      SubseqLength(o.foods, foods);
      assert |o.foods| >= |foods| - 1;
      forall c | c in Born(o) + p.children ensures !c.dead {
        if c in Born(o) {
          assert c == o.child.value;
        }
      }
    }
  }

  /** Two creatures at the same spot and one food within reach: the one with
      the higher index updates first and eats it, so the other finds no food
      and keeps its heading. */
  lemma HighestIndexEatsFirst(steer: Steer, draws: nat -> Draw)
    ensures var a := Agent(100.0, 100.0, 1.0, 0.0, 100.0, false);
      var p := Sweep([a, a], 2, [Food(101.0, 100.0)], 1.0, 1200.0, 800.0, steer, draws);
      && p.agents[1].energy == 145.0
      && p.agents[0].energy == 95.0
      && p.agents[0].vx == 1.0 && p.agents[0].x == 101.0
      && p.foods == [] && p.children == []
  {
    var a := Agent(100.0, 100.0, 1.0, 0.0, 100.0, false);
    assert SqDist(Food(101.0, 100.0), 100.0, 100.0) == 1.0;
    assert RemoveAt([Food(101.0, 100.0)], 0) == [];
  }

  /** The creatures of `objs` whose state in `sts` is not dead, in order: the
      array left after splicing out every dead one. */
  function Survivors(objs: seq<Creature>, sts: seq<Agent>): seq<Creature>
    requires |objs| == |sts|
  {
    if objs == [] then []
    else (if sts[0].dead then [] else [objs[0]]) + Survivors(objs[1..], sts[1..])
  }

  /** A creature survives exactly when one of its occurrences is not dead,
      and the survivors keep their relative order. */
  lemma {:induction false} SurvivorsAreLive(objs: seq<Creature>, sts: seq<Agent>)
    requires |objs| == |sts|
    ensures forall c :: c in Survivors(objs, sts) <==> exists j :: 0 <= j < |objs| && objs[j] == c && !sts[j].dead
    ensures IsSubseq(Survivors(objs, sts), objs)
    decreases |objs|
  {
    if objs != [] {
      SurvivorsAreLive(objs[1..], sts[1..]);
      var rest := Survivors(objs[1..], sts[1..]);
      forall c ensures c in Survivors(objs, sts) <==> exists j :: 0 <= j < |objs| && objs[j] == c && !sts[j].dead {
        if c in Survivors(objs, sts) && c != objs[0] {
          assert c in rest;
          var j :| 0 <= j < |objs[1..]| && objs[1..][j] == c && !sts[1..][j].dead;
          assert objs[j + 1] == c && !sts[j + 1].dead;
        }
        if exists j :: 0 <= j < |objs| && objs[j] == c && !sts[j].dead {
          var j :| 0 <= j < |objs| && objs[j] == c && !sts[j].dead;
          if j > 0 {
            assert objs[1..][j - 1] == c && !sts[1..][j - 1].dead;
          }
        }
      }
      if !sts[0].dead {
        assert Survivors(objs, sts)[1..] == rest;
      } else {
        assert Survivors(objs, sts) == rest;
        if rest != [] {
          assert IsSubseq(rest, objs[1..]);
        }
      }
    }
  }

  /** With no dead creature the pass removes nothing. */
  lemma {:induction false} NoDeadNoneRemoved(objs: seq<Creature>, sts: seq<Agent>)
    requires |objs| == |sts|
    requires forall j :: 0 <= j < |sts| ==> !sts[j].dead
    ensures Survivors(objs, sts) == objs
    decreases |objs|
  {
    if objs != [] {
      NoDeadNoneRemoved(objs[1..], sts[1..]);
    }
  }

  /** Starting from live creatures only, the pass removes none of them:
      the creature array keeps every original creature in place, and the
      bucket of each one's final cell lists it. That cell is a cell of the
      grid when the creature ended inside the world. Positions are never
      clamped: a creature at a negative coordinate, or at or beyond
      `CellCount * CellSize`, is in no grid cell, while one between the
      world's edge and the grid's far edge is still in the last cell. */
  lemma PassRemovesNone(objs: seq<Creature>, agents: seq<Agent>, foods: seq<Food>, dt: real, width: real,
                        height: real, steer: Steer, draws: nat -> Draw)
    requires |objs| == |agents| && forall j :: 0 <= j < |agents| ==> !agents[j].dead
    ensures var p := Sweep(agents, |agents|, foods, dt, width, height, steer, draws);
      && Survivors(objs, p.agents) == objs
      && (forall j :: 0 <= j < |objs| ==> objs[j] in Bucket(objs, p.agents, Cell(p.agents[j]).0, Cell(p.agents[j]).1))
      && (forall j :: 0 <= j < |objs| && 0.0 <= p.agents[j].x < width && 0.0 <= p.agents[j].y < height ==>
            0 <= Cell(p.agents[j]).0 < CellCount(width) && 0 <= Cell(p.agents[j]).1 < CellCount(height))
  {
    var p := Sweep(agents, |agents|, foods, dt, width, height, steer, draws);
    SweepFacts(agents, |agents|, foods, dt, width, height, steer, draws);
    NoDeadNoneRemoved(objs, p.agents);
    forall j | 0 <= j < |objs|
      ensures objs[j] in Bucket(objs, p.agents, Cell(p.agents[j]).0, Cell(p.agents[j]).1)
      ensures 0.0 <= p.agents[j].x < width && 0.0 <= p.agents[j].y < height ==>
        0 <= Cell(p.agents[j]).0 < CellCount(width) && 0 <= Cell(p.agents[j]).1 < CellCount(height)
    {
      BucketContents(objs, p.agents, Cell(p.agents[j]).0, Cell(p.agents[j]).1);
      CellsCoverExtent(p.agents[j].x, width);
      CellsCoverExtent(p.agents[j].y, height);
    }
  }

  /** The creatures the pass inserts into cell `(gx, gy)`, in insertion order:
      the live ones of `objs` whose state lies in that cell, highest index
      first. */
  function Bucket(objs: seq<Creature>, sts: seq<Agent>, gx: int, gy: int): seq<Creature>
    requires |objs| == |sts|
  {
    if objs == [] then []
    else Bucket(objs[1..], sts[1..], gx, gy) + (if !sts[0].dead && Cell(sts[0]) == (gx, gy) then [objs[0]] else [])
  }

  /** A cell holds exactly the live creatures positioned in it, in descending
      index order. */
  lemma {:induction false} BucketContents(objs: seq<Creature>, sts: seq<Agent>, gx: int, gy: int)
    requires |objs| == |sts|
    ensures forall c :: c in Bucket(objs, sts, gx, gy) <==>
      exists j :: 0 <= j < |objs| && objs[j] == c && !sts[j].dead && Cell(sts[j]) == (gx, gy)
    ensures IsSubseq(Bucket(objs, sts, gx, gy), Reversed(objs))
    decreases |objs|
  {
    if objs != [] {
      BucketContents(objs[1..], sts[1..], gx, gy);
      var rest := Bucket(objs[1..], sts[1..], gx, gy);
      forall c ensures c in Bucket(objs, sts, gx, gy) <==>
        exists j :: 0 <= j < |objs| && objs[j] == c && !sts[j].dead && Cell(sts[j]) == (gx, gy)
      {
        if c in Bucket(objs, sts, gx, gy) && c in rest {
          var j :| 0 <= j < |objs[1..]| && objs[1..][j] == c && !sts[1..][j].dead && Cell(sts[1..][j]) == (gx, gy);
          assert objs[j + 1] == c && !sts[j + 1].dead && Cell(sts[j + 1]) == (gx, gy);
        }
        if exists j :: 0 <= j < |objs| && objs[j] == c && !sts[j].dead && Cell(sts[j]) == (gx, gy) {
          var j :| 0 <= j < |objs| && objs[j] == c && !sts[j].dead && Cell(sts[j]) == (gx, gy);
          if j > 0 {
            assert objs[1..][j - 1] == c && !sts[1..][j - 1].dead && Cell(sts[1..][j - 1]) == (gx, gy);
          }
        }
      }
      if !sts[0].dead && Cell(sts[0]) == (gx, gy) {
        SubseqSnoc(rest, Reversed(objs[1..]), objs[0]);
      } else {
        SubseqSnocRight(rest, Reversed(objs[1..]), objs[0]);
        assert Bucket(objs, sts, gx, gy) == rest;
      }
      assert Reversed(objs) == Reversed(objs[1..]) + [objs[0]];
    }
  }

  // ---------------------------------------------------------------------------
  // Food spawning

  /** Number of whole intervals in the accumulated time `t`: how often the
      spawn loop runs. */
  function Rounds(t: real, interval: real): nat
    requires interval > 0.0
  {
    Clamp((t / interval).Floor)
  }

  /** Foods actually added by `k` rounds to an array of `n`: one per round
      while the array is below the cap. */
  function Added(k: nat, n: nat): nat
  {
    var room := Clamp(MaxFood - n);
    if k < room then k else room
  }

  /** The foods the spawner creates, the `j`-th at the random fractions
      `spots(j)` of the world's size. */
  function Spawned(spots: nat -> (real, real), width: real, height: real, m: nat): (r: seq<Food>)
    ensures |r| == m
  {
    seq(m, j requires 0 <= j < m => SpotFood(spots, width, height, j))
  }

  /** The food at the `j`-th random spot. */
  function SpotFood(spots: nat -> (real, real), width: real, height: real, j: nat): Food
  {
    Food(spots(j).0 * width, spots(j).1 * height)
  }

  /** Spawning one more food appends the food at the next random spot. */
  lemma SpawnedNext(spots: nat -> (real, real), width: real, height: real, m: nat)
    ensures Spawned(spots, width, height, m + 1)
         == Spawned(spots, width, height, m) + [SpotFood(spots, width, height, m)]
  {
    var a := Spawned(spots, width, height, m + 1);
    var b := Spawned(spots, width, height, m) + [SpotFood(spots, width, height, m)];
    assert forall j :: 0 <= j < m + 1 ==> a[j] == b[j];
  }

  /** After the rounds the accumulator is back in `[0, interval)` when the
      accumulated time was not negative, and untouched when it was. */
  lemma RoundsLeaveRemainder(t: real, interval: real)
    requires interval > 0.0
    ensures var k := Rounds(t, interval) as real;
      && (t >= 0.0 ==> 0.0 <= t - k * interval < interval)
      && (t < interval ==> k == 0.0)
  {
    var q := t / interval;
    assert q * interval == t;
    if t >= 0.0 {
      assert q >= 0.0 by {
        MulMonotone(q, 0.0, interval);
      }
      var k := q.Floor;
      assert Rounds(t, interval) == k;
      RemainderBounds(t, interval, q, k as real);
    }
    if t < interval {
      assert q < 1.0 by {
        MulMonotone(1.0, q, interval);
      }
    }
  }

  /** `k = floor(t / interval)` leaves a remainder in `[0, interval)`. */
  lemma RemainderBounds(t: real, interval: real, q: real, k: real)
    requires interval > 0.0 && q * interval == t && k <= q < k + 1.0
    ensures 0.0 <= t - k * interval < interval
  {
    MulMonotone(k, q, interval);
    MulMonotone(q, k + 1.0, interval);
    calc {
      t;
    ==
      q * interval;
    <
      (k + 1.0) * interval;
    }
    assert (k + 1.0) * interval == k * interval + interval;
  }

  lemma MulMonotone(a: real, b: real, c: real)
    requires c > 0.0
    ensures a <= b ==> a * c <= b * c
    ensures a < b ==> a * c < b * c
  {
    assert b * c - a * c == (b - a) * c;
  }

  /** How often the spawn loop runs on an accumulator holding `t`: it
      takes one interval off per round while a whole interval is left. */
  function Spawns(t: real, interval: real): nat
    requires interval > 0.0
    decreases Rounds(t, interval)
  {
    if t >= interval then
      RoundsShift(t, interval);
      1 + Spawns(t - interval, interval)
    else 0
  }

  /** What the spawn loop leaves in an accumulator holding `t`. */
  function Remainder(t: real, interval: real): real
    requires interval > 0.0
    decreases Rounds(t, interval)
  {
    if t >= interval then
      RoundsShift(t, interval);
      Remainder(t - interval, interval)
    else t
  }

  /** Taking one interval off leaves one whole interval fewer. */
  lemma RoundsShift(t: real, interval: real)
    requires interval > 0.0 && t >= interval
    ensures Rounds(t, interval) >= 1
    ensures Rounds(t - interval, interval) == Rounds(t, interval) - 1
  {
    var q, r := t / interval, (t - interval) / interval;
    assert q * interval == t && r * interval == t - interval;
    assert (q - 1.0) * interval == q * interval - interval;
    if r < q - 1.0 {
      MulMonotone(r, q - 1.0, interval);
      assert false;
    }
    if r > q - 1.0 {
      MulMonotone(q - 1.0, r, interval);
      assert false;
    }
    assert (q - 1.0).Floor == q.Floor - 1;
    if q < 1.0 {
      MulMonotone(q, 1.0, interval);
      assert false;
    }
  }

  /** The loop by repeated subtraction agrees with the closed form: it runs
      `floor(t / interval)` times (none for a negative `t`) and leaves
      `t - k * interval`. */
  lemma {:induction false} SpawnsCount(t: real, interval: real)
    requires interval > 0.0
    ensures Spawns(t, interval) == Rounds(t, interval)
    ensures Remainder(t, interval) == t - Rounds(t, interval) as real * interval
    decreases Rounds(t, interval)
  {
    if t >= interval {
      RoundsShift(t, interval);
      SpawnsCount(t - interval, interval);
      var k := Rounds(t, interval);
      assert (k - 1) as real * interval == k as real * interval - interval;
    } else {
      RoundsLeaveRemainder(t, interval);
    }
  }

  /** The spawn loop leaves less than one interval, and no less than zero
      when the accumulator was not negative. */
  lemma TimerBounds(t: real, interval: real)
    requires interval > 0.0
    ensures Remainder(t, interval) < interval
    ensures t >= 0.0 ==> Remainder(t, interval) >= 0.0
  {
    SpawnsCount(t, interval);
    RoundsLeaveRemainder(t, interval);
  }

  /** One more round adds a food exactly when the array is below the cap. */
  lemma AddedNext(k: nat, n: nat)
    ensures Added(k + 1, n) == if n + Added(k, n) < MaxFood then Added(k, n) + 1 else Added(k, n)
  {
  }

  /** The spawner adds one food per round until the cap is reached, so the
      array never grows past `MaxFood`, and below the cap every round adds one. */
  lemma AddedRespectsCap(k: nat, n: nat)
    ensures n + Added(k, n) <= if n > MaxFood then n else MaxFood
    ensures n + k <= MaxFood ==> Added(k, n) == k
    ensures n >= MaxFood ==> Added(k, n) == 0
  {
  }

  /** One call of the spawner on an accumulator that reached `t`: it runs
      `floor(t / interval)` rounds, leaves less than one interval behind (and
      nothing negative when `t` was not), never takes an array of `n` foods
      past the cap, and below the cap adds one food per round. */
  lemma SpawnOutcome(t: real, interval: real, n: nat)
    requires interval > 0.0
    ensures var k := Spawns(t, interval);
      && k == Rounds(t, interval)
      && Remainder(t, interval) == t - k as real * interval
      && Remainder(t, interval) < interval
      && (t >= 0.0 ==> 0.0 <= Remainder(t, interval))
      && n + Added(k, n) <= (if n > MaxFood then n else MaxFood)
      && (n + k <= MaxFood ==> Added(k, n) == k)
  {
    SpawnsCount(t, interval);
    TimerBounds(t, interval);
    AddedRespectsCap(Spawns(t, interval), n);
  }

  // ---------------------------------------------------------------------------
  // Effects

  /** A transient effect: the seconds it has left and the opacity of its
      sprite. */
  datatype Effect = Effect(lifetime: real, alpha: real)

  /** `Math.max(lifetime / 0.3, 0)`. */
  function Opacity(lifetime: real): real
  {
    var r := lifetime / FadeTime;
    if r > 0.0 then r else 0.0
  }

  /** The opacity is never negative, is zero exactly when the effect has run
      out, and is at most one during the last `FadeTime` seconds. */
  lemma OpacityRange(lifetime: real)
    ensures Opacity(lifetime) >= 0.0
    ensures Opacity(lifetime) == 0.0 <==> lifetime <= 0.0
    ensures Opacity(lifetime) <= 1.0 <==> lifetime <= FadeTime
    ensures Opacity(FadeTime) == 1.0
  {
  }

  /** An effect after `dt` more seconds. */
  function Fade(e: Effect, dt: real): Effect
  {
    Effect(e.lifetime - dt, Opacity(e.lifetime - dt))
  }

  /** Every effect faded, none removed. */
  function Faded(es: seq<Effect>, dt: real): (r: seq<Effect>)
    ensures |r| == |es|
  {
    seq(|es|, j requires 0 <= j < |es| => Fade(es[j], dt))
  }

  /** The effects after one tick: each faded, those that ran out removed. */
  function Aged(es: seq<Effect>, dt: real): seq<Effect>
  {
    if es == [] then []
    else
      var e := Fade(es[0], dt);
      (if e.lifetime <= 0.0 then [] else [e]) + Aged(es[1..], dt)
  }

  /** Ageing fades every effect by exactly `dt` and keeps, in order, exactly
      those whose new lifetime is positive, each with the opacity of its new
      lifetime. */
  lemma {:induction false} AgedKeepsLive(es: seq<Effect>, dt: real)
    ensures IsSubseq(Aged(es, dt), Faded(es, dt))
    ensures forall e :: e in Aged(es, dt) <==> e in Faded(es, dt) && e.lifetime > 0.0
    ensures forall e :: e in Aged(es, dt) ==> e.alpha == Opacity(e.lifetime) && e.alpha > 0.0
    ensures forall e :: multiset(Aged(es, dt))[e] == if e.lifetime > 0.0 then multiset(Faded(es, dt))[e] else 0
    decreases |es|
  {
    if es != [] {
      AgedKeepsLive(es[1..], dt);
      var f := Faded(es, dt);
      assert f[1..] == Faded(es[1..], dt);
      assert f == [f[0]] + f[1..];
      var e := Fade(es[0], dt);
      assert multiset(f) == multiset([e]) + multiset(f[1..]);
      assert multiset(Aged(es, dt)) == multiset(if e.lifetime <= 0.0 then [] else [e]) + multiset(Aged(es[1..], dt));
      if e.lifetime <= 0.0 {
        SubseqSnocRight(Aged(es[1..], dt), Faded(es[1..], dt), e);
        assert IsSubseq(Aged(es, dt), f) by {
          assert Aged(es, dt) == Aged(es[1..], dt);
          if Aged(es, dt) != [] {
            assert IsSubseq(Aged(es, dt), f[1..]);
          }
        }
      } else {
        assert Aged(es, dt)[1..] == Aged(es[1..], dt);
      }
    }
  }

  /** Of two effects, the one with more than `dt` left survives with its
      opacity recomputed and the other is removed. */
  lemma AgedExample()
    ensures Aged([Effect(0.2, 0.5), Effect(0.05, 0.1)], 0.1) == [Effect(0.1, 0.1 / 0.3)]
  {
    assert Fade(Effect(0.05, 0.1), 0.1).lifetime <= 0.0;
    assert [Effect(0.2, 0.5), Effect(0.05, 0.1)][1..] == [Effect(0.05, 0.1)];
  }

  /** `Aged` on a suffix, one effect at a time. */
  lemma AgedFrom(es: seq<Effect>, i: nat, n: nat, dt: real)
    requires i < |es| && n == i + 1
    ensures Aged(es[i..], dt)
         == (if Fade(es[i], dt).lifetime <= 0.0 then [] else [Fade(es[i], dt)]) + Aged(es[n..], dt)
  {
    assert es[i..][1..] == es[n..];
  }

  /** The effects array around index `i` while it is aged from the end:
      the prefix still to age, then `tail`. */
  lemma AgeAt(es: seq<Effect>, i: nat, n: nat, tail: seq<Effect>, e: Effect)
    requires i < |es| && n == i + 1
    ensures i < |es[..n] + tail| && (es[..n] + tail)[i] == es[i]
    ensures RemoveAt(es[..n] + tail, i) == es[..i] + tail
    ensures (es[..n] + tail)[i := e] == es[..i] + ([e] + tail)
  {
    assert es[..n] == es[..i] + [es[i]];
  }

  // ---------------------------------------------------------------------------
  // Population history

  /** Append a sample and drop the oldest when over capacity. */
  function Push(h: seq<int>, v: int): seq<int>
  {
    var g := h + [v];
    if |g| > HistoryLength then g[1..] else g
  }

  /** The last `k` elements of `s`, or all of it when shorter. */
  function Newest(s: seq<int>, k: nat): (r: seq<int>)
    ensures |r| <= k
  {
    if |s| <= k then s else s[|s| - k..]
  }

  /** Recording samples one per tick. */
  function PushAll(h: seq<int>, vs: seq<int>): seq<int>
    decreases |vs|
  {
    if vs == [] then h else PushAll(Push(h, vs[0]), vs[1..])
  }

  /** One push makes the new sample the last entry and keeps the newest
      `HistoryLength` samples, evicting exactly the oldest one on overflow. */
  lemma PushKeepsNewest(h: seq<int>, v: int)
    requires |h| <= HistoryLength
    ensures Push(h, v) == Newest(h + [v], HistoryLength)
    ensures |Push(h, v)| <= HistoryLength
    ensures Push(h, v)[|Push(h, v)| - 1] == v
    ensures |h| == HistoryLength ==> Push(h, v) == h[1..] + [v]
  {
  }

  /** Over any number of ticks the history is a window onto the newest
      `HistoryLength` samples of everything recorded: first in, first out. */
  lemma {:induction false} PushAllKeepsNewest(h: seq<int>, vs: seq<int>)
    requires |h| <= HistoryLength
    ensures PushAll(h, vs) == Newest(h + vs, HistoryLength)
    decreases |vs|
  {
    if vs != [] {
      PushKeepsNewest(h, vs[0]);
      var h' := Push(h, vs[0]);
      PushAllKeepsNewest(h', vs[1..]);
      var all := h + vs;
      assert h + [vs[0]] + vs[1..] == all;
      var mid := h + [vs[0]];
      if |mid| > HistoryLength {
        assert h' == mid[1..];
        assert h' + vs[1..] == all[1..];
      } else {
        assert h' + vs[1..] == all;
      }
    }
  }

  // ---------------------------------------------------------------------------
  // Helpers over creature objects

  /** The children already born, followed by those of the rest of a pass. */
  function PrependChildren(born: seq<Agent>, p: Pass): Pass
  {
    Pass(p.agents, p.foods, born + p.children)
  }

  /** One step of the pass, unfolded. */
  lemma SweepUnfold(agents: seq<Agent>, i: nat, foods: seq<Food>, dt: real, width: real, height: real,
                    steer: Steer, draws: nat -> Draw, born: seq<Agent>)
    requires i < |agents|
    ensures var o := Step(agents[i], dt, width, height, foods, steer, draws(i));
      PrependChildren(born, Sweep(agents, i + 1, foods, dt, width, height, steer, draws))
      == PrependChildren(born + Born(o), Sweep(agents[i := o.self], i, o.foods, dt, width, height, steer, draws))
  {
    var o := Step(agents[i], dt, width, height, foods, steer, draws(i));
    var p := Sweep(agents[i := o.self], i, o.foods, dt, width, height, steer, draws);
    assert born + (Born(o) + p.children) == (born + Born(o)) + p.children;
  }

  /** The pass specification advanced past one creature whose update gave `o`. */
  lemma SweepAdvance(agents: seq<Agent>, i: nat, n: nat, foods: seq<Food>, dt: real, width: real, height: real,
                     steer: Steer, draws: nat -> Draw, born: seq<Agent>, o: Outcome, target: Pass)
    requires i < |agents| && n == i + 1
    requires PrependChildren(born, Sweep(agents, n, foods, dt, width, height, steer, draws)) == target
    requires o == Step(agents[i], dt, width, height, foods, steer, draws(i))
    ensures PrependChildren(born + Born(o), Sweep(agents[i := o.self], i, o.foods, dt, width, height, steer, draws)) == target
  {
    SweepUnfold(agents, i, foods, dt, width, height, steer, draws, born);
  }

  /** The creature array around index `i` during the pass: the prefix still
      to visit, then `tail`. */
  lemma SpliceAt(objs: seq<Creature>, i: nat, n: nat, tail: seq<Creature>)
    requires i < |objs| && n == i + 1
    ensures i < |objs[..n] + tail| && (objs[..n] + tail)[i] == objs[i]
    ensures RemoveAt(objs[..n] + tail, i) == objs[..i] + tail
    ensures objs[..n] + tail == objs[..i] + ([objs[i]] + tail)
  {
    assert objs[..n] == objs[..i] + [objs[i]];
  }

  /** The creature array after the pass, survivors followed by children, is
      duplicate-free when the original was and the children are new. */
  lemma SurvivorsThenKids(objs: seq<Creature>, sts: seq<Agent>, kids: seq<Creature>)
    requires |objs| == |sts| && Distinct(objs) && Distinct(kids)
    requires forall k :: k in kids ==> k !in objs
    ensures Distinct(Survivors(objs, sts) + kids)
  {
    SurvivorsAreLive(objs, sts);
    SubseqDistinct(Survivors(objs, sts), objs);
    SubseqMembers(Survivors(objs, sts), objs);
    DistinctConcat(Survivors(objs, sts), kids);
  }

  /** The creature array keeps its shape over one visit: the visited
      creature moves from the prefix still to visit into the survivors, or
      out when dead, and its child joins the children. */
  lemma PassShape(objs: seq<Creature>, cur0: seq<Agent>, a: Agent, i: nat, n: nat, kids: seq<Creature>,
                  newborn: seq<Creature>, before: seq<Creature>, after: seq<Creature>)
    requires |objs| == |cur0| && i < |objs| && n == i + 1
    requires before == objs[..n] + (Survivors(objs[n..], cur0[n..]) + kids)
    requires after == if a.dead then RemoveAt(before + newborn, i) else before + newborn
    ensures after == objs[..i] + (Survivors(objs[i..], cur0[i := a][i..]) + (kids + newborn))
  {
    var cur := cur0[i := a];
    var later := Survivors(objs[i + 1..], cur0[i + 1..]);
    assert cur[i + 1..] == cur0[i + 1..];
    SurvivorsFrom(objs, cur, i);
    var tail := later + (kids + newborn);
    assert objs[..i + 1] + (later + kids) + newborn == objs[..i + 1] + ((later + kids) + newborn);
    assert later + kids + newborn == later + (kids + newborn);
    SpliceAt(objs, i, n, tail);
  }

  /** `Survivors` on a suffix, one element at a time. */
  lemma SurvivorsFrom(objs: seq<Creature>, sts: seq<Agent>, i: nat)
    requires |objs| == |sts| && i < |objs|
    ensures Survivors(objs[i..], sts[i..])
         == (if sts[i].dead then [] else [objs[i]]) + Survivors(objs[i + 1..], sts[i + 1..])
  {
    assert objs[i..][1..] == objs[i + 1..] && sts[i..][1..] == sts[i + 1..];
  }

  /** `Bucket` on a suffix, one element at a time. */
  lemma BucketFrom(objs: seq<Creature>, sts: seq<Agent>, i: nat, gx: int, gy: int)
    requires |objs| == |sts| && i < |objs|
    ensures Bucket(objs[i..], sts[i..], gx, gy)
         == Bucket(objs[i + 1..], sts[i + 1..], gx, gy)
            + (if !sts[i].dead && Cell(sts[i]) == (gx, gy) then [objs[i]] else [])
  {
    assert objs[i..][1..] == objs[i + 1..] && sts[i..][1..] == sts[i + 1..];
  }

  /** `Bucket` of a suffix after the state at its first index changed. */
  lemma BucketStep(objs: seq<Creature>, cur0: seq<Agent>, a: Agent, i: nat, n: nat, gx: int, gy: int)
    requires |objs| == |cur0| && i < |objs| && n == i + 1
    ensures Bucket(objs[i..], cur0[i := a][i..], gx, gy)
         == Bucket(objs[n..], cur0[n..], gx, gy)
            + (if !a.dead && Cell(a) == (gx, gy) then [objs[i]] else [])
  {
    assert cur0[i := a][i + 1..] == cur0[i + 1..];
    BucketFrom(objs, cur0[i := a], i, gx, gy);
  }

  /** The `j`-th state is the state of the `j`-th creature. */
  lemma {:induction false} AgentsOfAt(objs: seq<Creature>)
    ensures forall j :: 0 <= j < |objs| ==> AgentsOf(objs)[j] == objs[j].State()
  {
    if objs != [] {
      AgentsOfAt(objs[1..]);
    }
  }

  /** Creatures whose states are elementwise `sts` have the states `sts`. */
  lemma AgentsOfStates(objs: seq<Creature>, sts: seq<Agent>)
    requires |objs| == |sts| && forall j :: 0 <= j < |objs| ==> objs[j].State() == sts[j]
    ensures AgentsOf(objs) == sts
  {
    AgentsOfAt(objs);
  }

  /** The states of a sequence of creatures. */
  ghost function AgentsOf(objs: seq<Creature>): (r: seq<Agent>)
    reads objs
    ensures |r| == |objs|
  {
    if objs == [] then [] else [objs[0].State()] + AgentsOf(objs[1..])
  }

  // ---------------------------------------------------------------------------
  // The world object

  class World {
    const width: real
    const height: real
    const cols: int
    const rows: int
    /** `grid[gx, gy]` is the bucket of creatures in cell `(gx, gy)`. */
    const grid: array2<seq<Creature>>
    var creatures: seq<Creature>
    var foods: seq<Food>
    /** Seconds accumulated toward the next spawned food. */
    var foodSpawnTimer: real
    var foodSpawnInterval: real
    var effects: seq<Effect>
    var populationHistory: seq<int>

    /** The grid has the constructor's dimensions, no creature is listed
        twice and the history holds at most `HistoryLength` samples. */
    ghost predicate Valid()
      reads this`creatures, this`populationHistory
    {
      && cols == CellCount(width) && rows == CellCount(height)
      && GridShaped()
      && Distinct(creatures)
      && |populationHistory| <= HistoryLength
    }

    /** The grid has `cols` columns of `rows` cells (none when negative). */
    predicate GridShaped()
    {
      grid.Length0 == Clamp(cols) && grid.Length1 == Clamp(rows)
    }

    /** The grid cell `(gx, gy)` exists. */
    predicate InGrid(gx: int, gy: int)
    {
      0 <= gx < grid.Length0 && 0 <= gy < grid.Length1
    }

    /** Every grid cell is empty. */
    ghost predicate GridEmpty()
      reads grid
    {
      forall gx, gy :: 0 <= gx < grid.Length0 && 0 <= gy < grid.Length1 ==> grid[gx, gy] == []
    }

    /** A world of `width0` by `height0` with the seed populations: creature
        `i` at the fractions `seeds(i).px`, `seeds(i).py` of the world's size
        with initial velocity drawn from `seeds(i).pvx`, `seeds(i).pvy`, and
        food `j` at the fractions `spots(j)`. */
    constructor(width0: real, height0: real, seeds: nat -> Draw, spots: nat -> (real, real))
      ensures Valid() && GridEmpty()
      ensures width == width0 && height == height0
      ensures cols == CellCount(width0) && rows == CellCount(height0)
      ensures fresh(grid)
      ensures |creatures| == SeedCreatures
      ensures forall i :: 0 <= i < SeedCreatures ==>
        && fresh(creatures[i])
        && creatures[i].State() == Newborn(seeds(i).px * width0, seeds(i).py * height0, seeds(i).pvx, seeds(i).pvy)
      ensures foods == Spawned(spots, width0, height0, SeedFoods)
      ensures foodSpawnTimer == 0.0 && foodSpawnInterval == InitialSpawnInterval
      ensures effects == [] && populationHistory == []
    {
      width, height := width0, height0;
      cols, rows := CellCount(width0), CellCount(height0);
      foodSpawnTimer, foodSpawnInterval := 0.0, InitialSpawnInterval;
      effects, populationHistory := [], [];
      var cs: seq<Creature> := [];
      for i := 0 to SeedCreatures
        invariant |cs| == i
        invariant forall j :: 0 <= j < i ==>
          && fresh(cs[j])
          && cs[j].State() == Newborn(seeds(j).px * width0, seeds(j).py * height0, seeds(j).pvx, seeds(j).pvy)
        invariant Distinct(cs)
      {
        var c := new Creature(seeds(i).px * width0, seeds(i).py * height0, seeds(i).pvx, seeds(i).pvy);
        cs := cs + [c];
      }
      var fs: seq<Food> := [];
      assert fs == Spawned(spots, width0, height0, 0);
      for j := 0 to SeedFoods
        invariant fs == Spawned(spots, width0, height0, j)
        invariant forall k :: 0 <= k < SeedCreatures ==>
          cs[k].State() == Newborn(seeds(k).px * width0, seeds(k).py * height0, seeds(k).pvx, seeds(k).pvy)
      {
        fs := fs + [Food(spots(j).0 * width0, spots(j).1 * height0)];
        SpawnedNext(spots, width0, height0, j);
      }
      creatures, foods := cs, fs;
      grid := new seq<Creature>[Clamp(CellCount(width0)), Clamp(CellCount(height0))]((gx, gy) => []);
    }

    /** Empty every cell in place. */
    method ClearGrid()
      modifies grid
      ensures GridEmpty()
    {
      for gx := 0 to grid.Length0
        invariant forall i, j :: 0 <= i < gx && 0 <= j < grid.Length1 ==> grid[i, j] == []
      {
        for gy := 0 to grid.Length1
          invariant forall i, j :: 0 <= i < gx && 0 <= j < grid.Length1 ==> grid[i, j] == []
          invariant forall j :: 0 <= j < gy ==> grid[gx, j] == []
        {
          grid[gx, gy] := [];
        }
      }
    }

    /** Append `c` to the cell its position falls in, if that cell exists;
        no other cell changes. */
    method InsertToGrid(c: Creature)
      requires GridShaped()
      modifies grid
      ensures forall gx, gy :: 0 <= gx < grid.Length0 && 0 <= gy < grid.Length1 ==>
        grid[gx, gy] == if (gx, gy) == Cell(c.State()) then old(grid[gx, gy]) + [c] else old(grid[gx, gy])
    {
      var gx := (c.x / CellSize).Floor;
      var gy := (c.y / CellSize).Floor;
      if gx >= 0 && gy >= 0 && gx < cols && gy < rows {
        grid[gx, gy] := grid[gx, gy] + [c];
      }
    }

    /** The creature pass: every creature present at the start is updated,
        highest index first, against the shared food array; a dead one is
        spliced out, a live one inserted into the grid. Children appended
        during the pass are neither updated nor inserted. */
    method UpdateCreatures(dt: real, steer: Steer, draws: nat -> Draw)
      requires Valid()
      modifies this`creatures, this`foods, grid, creatures
      ensures Valid()
      ensures var objs := old(creatures);
        var p := Sweep(old(AgentsOf(creatures)), |objs|, old(foods), dt, width, height, steer, draws);
        var s := Survivors(objs, p.agents);
        && AgentsOf(objs) == p.agents
        && foods == p.foods
        && |creatures| == |s| + |p.children|
        && creatures[..|s|] == s
        && AgentsOf(creatures[|s|..]) == p.children
        && (forall c :: c in creatures[|s|..] ==> fresh(c))
        && (forall gx, gy :: InGrid(gx, gy) ==> grid[gx, gy] == old(grid[gx, gy]) + Bucket(objs, p.agents, gx, gy))
    {
      ghost var objs := creatures;
      ghost var cur := AgentsOf(creatures);
      ghost var kids: seq<Creature> := [];
      ghost var born: seq<Agent> := [];
      ghost var target := Sweep(cur, |objs|, foods, dt, width, height, steer, draws);
      ghost var g0 := Cells();
      Run(dt, steer, draws, objs, cur, target, g0);
    }

    /** The loop of the creature pass, from the last index down to 0, and
        what it leaves: the specified pass `target` complete, the creature
        array holding the survivors followed by the new children, and each
        cell its snapshot in `g0` followed by the survivors in it. */
    method Run(dt: real, steer: Steer, draws: nat -> Draw, ghost objs: seq<Creature>,
               ghost cur0: seq<Agent>, ghost target: Pass, ghost g0: seq<seq<seq<Creature>>>)
      requires Valid() && objs == creatures && cur0 == AgentsOf(objs) && g0 == Cells()
      requires target == Sweep(cur0, |objs|, foods, dt, width, height, steer, draws)
      modifies this`creatures, this`foods, grid, objs
      ensures var s := Survivors(objs, target.agents);
        && AgentsOf(objs) == target.agents
        && foods == target.foods
        && |creatures| == |s| + |target.children|
        && creatures[..|s|] == s
        && AgentsOf(creatures[|s|..]) == target.children
        && (forall c :: c in creatures[|s|..] ==> fresh(c))
        && (forall gx, gy :: InGrid(gx, gy) ==> grid[gx, gy] == g0[gx][gy] + Bucket(objs, target.agents, gx, gy))
      ensures Distinct(creatures)
    {
      Start(dt, steer, draws, objs, cur0, target, g0);
      ghost var cur, kids, born := cur0, [], [];
      var i: nat := |creatures|;
      while i > 0
        invariant Progress(i, dt, steer, draws, objs, cur, kids, born, target, g0)
        invariant forall c :: c in kids ==> fresh(c)
      {
        var m: nat := i - 1;
        ghost var cur', newborn, born' := Advance(m, i, dt, steer, draws, objs, cur, kids, born, target, g0);
        i, cur, kids, born := m, cur', kids + newborn, born';
      }
      Finish(dt, steer, draws, objs, cur, kids, born, target, g0);
    }

    /** What the creature pass of one tick leaves behind, given the
        creatures `objs` it started from and its result `p`: `objs` hold
        the pass's final states, the array holds the survivors `s` in
        their old order followed by one new creature per child, and every
        cell of the grid holds the survivors standing in it. */
    ghost predicate Passed(objs: seq<Creature>, p: Pass)
      reads this`creatures, grid, objs, creatures
    {
      && |objs| == |p.agents|
      && var s := Survivors(objs, p.agents);
      && AgentsOf(objs) == p.agents
      && |creatures| == |s| + |p.children|
      && creatures[..|s|] == s
      && AgentsOf(creatures[|s|..]) == p.children
      && (forall gx, gy :: 0 <= gx < grid.Length0 && 0 <= gy < grid.Length1 ==>
            grid[gx, gy] == Bucket(objs, p.agents, gx, gy))
    }

    /** One tick of the world, `update`: rebuild the creatures and the
        grid, then spawn food, age the effects and record the population.
        The food spawned lands after what the creature pass left. */
    method Update(dt: real, steer: Steer, draws: nat -> Draw, spots: nat -> (real, real))
      requires Valid() && foodSpawnInterval > 0.0
      modifies this`creatures, this`foods, this`foodSpawnTimer, this`effects, this`populationHistory, grid, creatures
      ensures Valid()
      ensures var objs := old(creatures);
        var p := Sweep(old(AgentsOf(creatures)), |objs|, old(foods), dt, width, height, steer, draws);
        var t := old(foodSpawnTimer) + dt;
        && Passed(objs, p)
        && (forall c :: c in creatures[|Survivors(objs, p.agents)|..] ==> fresh(c))
        && foods == p.foods + Spawned(spots, width, height, Added(Spawns(t, foodSpawnInterval), |p.foods|))
        && foodSpawnTimer == Remainder(t, foodSpawnInterval)
        && effects == Aged(old(effects), dt)
        && populationHistory == Push(old(populationHistory), |creatures|)
    {
      ghost var p := Sweep(AgentsOf(creatures), |creatures|, foods, dt, width, height, steer, draws);
      ghost var t := foodSpawnTimer + dt;
      Rebuild(dt, steer, draws);
      assert foods == p.foods && foodSpawnTimer + dt == t;
      Housekeep(dt, spots);
    }

    /** The creature half of `update`: empty the grid, then run the
        creature pass, which refills it with the survivors. */
    method Rebuild(dt: real, steer: Steer, draws: nat -> Draw)
      requires Valid()
      modifies this`creatures, this`foods, grid, creatures
      ensures Valid()
      ensures var objs := old(creatures);
        var p := Sweep(old(AgentsOf(creatures)), |objs|, old(foods), dt, width, height, steer, draws);
        && Passed(objs, p) && foods == p.foods
        && (forall c :: c in creatures[|Survivors(objs, p.agents)|..] ==> fresh(c))
    {
      ghost var a0 := AgentsOf(creatures);
      ClearGrid();
      assert AgentsOf(creatures) == a0;
      UpdateCreatures(dt, steer, draws);
    }

    /** The bookkeeping half of `update`: spawn food, age the effects and
        record the population. */
    method Housekeep(dt: real, spots: nat -> (real, real))
      requires Valid() && foodSpawnInterval > 0.0
      modifies this`foods, this`foodSpawnTimer, this`effects, this`populationHistory
      ensures Valid()
      ensures var t := old(foodSpawnTimer) + dt;
        && foods == old(foods) + Spawned(spots, width, height, Added(Spawns(t, foodSpawnInterval), |old(foods)|))
        && foodSpawnTimer == Remainder(t, foodSpawnInterval)
        && effects == Aged(old(effects), dt)
        && populationHistory == Push(old(populationHistory), |creatures|)
    {
      SpawnFood(dt, spots);
      AgeEffects(dt);
      RecordPopulation();
    }

    /** `_spawn_food`: add `dt` to the accumulator, then take one interval
        off it per round while a whole interval is left, spawning a food per
        round while the array holds fewer than `MaxFood`. The `j`-th food
        spawned lands at the random fractions `spots(j)` of the world. */
    method SpawnFood(dt: real, spots: nat -> (real, real))
      requires foodSpawnInterval > 0.0
      modifies this`foods, this`foodSpawnTimer
      ensures var t := old(foodSpawnTimer) + dt;
        && foodSpawnTimer == Remainder(t, foodSpawnInterval)
        && foods == old(foods) + Spawned(spots, width, height, Added(Spawns(t, foodSpawnInterval), |old(foods)|))
    {
      foodSpawnTimer := foodSpawnTimer + dt;
      ghost var t, foods0 := foodSpawnTimer, foods;
      ghost var k: nat := 0;
      var drawn: nat := 0;
      assert Spawned(spots, width, height, 0) == [];
      while foodSpawnTimer >= foodSpawnInterval
        invariant Remainder(foodSpawnTimer, foodSpawnInterval) == Remainder(t, foodSpawnInterval)
        invariant k + Spawns(foodSpawnTimer, foodSpawnInterval) == Spawns(t, foodSpawnInterval)
        invariant drawn == Added(k, |foods0|)
        invariant foods == foods0 + Spawned(spots, width, height, drawn)
        decreases Spawns(foodSpawnTimer, foodSpawnInterval)
      {
        AddedNext(k, |foods0|);
        foodSpawnTimer := foodSpawnTimer - foodSpawnInterval;
        if |foods| < MaxFood {
          var f := SpotFood(spots, width, height, drawn);
          assert foods0 + Spawned(spots, width, height, drawn) + [f] == foods0 + (Spawned(spots, width, height, drawn) + [f]);
          SpawnedNext(spots, width, height, drawn);
          foods := foods + [f];
          drawn := drawn + 1;
        }
        k := k + 1;
      }
    }

    /** The effects pass of `update`, from the last effect down: take `dt`
        off each lifetime, set its opacity, and splice it out once the
        lifetime is no longer positive. */
    method AgeEffects(dt: real)
      modifies this`effects
      ensures effects == Aged(old(effects), dt)
    {
      ghost var es := effects;
      var i := |effects|;
      assert es[..i] == es && es[i..] == [];
      while i > 0
        invariant i <= |es|
        invariant effects == es[..i] + Aged(es[i..], dt)
      {
        ghost var n := i;
        i := i - 1;
        AgedFrom(es, i, n, dt);
        AgeAt(es, i, n, Aged(es[n..], dt), Fade(es[i], dt));
        var e := effects[i];
        e := e.(lifetime := e.lifetime - dt);
        e := e.(alpha := Opacity(e.lifetime));
        if e.lifetime <= 0.0 {
          effects := RemoveAt(effects, i);
        } else {
          effects := effects[i := e];
        }
      }
      assert es[0..] == es;
    }

    /** Record the creature count, dropping the oldest sample when the
        history is over `HistoryLength`: the history stays the newest
        `HistoryLength` samples and ends with the current count. */
    method RecordPopulation()
      requires Valid()
      modifies this`populationHistory
      ensures Valid()
      ensures populationHistory == Push(old(populationHistory), |creatures|)
      ensures populationHistory == Newest(old(populationHistory) + [|creatures|], HistoryLength)
      ensures populationHistory[|populationHistory| - 1] == |creatures|
    {
      PushKeepsNewest(populationHistory, |creatures|);
      populationHistory := populationHistory + [|creatures|];
      if |populationHistory| > HistoryLength {
        populationHistory := populationHistory[1..];
      }
    }

    /** A snapshot of every grid cell. */
    ghost function Cells(): (r: seq<seq<seq<Creature>>>)
      reads grid
      ensures |r| == grid.Length0
      ensures forall gx :: 0 <= gx < grid.Length0 ==> |r[gx]| == grid.Length1
      ensures forall gx, gy :: 0 <= gx < grid.Length0 && 0 <= gy < grid.Length1 ==> r[gx][gy] == grid[gx, gy]
    {
      seq(grid.Length0, gx requires 0 <= gx < grid.Length0 reads grid =>
        seq(grid.Length1, gy requires 0 <= gy < grid.Length1 reads grid => grid[gx, gy]))
    }

    /** The state of the creature pass once the creatures at index `i` and
        above have been visited: `cur` holds every original creature's
        state, `kids` the children appended so far with states `born`, the
        rest of the specified pass `target` is still to come, and each grid
        cell holds its snapshot `g0` followed by the visited survivors in
        that cell. */
    ghost predicate Progress(i: nat, dt: real, steer: Steer, draws: nat -> Draw, objs: seq<Creature>,
                             cur: seq<Agent>, kids: seq<Creature>, born: seq<Agent>, target: Pass,
                             g0: seq<seq<seq<Creature>>>)
      reads this, grid, objs, kids
    {
      && i <= |objs| && |cur| == |objs| && |kids| == |born|
      && Distinct(objs)
      && (forall j :: 0 <= j < |objs| ==> objs[j].State() == cur[j])
      && creatures == objs[..i] + (Survivors(objs[i..], cur[i..]) + kids)
      && (forall j :: 0 <= j < |kids| ==> kids[j].State() == born[j] && kids[j] !in objs)
      && Distinct(kids)
      && PrependChildren(born, Sweep(cur, i, foods, dt, width, height, steer, draws)) == target
      && GridShaped() && |g0| == grid.Length0
      && (forall gx :: 0 <= gx < grid.Length0 ==> |g0[gx]| == grid.Length1)
      && (forall gx, gy :: InGrid(gx, gy) ==> grid[gx, gy] == g0[gx][gy] + Bucket(objs[i..], cur[i..], gx, gy))
    }

    /** One turn of the creature pass: visit index `i`, the one below `n`. */
    method Advance(i: nat, n: nat, dt: real, steer: Steer, draws: nat -> Draw, ghost objs: seq<Creature>,
                   ghost cur: seq<Agent>, ghost kids: seq<Creature>, ghost born: seq<Agent>, ghost target: Pass,
                   ghost g0: seq<seq<seq<Creature>>>)
      returns (ghost cur': seq<Agent>, ghost newborn: seq<Creature>, ghost born': seq<Agent>)
      requires n == i + 1 && Progress(n, dt, steer, draws, objs, cur, kids, born, target, g0)
      modifies this`creatures, this`foods, grid, objs[i]
      ensures Progress(i, dt, steer, draws, objs, cur', kids + newborn, born', target, g0)
      ensures forall c :: c in newborn ==> fresh(c)
    {
      ghost var later := Survivors(objs[n..], cur[n..]);
      SpliceAt(objs, i, n, later + kids);
      ghost var before, foodsBefore := creatures, foods;
      ghost var o;
      o, newborn := Visit(i, dt, steer, draws, cur[i]);
      cur' := cur[i := o.self];
      born' := born + Born(o);
      forall j | 0 <= j < |objs| ensures objs[j].State() == cur'[j] {
        if j != i {
          assert objs[j] != objs[i];
        }
      }
      ghost var kids' := kids + newborn;
      forall j | 0 <= j < |kids'| ensures kids'[j].State() == born'[j] && kids'[j] !in objs {
        if j < |kids| {
          assert kids'[j] == kids[j] && born'[j] == born[j];
          assert kids[j] != objs[i];
        } else {
          assert kids'[j] == newborn[j - |kids|] && born'[j] == Born(o)[j - |kids|];
        }
      }
      forall p, q | 0 <= p < q < |kids'| ensures kids'[p] != kids'[q] {
        if p < |kids| <= q {
          assert kids'[p] == kids[p] && kids'[q] == newborn[q - |kids|];
        } else if q < |kids| {
          assert kids'[p] == kids[p] && kids'[q] == kids[q];
        }
      }
      SweepAdvance(cur, i, n, foodsBefore, dt, width, height, steer, draws, born, o, target);
      PassShape(objs, cur, o.self, i, n, kids, newborn, before, creatures);
      forall gx, gy | InGrid(gx, gy)
        ensures grid[gx, gy] == g0[gx][gy] + Bucket(objs[i..], cur'[i..], gx, gy)
      {
        BucketStep(objs, cur, o.self, i, n, gx, gy);
        var here := if !o.self.dead && Cell(o.self) == (gx, gy) then [objs[i]] else [];
        assert g0[gx][gy] + Bucket(objs[n..], cur[n..], gx, gy) + here == g0[gx][gy] + (Bucket(objs[n..], cur[n..], gx, gy) + here);
      }
    }

    /** The creature pass before any creature has been visited. */
    lemma Start(dt: real, steer: Steer, draws: nat -> Draw, objs: seq<Creature>, cur: seq<Agent>,
                target: Pass, g0: seq<seq<seq<Creature>>>)
      requires Valid() && objs == creatures && cur == AgentsOf(objs) && g0 == Cells()
      requires target == Sweep(cur, |objs|, foods, dt, width, height, steer, draws)
      ensures Progress(|objs|, dt, steer, draws, objs, cur, [], [], target, g0)
    {
      AgentsOfAt(objs);
      assert objs[..|objs|] == objs && objs[|objs|..] == [] && cur[|objs|..] == [];
      assert objs + ([] + []) == objs;
      forall gx, gy | InGrid(gx, gy) ensures grid[gx, gy] == g0[gx][gy] + Bucket([], [], gx, gy) {
        assert g0[gx][gy] + [] == g0[gx][gy];
      }
    }

    /** The creature pass once every original creature has been visited:
        the specified pass is complete, the creature array holds the
        survivors followed by the children, and each cell its snapshot
        followed by the survivors in it. */
    lemma Finish(dt: real, steer: Steer, draws: nat -> Draw, objs: seq<Creature>, cur: seq<Agent>,
                 kids: seq<Creature>, born: seq<Agent>, target: Pass, g0: seq<seq<seq<Creature>>>)
      requires Progress(0, dt, steer, draws, objs, cur, kids, born, target, g0)
      ensures var s := Survivors(objs, target.agents);
        && AgentsOf(objs) == target.agents
        && foods == target.foods
        && |creatures| == |s| + |target.children|
        && creatures[..|s|] == s
        && creatures[|s|..] == kids
        && AgentsOf(kids) == target.children
        && (forall gx, gy :: InGrid(gx, gy) ==> grid[gx, gy] == g0[gx][gy] + Bucket(objs, target.agents, gx, gy))
      ensures Distinct(creatures)
    {
      assert objs[0..] == objs && cur[0..] == cur && objs[..0] == [] && born + [] == born;
      assert target == Pass(cur, foods, born);
      SurvivorsThenKids(objs, cur, kids);
      var s := Survivors(objs, cur);
      assert creatures == s + kids;
      assert creatures[..|s|] == s && creatures[|s|..] == kids;
      AgentsOfStates(objs, cur);
      AgentsOfStates(kids, born);
    }

    /** The body of the creature pass for index `i`: update that creature
        against the shared food array, append its child, then splice it out
        if it is dead or insert it into the grid otherwise. `born` is the
        child appended, as a sequence of zero or one creatures. */
    method Visit(i: nat, dt: real, steer: Steer, draws: nat -> Draw, ghost a: Agent)
      returns (ghost o: Outcome, ghost born: seq<Creature>)
      requires GridShaped() && i < |creatures| && creatures[i].State() == a
      modifies this`creatures, this`foods, grid, creatures[i]
      ensures o == Step(a, dt, width, height, old(foods), steer, draws(i))
      ensures old(creatures[i]).State() == o.self && foods == o.foods
      ensures |born| == |Born(o)|
      ensures forall j :: 0 <= j < |born| ==> fresh(born[j]) && born[j].State() == Born(o)[j]
      ensures creatures == if o.self.dead then RemoveAt(old(creatures) + born, i) else old(creatures) + born
      ensures forall gx, gy :: InGrid(gx, gy) ==>
        grid[gx, gy] == old(grid[gx, gy]) + (if !o.self.dead && Cell(o.self) == (gx, gy) then [old(creatures[i])] else [])
    {
      var creature := creatures[i];
      var rest, child := creature.Update(dt, width, height, foods, steer, draws(i));
      o := Step(a, dt, width, height, old(foods), steer, draws(i));
      born := [];
      foods := rest;
      if child != null {
        creatures := creatures + [child];
        born := [child];
      }
      if creature.dead {
        creatures := RemoveAt(creatures, i);
      } else {
        InsertToGrid(creature);
      }
    }
  }
}
