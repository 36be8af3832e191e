/** The decision cpu_limits_set_level takes for one device: floor, scan, rate limit and
    fallback, and what a sequence of such decisions does. */
module CpuLimits {
  import opened Machine
  import opened FreqTable

  /** The frequency table of a device: never empty, and indexed by an unsigned int. */
  type Table = t: seq<u32> | 0 < |t| < 0x1_0000_0000 witness [0]

  /** The module parameters. */
  datatype Tunables = Tunables(
    enable: bool, floorPct: u32, hotFloorPct: u32, critFloorPct: u32,
    hotTemp: u32, critTemp: u32, maxStep: u32)

  /** Their values until somebody writes them. */
  const DEFAULTS := Tunables(true, 92, 85, 75, 47, 53, 1)

  // ---------------------------------------------------------------------------
  // The floor
  // ---------------------------------------------------------------------------

  function EffectiveFloorPct(k: Tunables, temp: s32): u32 {
    if temp >= AsInt(k.critTemp) then k.critFloorPct
    else if temp >= AsInt(k.hotTemp) then k.hotFloorPct
    else k.floorPct
  }

  /** mult_frac(x, n, d) on unsigned ints. */
  function MultFrac(x: u32, n: u32, d: u32): u32
    requires d > 0
  {
    AddU32(MulU32(x / d, n), MulU32(x % d, n) / d)
  }

  /** The floor frequency: a percentage of the fastest table entry. */
  function FloorFreq(k: Tunables, temp: s32, table: Table): u32
  {
    MultFrac(table[0], Min(EffectiveFloorPct(k, temp), 100), 100)
  }

  lemma SplitProduct(q: nat, r: nat, n: nat)
    ensures (100 * q + r) * n == 100 * (q * n) + r * n
  {
  }

  lemma Times(a: nat, b: nat, c: nat)
    requires b <= c
    ensures a * b <= a * c
  {
  }

  lemma JoinQuotients(x: u32, q: nat, r: nat, qn: nat, rn: nat)
    requires x == 100 * q + r && r < 100 && qn <= 100 * q && rn <= 100 * r
    ensures (100 * qn + rn) / 100 == qn + rn / 100 <= x
  {
  }

  /** MultFrac once the two products are known to be in range. */
  lemma MultFracOfParts(x: u32, pct: u32, qn: u32, rn: u32)
    requires qn == x / 100 * pct && rn == x % 100 * pct && qn + rn / 100 < U32_RANGE
    ensures MultFrac(x, pct, 100) == qn + rn / 100
  {
    assert MulU32(x / 100, pct) == qn && MulU32(x % 100, pct) == rn;
  }

  /** Splitting off the quotient avoids every overflow and loses nothing. */
  lemma MultFracIsExact(x: u32, pct: u32)
    requires pct <= 100
    ensures MultFrac(x, pct, 100) == x * pct / 100 <= x
    ensures x / 100 * pct < U32_RANGE && x % 100 * pct < U32_RANGE
  {
    var q, r := x / 100, x % 100;
    var qn, rn := q * pct, r * pct;
    assert x * pct == 100 * qn + rn by {
      SplitProduct(q, r, pct);
    }
    assert qn <= 100 * q && rn <= 100 * r by {
      Times(q, pct, 100);
      Times(r, pct, 100);
    }
    JoinQuotients(x, q, r, qn, rn);
    MultFracOfParts(x, pct, qn, rn);
  }

  lemma FloorIsMonotone(x: u32, p: u32, q: u32)
    requires p <= q <= 100
    ensures MultFrac(x, p, 100) <= MultFrac(x, q, 100)
  {
    MultFracIsExact(x, p);
    MultFracIsExact(x, q);
    Times(x, p, q);
  }

  /** The floor is the rounded-down percentage of the fastest entry that belongs to the band:
      the critical one from the critical threshold on, whatever the hot threshold is; the hot
      one from the hot threshold to below it; else that below both. */
  lemma FloorOfBands(k: Tunables, temp: s32, table: Table)
    ensures AsInt(k.critTemp) <= temp ==> FloorFreq(k, temp, table) == table[0] * Min(k.critFloorPct, 100) / 100
    ensures AsInt(k.hotTemp) <= temp < AsInt(k.critTemp) ==>
              FloorFreq(k, temp, table) == table[0] * Min(k.hotFloorPct, 100) / 100
    ensures temp < AsInt(k.hotTemp) && temp < AsInt(k.critTemp) ==>
              FloorFreq(k, temp, table) == table[0] * Min(k.floorPct, 100) / 100
  {
    MultFracIsExact(table[0], Min(k.critFloorPct, 100));
    MultFracIsExact(table[0], Min(k.hotFloorPct, 100));
    MultFracIsExact(table[0], Min(k.floorPct, 100));
  }

  // ---------------------------------------------------------------------------
  // The level
  // ---------------------------------------------------------------------------

  /** The first level whose frequency fits under cap, or the table length. */
  function FirstFit(table: seq<u32>, cap: u32): (level: nat)
    ensures level <= |table|
    ensures forall i | 0 <= i < level :: table[i] > cap
    ensures level < |table| ==> table[level] <= cap
  {
    if table == [] || table[0] <= cap then 0 else 1 + FirstFit(table[1..], cap)
  }

  /** The request raised to the floor. */
  function Cap(k: Tunables, temp: s32, table: Table, request: u32): u32
  {
    Max(request, FloorFreq(k, temp, table))
  }

  predicate Fits(k: Tunables, temp: s32, table: Table, request: u32)
  {
    FirstFit(table, Cap(k, temp, table, request)) < |table|
  }

  /** The level before rate limiting: the first fit, or the deepest level. */
  function UnlimitedLevel(k: Tunables, temp: s32, table: Table, request: u32): nat
  {
    Min(FirstFit(table, Cap(k, temp, table, request)), |table| - 1)
  }

  /** Rate limiting is on, and applies below the hot temperature. */
  predicate Throttled(k: Tunables, temp: s32) {
    k.maxStep != 0 && temp < AsInt(k.hotTemp)
  }

  /** The level a call decides on. Only a level found by the scan is rate-limited, and the
      limit wraps at 32 bits. The level is in range whatever the tunables are. */
  function TargetLevel(k: Tunables, temp: s32, table: Table, level: u32, request: u32): (target: nat)
    ensures target < |table|
  {
    if request == 0 then 0
    else if Fits(k, temp, table, request) && Throttled(k, temp)
    then Min(UnlimitedLevel(k, temp, table, request), AddU32(level, k.maxStep))
    else UnlimitedLevel(k, temp, table, request)
  }

  /** The unlimited level carries the largest frequency under the raised request; failing
      that it is the deepest level. It overshoots the floor by at most one level. */
  lemma ScanIsOptimal(k: Tunables, temp: s32, table: Table, request: u32)
    requires Descending(table)
    ensures var u := UnlimitedLevel(k, temp, table, request);
            var cap := Max(request, FloorFreq(k, temp, table));
            && (Fits(k, temp, table, request) <==> table[|table| - 1] <= cap)
            && (Fits(k, temp, table, request) ==>
                  table[u] <= cap && forall f | f in table && f <= cap :: f <= table[u])
            && (!Fits(k, temp, table, request) ==> u == |table| - 1)
            && (u > 0 ==> table[u - 1] > FloorFreq(k, temp, table))
  {
    var cap := Cap(k, temp, table, request);
    var u := FirstFit(table, cap);
    if u < |table| {
      assert u < |table| - 1 ==> table[u] >= table[|table| - 1];
      forall f | f in table && f <= cap ensures f <= table[u] {
        var i :| 0 <= i < |table| && table[i] == f;
        assert i >= u;
      }
    }
  }

  lemma AddIsModular(a: u32, b: u32)
    ensures AddU32(a, b) == (a + b) % U32_RANGE
  {
  }

  /** The level decided on, case by case: none for request 0; the unlimited level from the hot
      temperature on and with step 0; below it the smaller of the unlimited level and the sum
      of level and step modulo 2^32 if the deepest entry fits, and the deepest level if not. */
  lemma LevelDecided(k: Tunables, temp: s32, table: Table, level: u32, request: u32)
    requires Descending(table)
    ensures var target := TargetLevel(k, temp, table, level, request);
            var u := UnlimitedLevel(k, temp, table, request);
            var cool := k.maxStep != 0 && temp < AsInt(k.hotTemp);
            var fits := table[|table| - 1] <= Max(request, FloorFreq(k, temp, table));
            && (request == 0 ==> target == 0)
            && (request != 0 && !cool ==> target == u)
            && (request != 0 && cool && fits ==> target == Min(u, (level + k.maxStep) % U32_RANGE))
            && (request != 0 && cool && !fits ==> target == |table| - 1)
  {
    ScanIsOptimal(k, temp, table, request);
    AddIsModular(level, k.maxStep);
  }

  lemma FirstFitIs(table: seq<u32>, cap: u32, level: nat)
    requires level < |table| && table[level] <= cap
    requires forall i | 0 <= i < level :: table[i] > cap
    ensures FirstFit(table, cap) == level
  {
    var l := FirstFit(table, cap);
    assert l >= level;
  }

  /** Equal or smaller caps never give a shallower first fit. */
  lemma FirstFitAntitone(table: seq<u32>, low: u32, high: u32)
    requires low <= high
    ensures FirstFit(table, high) <= FirstFit(table, low)
  {
    var l, h := FirstFit(table, low), FirstFit(table, high);
    assert l < |table| ==> table[l] <= high;
  }

  // ---------------------------------------------------------------------------
  // Monotone in both inputs
  // ---------------------------------------------------------------------------

  /** A larger nonzero request never gives a deeper level. */
  lemma MonotoneInRequest(k: Tunables, temp: s32, table: Table, level: u32, low: u32, high: u32)
    requires Descending(table)
    requires 0 < low <= high
    ensures TargetLevel(k, temp, table, level, high) <= TargetLevel(k, temp, table, level, low)
  {
    FirstFitAntitone(table, Cap(k, temp, table, low), Cap(k, temp, table, high));
  }

  /** The floors, each taken as at most 100 percent, do not rise from one band to the next.
      Only bands that some temperature falls into count: there is no hot band when the
      critical threshold is not above the hot one, and nothing is below INT_MIN. */
  predicate FloorsOrdered(k: Tunables) {
    var floor, hot, crit := Min(k.floorPct, 100), Min(k.hotFloorPct, 100), Min(k.critFloorPct, 100);
    if AsInt(k.hotTemp) < AsInt(k.critTemp)
    then crit <= hot && (AsInt(k.hotTemp) > INT_MIN ==> hot <= floor)
    else AsInt(k.critTemp) > INT_MIN ==> crit <= floor
  }

  /** With ordered floors a higher temperature never gives a shallower level: through
      floor, scan, rate limit and fallback, and whether or not the limit wraps. */
  lemma MonotoneInTemperature(
    k: Tunables, cold: s32, hot: s32, table: Table, level: u32, request: u32)
    requires Descending(table) && FloorsOrdered(k) && cold <= hot
    ensures TargetLevel(k, cold, table, level, request) <= TargetLevel(k, hot, table, level, request)
  {
    FloorIsMonotone(table[0],
                    Min(EffectiveFloorPct(k, hot), 100), Min(EffectiveFloorPct(k, cold), 100));
    FirstFitAntitone(table, Cap(k, hot, table, request), Cap(k, cold, table, request));
  }

  lemma MonotoneInLevel(k: Tunables, temp: s32, table: Table, shallow: u32, deep: u32, request: u32)
    requires shallow <= deep && deep + k.maxStep < U32_RANGE
    ensures TargetLevel(k, temp, table, shallow, request) <= TargetLevel(k, temp, table, deep, request)
  {
  }

  /** Monotone in all three inputs together, the level reached so far included, as long as
      the limit cannot wrap: what makes the controller monotone over whole runs. Request 0
      lifts the limit and so asks for the most. */
  lemma MonotoneStep(
    k: Tunables, table: Table,
    cold: s32, shallow: u32, high: u32, hot: s32, deep: u32, low: u32)
    requires Descending(table) && FloorsOrdered(k) && deep + k.maxStep < U32_RANGE
    requires cold <= hot && shallow <= deep && (high == 0 || 0 < low <= high)
    ensures TargetLevel(k, cold, table, shallow, high) <= TargetLevel(k, hot, table, deep, low)
  {
    if high != 0 {
      var warm := TargetLevel(k, hot, table, shallow, high);
      MonotoneInTemperature(k, cold, hot, table, shallow, high);
      var low' := TargetLevel(k, hot, table, shallow, low);
      MonotoneInRequest(k, hot, table, shallow, low, high);
      assert TargetLevel(k, cold, table, shallow, high) <= warm <= low';
      MonotoneInLevel(k, hot, table, shallow, deep, low);
    }
  }

  ghost predicate NeverCoolsByHeating(k: Tunables) {
    forall cold: s32, hot: s32, table: Table, level: u32, request: u32
      | Descending(table) && level < |table| && cold <= hot
      :: TargetLevel(k, cold, table, level, request) <= TargetLevel(k, hot, table, level, request)
  }

  lemma DeeperFitShows(
    k: Tunables, cold: s32, hot: s32, table: Table, level: u32, shallow: nat, deep: nat)
    requires Descending(table) && shallow < deep < |table|
    requires FirstFit(table, Cap(k, hot, table, 1)) == shallow
    requires FirstFit(table, Cap(k, cold, table, 1)) == deep
    requires AddU32(level, k.maxStep) > shallow
    ensures TargetLevel(k, hot, table, level, 1) < TargetLevel(k, cold, table, level, 1)
  {
  }

  /** A table on which the floors p and q percent lead to different first fits. */
  lemma SeparatingTable(p: nat, q: nat) returns (table: Table, shallow: nat, deep: nat)
    requires p < q <= 100
    ensures Descending(table) && |table| == 3 && table[0] == 10000
    ensures shallow < deep <= 2
    ensures FirstFit(table, 100 * q) == shallow && FirstFit(table, Max(1, 100 * p)) == deep
  {
    if q == 100 {
      table, shallow, deep := [10000, 5000, 1], 0, if p >= 50 then 1 else 2;
    } else {
      table, shallow, deep := [10000, 100 * q, 1], 1, 2;
    }
    FirstFitIs(table, 100 * q, shallow);
    FirstFitIs(table, Max(1, 100 * p), deep);
  }

  /** Two floors in the wrong order are seen by some device: heating it from the band of
      the lower floor to the band of the higher one raises its frequency. */
  lemma WrongOrderShows(k: Tunables, cold: s32, hot: s32) returns (table: Table, level: u32)
    requires cold <= hot
    requires Min(EffectiveFloorPct(k, cold), 100) < Min(EffectiveFloorPct(k, hot), 100)
    ensures Descending(table) && level < |table|
    ensures TargetLevel(k, hot, table, level, 1) < TargetLevel(k, cold, table, level, 1)
  {
    var p, q := Min(EffectiveFloorPct(k, cold), 100), Min(EffectiveFloorPct(k, hot), 100);
    var shallow, deep;
    table, shallow, deep := SeparatingTable(p, q);
    level := if k.maxStep <= 1 then 2 else 0;
    MultFracIsExact(10000, p);
    MultFracIsExact(10000, q);
    DeeperFitShows(k, cold, hot, table, level, shallow, deep);
  }

  /** Whatever the module parameters are, the controller is monotone in the temperature, for
      every device, exactly when the floors of its bands are ordered. */
  lemma MonotoneIffFloorsOrdered(k: Tunables)
    ensures NeverCoolsByHeating(k) <==> FloorsOrdered(k)
  {
    var hotTemp, critTemp := AsInt(k.hotTemp), AsInt(k.critTemp);
    if FloorsOrdered(k) {
      forall cold: s32, hot: s32, table: Table, level: u32, request: u32
        | Descending(table) && level < |table| && cold <= hot
        ensures TargetLevel(k, cold, table, level, request) <= TargetLevel(k, hot, table, level, request)
      {
        MonotoneInTemperature(k, cold, hot, table, level, request);
      }
    } else if hotTemp >= critTemp {
      var table, level := WrongOrderShows(k, critTemp - 1, critTemp);
      assert !NeverCoolsByHeating(k);
    } else if Min(k.critFloorPct, 100) > Min(k.hotFloorPct, 100) {
      var table, level := WrongOrderShows(k, hotTemp, critTemp);
      assert !NeverCoolsByHeating(k);
    } else {
      var table, level := WrongOrderShows(k, hotTemp - 1, hotTemp);
      assert !NeverCoolsByHeating(k);
    }
  }

  // ---------------------------------------------------------------------------
  // What the module parameters promise
  // ---------------------------------------------------------------------------

  /** "Maximum cooling states cpu_limits can increase per update below hot temperature"
      holds exactly when the deepest entry fits under the raised request, or the deepest
      level is within one step anyway: the fallback is not rate-limited. */
  lemma RateLimitHoldsIff(k: Tunables, temp: s32, table: Table, level: u32, request: u32)
    requires Descending(table) && level < |table| && request != 0
    requires k.maxStep != 0 && temp < AsInt(k.hotTemp)
    ensures TargetLevel(k, temp, table, level, request) <= level + k.maxStep <==>
              || table[|table| - 1] <= Max(request, FloorFreq(k, temp, table))
              || |table| - 1 <= level + k.maxStep
  {
    ScanIsOptimal(k, temp, table, request);
  }

  /** At the default parameters and 30 degrees, a table that ends above the floor of 920 is
      taken to its end in one call, two levels for a step of one. */
  lemma RateLimitIsExceeded()
    ensures DEFAULTS.maxStep == 1 && 30 < AsInt(DEFAULTS.hotTemp) && Descending([1000, 980, 960])
    ensures TargetLevel(DEFAULTS, 30, [1000, 980, 960], 0, 1) == 2 > 0 + DEFAULTS.maxStep
  {
    MultFracIsExact(1000, 92);
    assert FirstFit([1000, 980, 960], 920) == 3;
  }

  /** So it holds for every request, 0 included, while the floor is within the table. */
  lemma RateLimitWithinFloor(k: Tunables, temp: s32, table: Table, level: u32, request: u32)
    requires Descending(table) && level < |table|
    requires k.maxStep != 0 && temp < AsInt(k.hotTemp)
    requires table[|table| - 1] <= FloorFreq(k, temp, table)
    ensures TargetLevel(k, temp, table, level, request) <= level + k.maxStep
  {
    if request != 0 {
      RateLimitHoldsIff(k, temp, table, level, request);
    }
  }

  /** "Minimum cpu_limits cap as percentage of cluster max frequency": the frequency
      decided on reaches the floor exactly when no entry fits, or some entry lies between
      the floor and the raised request, or the rate limit stops above the request. */
  lemma FloorIsKeptIff(k: Tunables, temp: s32, table: Table, level: u32, request: u32)
    requires Descending(table) && level < |table| && request != 0
    ensures var floor := FloorFreq(k, temp, table);
            var cap := Max(request, floor);
            var limit := AddU32(level, k.maxStep);
            table[TargetLevel(k, temp, table, level, request)] >= floor <==>
              || cap < table[|table| - 1]
              || (exists f :: f in table && floor <= f <= cap)
              || (k.maxStep != 0 && temp < AsInt(k.hotTemp) && limit < |table| && table[limit] > cap)
  {
    ScanIsOptimal(k, temp, table, request);
    var u := UnlimitedLevel(k, temp, table, request);
    var limit := AddU32(level, k.maxStep);
    if limit < u {
      assert table[limit] > Cap(k, temp, table, request);
    } else if limit < |table| && limit > u {
      assert table[u] > table[limit] || table[u] == table[limit] == 0;
    }
    if Fits(k, temp, table, request) {
      assert table[u] in table;
    }
  }

  /** At the default parameters and 30 degrees the floor is 920, and a request of 1 is given
      the next lower entry of the table. */
  lemma FloorIsMissed()
    ensures Descending([1000, 900, 800]) && FloorFreq(DEFAULTS, 30, [1000, 900, 800]) == 920
    ensures TargetLevel(DEFAULTS, 30, [1000, 900, 800], 0, 1) == 1 && [1000, 900, 800][1] == 900
  {
    MultFracIsExact(1000, 92);
    FirstFitIs([1000, 900, 800], 920, 1);
  }

  // ---------------------------------------------------------------------------
  // Convergence
  // ---------------------------------------------------------------------------

  /** The level after n equal calls. */
  function Repeated(k: Tunables, temp: s32, table: Table, level: u32, request: u32, n: nat): u32
  {
    if n == 0 then level
    else TargetLevel(k, temp, table, Repeated(k, temp, table, level, request, n - 1), request)
  }

  /** Without rate limiting (from the hot temperature on, with a step of 0, or when nothing
      fits) one call reaches the unlimited level from anywhere, and later ones stay. */
  lemma HotIsNotLimited(k: Tunables, temp: s32, table: Table, level: u32, request: u32, n: nat)
    requires request != 0
    requires temp >= AsInt(k.hotTemp) || k.maxStep == 0 || !Fits(k, temp, table, request)
    ensures var goal := UnlimitedLevel(k, temp, table, request);
            Repeated(k, temp, table, level, request, n) == goal <==> n > 0 || level == goal
  {
  }

  /** n rate-limited moves toward a goal. */
  function Advanced(goal: u32, step: u32, level: u32, n: nat): u32 {
    if n == 0 then level else Min(goal, AddU32(Advanced(goal, step, level, n - 1), step))
  }

  lemma {:induction false} RepeatedAdvances(
    k: Tunables, temp: s32, table: Table, level: u32, request: u32, n: nat)
    requires Descending(table) && request != 0
    requires k.maxStep != 0 && temp < AsInt(k.hotTemp) && Fits(k, temp, table, request)
    ensures Repeated(k, temp, table, level, request, n)
         == Advanced(UnlimitedLevel(k, temp, table, request), k.maxStep, level, n)
  {
    if n > 0 {
      RepeatedAdvances(k, temp, table, level, request, n - 1);
    }
  }

  /** One call to come down, one per step or part of a step to go up. */
  function CallsNeeded(level: nat, goal: nat, step: nat): nat
    requires step > 0
  {
    if level > goal then 1 else (goal - level + step - 1) / step
  }

  lemma CallsNeededIsCeiling(level: nat, goal: nat, step: nat, n: nat)
    requires step > 0 && level <= goal
    ensures n >= CallsNeeded(level, goal, step) <==> level + n * step >= goal
  {
    var c := CallsNeeded(level, goal, step);
    if n >= c {
      Times(step, c, n);
    } else {
      Times(step, n + 1, c);
      assert n * step + step == step * (n + 1);
    }
  }

  /** Climbing: n calls later the level is n steps up, but never past the goal. */
  lemma {:induction false} Climbs(goal: u32, step: u32, level: u32, n: nat)
    requires level <= goal && goal + step < U32_RANGE
    ensures Advanced(goal, step, level, n) == Min(goal, level + n * step)
  {
    if n > 0 {
      Climbs(goal, step, level, n - 1);
      var before := Advanced(goal, step, level, n - 1);
      assert (n - 1) * step + step == n * step;
    }
  }

  lemma {:induction false} StaysAtGoal(goal: u32, step: u32, level: u32, n: nat)
    requires n >= 1 && goal + step < U32_RANGE && Advanced(goal, step, level, 1) == goal
    ensures Advanced(goal, step, level, n) == goal
  {
    if n > 1 {
      StaysAtGoal(goal, step, level, n - 1);
    }
  }

  /** Reaches the goal after exactly the calls needed, and stays there. */
  ghost predicate Arrives(goal: u32, step: u32, level: u32)
    requires step != 0
  {
    forall n: nat :: Advanced(goal, step, level, n) == goal <==> n >= CallsNeeded(level, goal, step)
  }

  lemma ArrivesIff(goal: u32, step: u32, level: u32)
    requires step != 0
    ensures Arrives(goal, step, level)
        <==> goal + step < U32_RANGE && AddU32(level, step) >= Min(level, goal)
  {
    var calls := CallsNeeded(level, goal, step);
    if goal + step >= U32_RANGE {
      assert AddU32(goal, step) == goal + step - U32_RANGE < goal;
      assert Advanced(goal, step, level, calls) == goal ==>
          Advanced(goal, step, level, calls + 1) != goal;
    } else if level <= goal {
      assert AddU32(level, step) == level + step;
      forall n: nat ensures Advanced(goal, step, level, n) == goal <==> n >= calls {
        Climbs(goal, step, level, n);
        CallsNeededIsCeiling(level, goal, step, n);
      }
    } else {
      assert Advanced(goal, step, level, 0) == level;
      var first := Advanced(goal, step, level, 1);
      assert first == Min(goal, AddU32(level, step));
      if first == goal {
        forall n: nat ensures Advanced(goal, step, level, n) == goal <==> n >= calls {
          if n > 0 {
            StaysAtGoal(goal, step, level, n);
          }
        }
      }
    }
  }

  /** Repeating a call reaches the unlimited level after exactly the calls needed and then
      stays there. */
  ghost predicate Settles(k: Tunables, temp: s32, table: Table, level: u32, request: u32)
    requires k.maxStep != 0
  {
    var goal := UnlimitedLevel(k, temp, table, request);
    forall n: nat :: Repeated(k, temp, table, level, request, n) == goal
                <==> n >= CallsNeeded(level, goal, k.maxStep)
  }

  lemma SettlesIsArrives(k: Tunables, temp: s32, table: Table, level: u32, request: u32)
    requires Descending(table) && request != 0
    requires k.maxStep != 0 && temp < AsInt(k.hotTemp) && Fits(k, temp, table, request)
    ensures Settles(k, temp, table, level, request)
        <==> Arrives(UnlimitedLevel(k, temp, table, request), k.maxStep, level)
  {
    var goal := UnlimitedLevel(k, temp, table, request);
    forall n: nat
      ensures Repeated(k, temp, table, level, request, n) == Advanced(goal, k.maxStep, level, n)
    {
      RepeatedAdvances(k, temp, table, level, request, n);
    }
  }

  /** Equal rate-limited calls whose request fits settle if and only if the 32-bit limit
      neither wraps at the level reached nor, on the first call, wraps to below it. */
  lemma SettlesIff(k: Tunables, temp: s32, table: Table, level: u32, request: u32)
    requires Descending(table) && level < |table| && request != 0
    requires k.maxStep != 0 && temp < AsInt(k.hotTemp) && Fits(k, temp, table, request)
    ensures var goal := UnlimitedLevel(k, temp, table, request);
            Settles(k, temp, table, level, request) <==>
              goal + k.maxStep < U32_RANGE && AddU32(level, k.maxStep) >= Min(level, goal)
  {
    SettlesIsArrives(k, temp, table, level, request);
    ArrivesIff(UnlimitedLevel(k, temp, table, request), k.maxStep, level);
  }

  lemma WrappingGoal(k: Tunables, table: Table)
    requires k == DEFAULTS.(maxStep := UINT_MAX) && table == [1000, 900, 800]
    ensures 30 < AsInt(k.hotTemp) && Fits(k, 30, table, 1) && UnlimitedLevel(k, 30, table, 1) == 1
  {
    MultFracIsExact(1000, 92);
    FirstFitIs(table, 920, 1);
  }

  lemma {:induction false} Alternates(n: nat)
    ensures Advanced(1, UINT_MAX, 0, n) == n % 2
  {
    if n > 0 {
      Alternates(n - 1);
    }
  }

  /** With the largest step the limit wraps at level 1 back to 0: the calls of a cool device
      that should settle at 1 move it to and fro for ever. */
  lemma WrapNeverSettles(k: Tunables, table: Table, n: nat)
    requires k == DEFAULTS.(maxStep := UINT_MAX) && table == [1000, 900, 800]
    ensures Descending(table) && 30 < AsInt(k.hotTemp) && Fits(k, 30, table, 1)
    ensures UnlimitedLevel(k, 30, table, 1) == 1
    ensures Repeated(k, 30, table, 0, 1, n) == n % 2 && !Settles(k, 30, table, 0, 1)
  {
    WrappingGoal(k, table);
    RepeatedAdvances(k, 30, table, 0, 1, n);
    Alternates(n);
    SettlesIff(k, 30, table, 0, 1);
  }

  // ---------------------------------------------------------------------------
  // One device: cached level and QoS request
  // ---------------------------------------------------------------------------

  /** A device as the list holds it: the CPUs of its policy, its table, the cached level
      and the value of its FREQ_QOS_MAX request. */
  datatype Device = Device(cpus: set<nat>, table: Table, level: u32, request: u32)

  ghost predicate ValidDevice(d: Device) {
    Descending(d.table) && d.level < |d.table|
  }

  /** The request carries the frequency of the cached level. */
  predicate Agrees(d: Device)
    requires d.level < |d.table|
  {
    d.request == d.table[d.level]
  }

  /** cpufreq_set_level. reply is what freq_qos_update_request answers when asked: a
      negative reply leaves the request as it was, after the level has been cached. */
  function SetLevel(d: Device, state: nat, reply: int): (Device, int) {
    if state >= |d.table| then (d, -EINVAL)
    else if d.level == state then (d, 0)
    else (d.(level := state, request := if reply >= 0 then d.table[state] else d.request), reply)
  }

  /** The body of the list loop in cpu_limits_set_level for the matching device. A scan
      whose QoS update answers -ENODEV looks like a scan without a fit, so the fallback
      runs as well, answered by retry. */
  function Update(k: Tunables, temp: s32, d: Device, request: u32, reply: int, retry: int): (Device, int) {
    var target := TargetLevel(k, temp, d.table, d.level, request);
    var (d', ret) := SetLevel(d, target, reply);
    if request != 0 && Fits(k, temp, d.table, request) && ret == -ENODEV
    then SetLevel(d', |d.table| - 1, retry)
    else (d', ret)
  }

  /** Whatever the QoS layer answers, the level stays in range, so the range check in
      cpufreq_set_level never fires: -EINVAL can only come from the QoS layer. */
  lemma UpdateIsSafe(k: Tunables, temp: s32, d: Device, request: u32, reply: int, retry: int)
    requires ValidDevice(d)
    ensures var (d', ret) := Update(k, temp, d, request, reply, retry);
            && ValidDevice(d') && d'.cpus == d.cpus && d'.table == d.table
            && (ret == -EINVAL ==> reply == -EINVAL || retry == -EINVAL)
  {
  }

  /** A successful update reaches the target, and keeps the request in agreement with it
      despite the early return on an unchanged level. */
  lemma UpdateAgrees(k: Tunables, temp: s32, d: Device, request: u32, reply: int, retry: int)
    requires ValidDevice(d) && Agrees(d) && reply >= 0
    ensures var (d', ret) := Update(k, temp, d, request, reply, retry);
            && d'.level == TargetLevel(k, temp, d.table, d.level, request)
            && d'.level < |d'.table| && Agrees(d') && ret >= 0
  {
  }

  /** A scan whose update answers -ENODEV also runs the fallback, which asks for another
      update unless the deepest level is the one just cached. */
  predicate FallsBack(k: Tunables, temp: s32, d: Device, request: u32, reply: int) {
    var target := TargetLevel(k, temp, d.table, d.level, request);
    request != 0 && Fits(k, temp, d.table, request) && target != d.level && reply == -ENODEV
    && target != |d.table| - 1
  }

  /** The level a call leaves behind. */
  function Landing(k: Tunables, temp: s32, d: Device, request: u32, reply: int): nat {
    if FallsBack(k, temp, d, request, reply) then |d.table| - 1
    else TargetLevel(k, temp, d.table, d.level, request)
  }

  /** The last answer of the QoS layer in a call that asks it. */
  function Answer(k: Tunables, temp: s32, d: Device, request: u32, reply: int, retry: int): int {
    if FallsBack(k, temp, d, request, reply) then retry else reply
  }

  /** Level and request agree after a call exactly when nothing had to change and they did
      before, or the last update succeeded, or its value happened to be in force already. */
  lemma AgreesAfterIff(k: Tunables, temp: s32, d: Device, request: u32, reply: int, retry: int)
    requires ValidDevice(d)
    ensures var d' := Update(k, temp, d, request, reply, retry).0;
            var landing := Landing(k, temp, d, request, reply);
            && landing < |d.table| && d'.level == landing
            && (Agrees(d') <==>
                  if TargetLevel(k, temp, d.table, d.level, request) == d.level then Agrees(d)
                  else Answer(k, temp, d, request, reply, retry) >= 0 || d.request == d.table[landing])
  {
  }

  /** A call finds the level where it wants it: at the unlimited level (0 for request 0),
      where the limit must not wrap. */
  predicate Rests(k: Tunables, temp: s32, table: Table, level: u32, request: u32) {
    if request == 0 then level == 0
    else
      && level == UnlimitedLevel(k, temp, table, request)
      && (k.maxStep != 0 && temp < AsInt(k.hotTemp) && Fits(k, temp, table, request) ==>
            AddU32(level, k.maxStep) >= level)
  }

  lemma StepMoves(level: u32, step: u32)
    requires step != 0
    ensures AddU32(level, step) != level
  {
  }

  lemma RestsIff(k: Tunables, temp: s32, table: Table, level: u32, request: u32)
    ensures TargetLevel(k, temp, table, level, request) == level
        <==> Rests(k, temp, table, level, request)
  {
    if k.maxStep != 0 {
      StepMoves(level, k.maxStep);
    }
  }

  /** A failed update, which an -ENODEV answer at the deepest level even hides, and the same
      call again. When the level that was cached is one the call rests at, it changes nothing
      and reports success, however often it is made. Otherwise it moves the level and repairs
      the request if its update succeeds. So one successful update repairs the failure if and
      only if the level does not rest, or the old request has its frequency by chance. */
  lemma FailedUpdateSticksIff(
    k: Tunables, temp: s32, d: Device, request: u32, reply: int, retry: int, reply': int, retry': int)
    requires ValidDevice(d) && TargetLevel(k, temp, d.table, d.level, request) != d.level
    requires Answer(k, temp, d, request, reply, retry) < 0
    ensures var (d1, ret1) := Update(k, temp, d, request, reply, retry);
            var (d2, ret2) := Update(k, temp, d1, request, reply', retry');
            var landing := Landing(k, temp, d, request, reply);
            var hidden := reply == -ENODEV && request != 0 && Fits(k, temp, d.table, request)
                          && !FallsBack(k, temp, d, request, reply);
            && d1 == d.(level := landing) && landing < |d.table| && ValidDevice(d2)
            && ret1 == (if hidden then 0 else Answer(k, temp, d, request, reply, retry))
            && (Rests(k, temp, d.table, landing, request) ==> (d2, ret2) == (d1, 0))
            && (reply' >= 0 ==>
                  (Agrees(d2) <==>
                     !Rests(k, temp, d.table, landing, request) || d.request == d.table[landing]))
  {
    AgreesAfterIff(k, temp, d, request, reply, retry);
    var d1 := Update(k, temp, d, request, reply, retry).0;
    UpdateIsSafe(k, temp, d, request, reply, retry);
    RestsIff(k, temp, d.table, d1.level, request);
    UpdateIsSafe(k, temp, d1, request, reply', retry');
    AgreesAfterIff(k, temp, d1, request, reply', retry');
  }

  lemma DefaultTargets(table: Table)
    requires table == [1000, 900, 800]
    ensures TargetLevel(DEFAULTS, 30, table, 0, 950) == 1
    ensures TargetLevel(DEFAULTS, 30, table, 1, 950) == 1
  {
    MultFracIsExact(1000, 92);
    FirstFitIs(table, 950, 1);
  }

  /** At the default parameters and 30 degrees: one failed update, and the request stays at
      1000 although every later call for 950 reports level 1 and success. */
  lemma FailureSticksByDefault(d: Device, reply: int, retry: int, reply': int, retry': int)
    requires d == Device({0}, [1000, 900, 800], 0, 1000) && reply < 0 && reply != -ENODEV
    ensures ValidDevice(d) && Agrees(d)
    ensures Update(DEFAULTS, 30, d, 950, reply, retry) == (d.(level := 1), reply)
    ensures Update(DEFAULTS, 30, d.(level := 1), 950, reply', retry') == (d.(level := 1), 0)
  {
    DefaultTargets(d.table);
  }
}
