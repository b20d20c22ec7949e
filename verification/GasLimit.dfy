/**
 The gas limit controller: how the limit of the next block follows from the limit and usage of its
 parent. Amounts are unsigned 64-bit integers.
 */
module GasLimit {
  import opened Common

  const SAFE: nat := 0x8000_0000_0000_0000
  const BOUND_DIVISOR: nat := 1024
  const MIN_GAS_LIMIT: nat := 5000

  function Wrap(x: int): nat
  {
    x % UINT64
  }

  function CalcGasLimit(parentLimit: nat, parentUsed: nat, gasFloor: nat, gasCeil: nat): nat
  {
    var contrib := Wrap(parentUsed + parentUsed / 2) / BOUND_DIVISOR;
    var decay := Wrap(parentLimit / BOUND_DIVISOR - 1);
    var target := Wrap(Wrap(parentLimit - decay) + contrib);
    var limit := if target < MIN_GAS_LIMIT then MIN_GAS_LIMIT else target;
    if limit < gasFloor then
      var up := Wrap(parentLimit + decay);
      if up > gasFloor then gasFloor else up
    else if limit > gasCeil then
      var down := Wrap(parentLimit - decay);
      if down < gasCeil then gasCeil else down
    else limit
  }

  /** What a block and the configured range satisfy: usage within the limit, a limit that is not below the
      minimum, and amounts far from overflow. */
  predicate Sane(limit: nat, used: nat, gasFloor: nat, gasCeil: nat)
  {
    used <= limit && MIN_GAS_LIMIT <= limit < SAFE && MIN_GAS_LIMIT <= gasFloor <= gasCeil < SAFE
  }

  /** Without overflow the target is the parent's limit less its decay plus the contribution of its usage. */
  lemma {:induction false} NoOverflow(limit: nat, used: nat)
    requires used <= limit && MIN_GAS_LIMIT <= limit < SAFE
    ensures Wrap(used + used / 2) == used + used / 2 && Wrap(limit / BOUND_DIVISOR - 1) == limit / BOUND_DIVISOR - 1
    ensures var decay := limit / BOUND_DIVISOR - 1;
            && 3 <= decay <= limit && Wrap(limit - decay) == limit - decay && Wrap(limit + decay) == limit + decay
            && Wrap(limit - decay + (used + used / 2) / BOUND_DIVISOR) == limit - decay + (used + used / 2) / BOUND_DIVISOR
  {
  }

  function Distance(a: nat, b: nat): nat
  {
    if a <= b then b - a else a - b
  }

  /** From 5120 gas on, a step is smaller than the bound a child block may differ by. */
  lemma {:induction false} StepBound(limit: nat, used: nat, gasFloor: nat, gasCeil: nat)
    requires Sane(limit, used, gasFloor, gasCeil) && limit >= 5120
    ensures Distance(CalcGasLimit(limit, used, gasFloor, gasCeil), limit) < limit / BOUND_DIVISOR
  {
    NoOverflow(limit, used);
  }

  /** Below 5120 a full block can move the limit by the whole bound. */
  lemma {:induction false} StepTooLarge(limit: nat)
    requires MIN_GAS_LIMIT <= limit < 5120
    ensures Sane(limit, limit, MIN_GAS_LIMIT, 10000) && CalcGasLimit(limit, limit, MIN_GAS_LIMIT, 10000) == limit + 4
    ensures limit / BOUND_DIVISOR == 4
  {
    NoOverflow(limit, limit);
  }

  ghost predicate StepsWithinBound(limit: nat)
  {
    forall used: nat, gasFloor: nat, gasCeil: nat :: Sane(limit, used, gasFloor, gasCeil) ==>
      Distance(CalcGasLimit(limit, used, gasFloor, gasCeil), limit) < limit / BOUND_DIVISOR
  }

  /** Every step from a limit stays within the bound if and only if the limit is at least 5120. */
  lemma {:induction false} StepBoundExact(limit: nat)
    requires MIN_GAS_LIMIT <= limit < SAFE
    ensures StepsWithinBound(limit) <==> limit >= 5120
  {
    hide CalcGasLimit;
    if limit >= 5120 {
      forall used: nat, gasFloor: nat, gasCeil: nat | Sane(limit, used, gasFloor, gasCeil)
        ensures Distance(CalcGasLimit(limit, used, gasFloor, gasCeil), limit) < limit / BOUND_DIVISOR {
        StepBound(limit, used, gasFloor, gasCeil);
      }
    } else {
      StepTooLarge(limit);
      assert Distance(CalcGasLimit(limit, limit, MIN_GAS_LIMIT, 10000), limit) == 4;
    }
  }

  /** How far a limit is from the configured range. */
  function Outside(limit: nat, gasFloor: nat, gasCeil: nat): nat
  {
    if limit < gasFloor then gasFloor - limit else if limit > gasCeil then limit - gasCeil else 0
  }

  /** A step never goes below the minimum, stays in the range, and otherwise comes at least three closer to it. */
  lemma {:induction false} StepApproaches(limit: nat, used: nat, gasFloor: nat, gasCeil: nat)
    requires Sane(limit, used, gasFloor, gasCeil)
    ensures var next := CalcGasLimit(limit, used, gasFloor, gasCeil);
            && next >= MIN_GAS_LIMIT && (next <= limit || next <= gasCeil)
            && (Outside(next, gasFloor, gasCeil) == 0 || Outside(next, gasFloor, gasCeil) <= Outside(limit, gasFloor, gasCeil) - 3)
  {
    NoOverflow(limit, used);
  }

  /** A parent that used more never gets a child with a lower limit. */
  lemma {:induction false} MoreUsage(limit: nat, used: nat, more: nat, gasFloor: nat, gasCeil: nat)
    requires Sane(limit, more, gasFloor, gasCeil) && used <= more
    ensures CalcGasLimit(limit, used, gasFloor, gasCeil) <= CalcGasLimit(limit, more, gasFloor, gasCeil)
  {
    NoOverflow(limit, used);
    NoOverflow(limit, more);
  }

  /** Within the range the limit rises exactly when one and a half times the usage reaches the limit, rounded down to a
      multiple of 1024, and the ceiling allows it; it falls exactly when that is 1024 or more short of it and the floor
      allows it. */
  lemma {:induction false} UsageMoves(limit: nat, used: nat, gasFloor: nat, gasCeil: nat)
    requires Sane(limit, used, gasFloor, gasCeil) && gasFloor <= limit <= gasCeil
    ensures var next := CalcGasLimit(limit, used, gasFloor, gasCeil);
            && (next > limit <==> used + used / 2 >= limit - limit % 1024 && limit < gasCeil)
            && (next < limit <==> used + used / 2 < limit - limit % 1024 - 1024 && limit > gasFloor)
  {
    NoOverflow(limit, used);
    Contribution(limit, used + used / 2);
  }

  lemma {:induction false} Contribution(limit: nat, x: nat)
    ensures x / BOUND_DIVISOR >= limit / BOUND_DIVISOR <==> x >= limit - limit % 1024
    ensures x / BOUND_DIVISOR < limit / BOUND_DIVISOR - 1 <==> x < limit - limit % 1024 - 1024
  {
  }

  /** An empty block lowers the limit by one less than a 1024th, down to the floor. */
  lemma {:induction false} EmptyBlock(limit: nat, gasFloor: nat, gasCeil: nat)
    requires Sane(limit, 0, gasFloor, gasCeil) && gasFloor <= limit <= gasCeil
    ensures var lower := limit - limit / 1024 + 1;
            CalcGasLimit(limit, 0, gasFloor, gasCeil) == if lower < gasFloor then gasFloor else lower
  {
    NoOverflow(limit, 0);
  }

  // ---------- Runs ----------

  /** Blocks whose limits follow the controller, with any usage. */
  ghost predicate IsRun(limits: seq<nat>, used: seq<nat>, gasFloor: nat, gasCeil: nat)
  {
    && |limits| == |used| + 1
    && forall i :: 0 <= i < |used| ==> used[i] <= limits[i] && limits[i + 1] == CalcGasLimit(limits[i], used[i], gasFloor, gasCeil)
  }

  /** Whatever the blocks use, the limit never falls below the minimum, the distance from the range falls by at
      least three a block until it is zero, and then it stays zero. */
  lemma {:induction false} RunConverges(limits: seq<nat>, used: seq<nat>, gasFloor: nat, gasCeil: nat, i: nat)
    requires IsRun(limits, used, gasFloor, gasCeil) && i < |limits|
    requires MIN_GAS_LIMIT <= limits[0] < SAFE && MIN_GAS_LIMIT <= gasFloor <= gasCeil < SAFE
    ensures MIN_GAS_LIMIT <= limits[i] < SAFE
    ensures Outside(limits[i], gasFloor, gasCeil) == 0 || Outside(limits[i], gasFloor, gasCeil) <= Outside(limits[0], gasFloor, gasCeil) - 3 * i
    ensures 3 * i >= Outside(limits[0], gasFloor, gasCeil) ==> gasFloor <= limits[i] <= gasCeil
  {
    hide CalcGasLimit;
    if i > 0 {
      RunConverges(limits, used, gasFloor, gasCeil, i - 1);
      StepApproaches(limits[i - 1], used[i - 1], gasFloor, gasCeil);
    }
  }
}
