/**
 * The level scheduler behind the LVS-style selector.
 *
 * A cursor walks round the upstreams; a threshold falls by the gcd of the weights
 * at every new round and is raised by the maximum once it is used up. A call
 * returns the first upstream whose weight reaches the threshold.
 */
module LevelSchedule {
  import opened Sums
  import opened Gcds

  datatype Cursor = Cursor(last: int, level: int)

  /** Panicked is the "current weight is 0" stop; ticks counts loop iterations. */
  datatype CallResult = Panicked | Picked(cursor: Cursor, ticks: nat)

  const FRESH := Cursor(-1, 0)

  ghost function MaxOf(w: Weights): (max: int)
    ensures max in w && forall i :: 0 <= i < |w| ==> w[i] <= max
    ensures 1 <= GcdOf(w) <= max
  {
    w[FirstMax(w)]
  }

  ghost predicate InBounds(w: Weights, c: Cursor) {
    -1 <= c.last < |w|
  }

  function NextIndex(n: nat, last: int): (i: nat)
    requires -1 <= last < n && 0 < n
    ensures i < n
  {
    if last + 1 == n then 0 else last + 1
  }

  lemma NextIndexIsRemainder(n: nat, last: int)
    requires -1 <= last < n && 0 < n
    ensures NextIndex(n, last) == (last + 1) % n
  {
  }

  /** The cursor and threshold after one loop iteration has moved them. */
  ghost function Advance(w: Weights, c: Cursor): (c': Cursor)
    requires InBounds(w, c)
    ensures 0 <= c'.last < |w|
  {
    var i := NextIndex(|w|, c.last);
    if i != 0 then Cursor(i, c.level)
    else if c.level - GcdOf(w) <= 0 then Cursor(0, c.level - GcdOf(w) + MaxOf(w))
    else Cursor(0, c.level - GcdOf(w))
  }

  /** The iteration stops with the zero-threshold panic. */
  ghost predicate Panics(w: Weights, c: Cursor)
    requires InBounds(w, c)
  {
    NextIndex(|w|, c.last) == 0 && c.level - GcdOf(w) <= 0 && Advance(w, c).level == 0
  }

  // ----- Termination: threshold excess first, then distance to the heaviest upstream

  ghost function Excess(w: Weights, c: Cursor): nat {
    if c.level > MaxOf(w) then c.level - MaxOf(w) else 0
  }

  ghost function Gap(w: Weights, c: Cursor): nat
    requires InBounds(w, c)
  {
    if c.level > MaxOf(w) then |w| - c.last
    else
      var heaviest := FirstMax(w);
      if c.last < heaviest then heaviest - c.last else heaviest - c.last + |w|
  }

  lemma MeasureDrops(w: Weights, c: Cursor)
    requires InBounds(w, c) && w[Advance(w, c).last] < Advance(w, c).level
    ensures Excess(w, Advance(w, c)) < Excess(w, c)
            || (Excess(w, Advance(w, c)) == Excess(w, c) && Gap(w, Advance(w, c)) < Gap(w, c))
  {
  }

  /** The loop of a call, which a selector with two or more upstreams runs. */
  ghost function Choose(w: Weights, c: Cursor): (o: CallResult)
    requires InBounds(w, c)
    ensures o.Picked? ==> 0 <= o.cursor.last < |w| && w[o.cursor.last] >= o.cursor.level && o.ticks >= 1
    decreases Excess(w, c), Gap(w, c)
  {
    if Panics(w, c) then Panicked else
      var c' := Advance(w, c);
      if w[c'.last] >= c'.level then Picked(c', 1) else
        MeasureDrops(w, c);
        var o := Choose(w, c');
        if o.Panicked? then Panicked else Picked(o.cursor, o.ticks + 1)
  }

  /** One iteration of the call's loop. */
  lemma ChooseIteration(w: Weights, c: Cursor)
    requires InBounds(w, c)
    ensures Panics(w, c) ==> Choose(w, c).Panicked?
    ensures !Panics(w, c) ==>
              var c', o := Advance(w, c), Choose(w, c);
              if w[c'.last] >= c'.level then o.Picked? && o.cursor == c'
              else
                && (o.Panicked? <==> Choose(w, c').Panicked?)
                && (o.Picked? ==> o.cursor == Choose(w, c').cursor)
  {
  }

  /** A cursor that has made a pick at some time, under these or other weights. */
  ghost predicate Started(w: Weights, c: Cursor) {
    0 <= c.last < |w| && 1 <= c.level
  }

  /** A threshold that the current weights can reach. */
  ghost predicate OnSchedule(w: Weights, c: Cursor) {
    Started(w, c) && c.level <= MaxOf(w)
  }

  lemma AdvanceStarted(w: Weights, c: Cursor)
    requires Started(w, c)
    ensures !Panics(w, c) && Started(w, Advance(w, c))
    ensures Advance(w, c).level <= if c.level <= MaxOf(w) then MaxOf(w) else c.level
  {
  }

  lemma AdvanceReachable(w: Weights, c: Cursor)
    requires c == FRESH || Started(w, c)
    ensures if Panics(w, c) then Advance(w, c) == Cursor(0, 0) else Started(w, Advance(w, c))
  {
    if c != FRESH {
      AdvanceStarted(w, c);
    }
  }

  /**
   * A started selector never panics, whatever its threshold: it picks, its threshold
   * stays positive and within reach of the current weights, and if it was within
   * reach already the call takes at most one round.
   */
  lemma {:induction false} ChooseStarted(w: Weights, c: Cursor)
    requires Started(w, c)
    ensures Choose(w, c).Picked? && OnSchedule(w, Choose(w, c).cursor)
    ensures OnSchedule(w, c) ==> Choose(w, c).ticks <= Gap(w, c) <= |w|
    decreases Excess(w, c), Gap(w, c)
  {
    AdvanceStarted(w, c);
    var c' := Advance(w, c);
    if w[c'.last] < c'.level {
      MeasureDrops(w, c);
      ChooseStarted(w, c');
    }
  }

  ghost predicate AllEqual(w: seq<int>) {
    forall i, j :: 0 <= i < |w| && 0 <= j < |w| ==> w[i] == w[j]
  }

  lemma AllEqualIffGcdIsMax(w: Weights)
    ensures AllEqual(w) <==> GcdOf(w) == MaxOf(w)
  {
    var g := GcdOf(w);
    if AllEqual(w) {
      var x := w[0];
      SelfDivides(x);
      assert DividesAll(x, w);
      DivisorAtMost(x, g);
      assert MaxOf(w) == x;
    }
  }

  /** A selector with one upstream returns it before the loop. */
  ghost predicate CallPanics(w: Weights, c: Cursor)
    requires InBounds(w, c)
  {
    |w| != 1 && Choose(w, c).Panicked?
  }

  /** The loop panics exactly from a fresh selector with all weights equal. */
  lemma {:induction false} LoopPanicsExactly(w: Weights, c: Cursor)
    requires c == FRESH || Started(w, c)
    ensures Choose(w, c).Panicked? <==> c == FRESH && AllEqual(w)
    ensures Choose(w, c).Picked? ==> OnSchedule(w, Choose(w, c).cursor)
  {
    AllEqualIffGcdIsMax(w);
    if c == FRESH {
      var c' := Advance(w, c);
      assert c' == Cursor(0, MaxOf(w) - GcdOf(w));
      if !AllEqual(w) && w[c'.last] < c'.level {
        ChooseStarted(w, c');
      }
    } else {
      ChooseStarted(w, c);
    }
  }

  /** The panic, exactly: two or more upstreams, no pick so far, and all weights equal. */
  lemma {:induction false} PanicExactly(w: Weights, c: Cursor)
    requires c == FRESH || Started(w, c)
    ensures CallPanics(w, c) <==> |w| >= 2 && c == FRESH && AllEqual(w)
  {
    hide Choose;
    LoopPanicsExactly(w, c);
  }

  // ----- The reference schedule: level by level from the top, every upstream that reaches it

  /** The step of the threshold ladder that a threshold stands on: level rounded up to the gcd. */
  ghost function StepOf(g: int, level: int): (j: nat)
    requires g >= 1 && level >= 1
    ensures j >= 1 && g * (j - 1) < level <= g * j
  {
    var j := (level - 1) / g + 1;
    assert g * (j - 1) == level - 1 - (level - 1) % g;
    assert g * j == g * (j - 1) + g;
    j
  }

  lemma MulMonotone(g: int, a: int, b: int)
    requires g >= 0
    ensures a <= b ==> g * a <= g * b
  {
    assert a <= b ==> g * (b - a) >= 0;
    assert g * (b - a) == g * b - g * a;
  }

  lemma StepUnique(g: int, level: int, j: nat, k: nat)
    requires g >= 1
    requires g * (j - 1) < level <= g * j && g * (k - 1) < level <= g * k
    ensures j == k
  {
    MulMonotone(g, j, k - 1);
    MulMonotone(g, k, j - 1);
  }

  ghost function Top(w: Weights): (top: nat)
    ensures top >= 1 && GcdOf(w) * top == MaxOf(w)
  {
    var top := StepOf(GcdOf(w), MaxOf(w));
    var i :| 0 <= i < |w| && w[i] == MaxOf(w);
    ShareUnique(w, i, top);
    top
  }

  /** The upstream's weight in units of the gcd. */
  ghost function Share(w: Weights, i: nat): (v: nat)
    requires i < |w|
    ensures v >= 1 && GcdOf(w) * v == w[i]
  {
    var g := GcdOf(w);
    assert Divides(g, w[i]);
    assert g * (w[i] / g) == w[i];
    assert w[i] / g >= 1;
    w[i] / g
  }

  lemma ShareUnique(w: Weights, i: nat, j: nat)
    requires i < |w| && j >= 1
    ensures GcdOf(w) * (j - 1) < w[i] <= GcdOf(w) * j ==> j == Share(w, i)
  {
    if GcdOf(w) * (j - 1) < w[i] <= GcdOf(w) * j {
      StepUnique(GcdOf(w), w[i], j, Share(w, i));
    }
  }

  /** Reaching a threshold is reaching its step: weights are multiples of the gcd. */
  lemma ReachesStep(w: Weights, i: nat, level: int, j: nat)
    requires i < |w| && j >= 1 && GcdOf(w) * (j - 1) < level <= GcdOf(w) * j
    ensures w[i] >= level <==> Share(w, i) >= j
  {
    var g, v := GcdOf(w), Share(w, i);
    MulMonotone(g, j, v);
    MulMonotone(g, v, j - 1);
  }

  /** The upstreams from k on that are served on step j, in order. */
  ghost function Round(w: Weights, j: nat, k: nat): (picks: seq<nat>)
    requires k <= |w|
    ensures forall x :: x in picks ==> k <= x < |w|
    decreases |w| - k
  {
    if k == |w| then [] else (if Share(w, k) >= j then [k] else []) + Round(w, j, k + 1)
  }

  /** Steps j, j - 1, ..., 1. */
  ghost function Rounds(w: Weights, j: nat): (picks: seq<nat>)
    ensures forall x :: x in picks ==> x < |w|
  {
    if j == 0 then [] else Round(w, j, 0) + Rounds(w, j - 1)
  }

  /** One full cycle of the schedule. */
  ghost function Cycle(w: Weights): seq<nat> {
    Rounds(w, Top(w))
  }

  /** What a cursor has still to serve of the current cycle. */
  ghost function Rest(w: Weights, c: Cursor): seq<nat>
    requires Started(w, c)
  {
    var j := StepOf(GcdOf(w), c.level);
    Round(w, j, c.last + 1) + Rounds(w, j - 1)
  }

  ghost predicate AtEnd(w: Weights, c: Cursor)
    requires Started(w, c)
  {
    c.last + 1 == |w| && StepOf(GcdOf(w), c.level) == 1
  }

  lemma {:induction false} RoundsNotEmpty(w: Weights, j: nat)
    requires j >= 1
    ensures Rounds(w, j) != []
  {
    if j == 1 {
      assert Round(w, 1, 0) != [];
    } else {
      RoundsNotEmpty(w, j - 1);
    }
  }

  lemma RestEmptyOnlyAtEnd(w: Weights, c: Cursor)
    requires Started(w, c)
    ensures Rest(w, c) == [] <==> AtEnd(w, c)
  {
    var j := StepOf(GcdOf(w), c.level);
    if j > 1 {
      RoundsNotEmpty(w, j - 1);
    } else if c.last + 1 < |w| {
      assert Round(w, 1, c.last + 1) != [];
    }
  }

  /** What comes next: the rest of this cycle, or a new cycle. */
  ghost function Ahead(w: Weights, c: Cursor): seq<nat>
    requires Started(w, c)
  {
    if Rest(w, c) == [] then Cycle(w) else Rest(w, c)
  }

  ghost function Hit(w: Weights, c: Cursor): seq<nat>
    requires Started(w, c)
  {
    if w[c.last] >= c.level then [c.last] else []
  }

  /** The step of the ladder that one loop iteration moves to. */
  ghost function NextStep(w: Weights, c: Cursor): (k: nat)
    requires Started(w, c)
    ensures k >= 1
  {
    var j := StepOf(GcdOf(w), c.level);
    if c.last + 1 < |w| then j else if j == 1 then Top(w) else j - 1
  }

  lemma AdvanceStep(w: Weights, c: Cursor)
    requires OnSchedule(w, c)
    ensures OnSchedule(w, Advance(w, c))
    ensures StepOf(GcdOf(w), Advance(w, c).level) == NextStep(w, c)
  {
    hide GcdOf, MaxOf, StepOf, Top;
    AdvanceStarted(w, c);
    var g, level := GcdOf(w), Advance(w, c).level;
    var j: int, k := StepOf(g, c.level), NextStep(w, c);
    MulNext(g, j - 1);
    MulNext(g, Top(w) - 1);
    MulNext(g, j - 2);
    MulMonotone(g, 1, j - 1);
    assert g * (k - 1) < level <= g * k;
    StepUnique(g, level, k, StepOf(g, level));
  }

  /** One loop iteration consumes the schedule: it serves its next entry or nothing. */
  lemma AdvanceFollows(w: Weights, c: Cursor)
    requires OnSchedule(w, c)
    ensures OnSchedule(w, Advance(w, c))
    ensures Ahead(w, c) == Hit(w, Advance(w, c)) + Rest(w, Advance(w, c))
  {
    hide GcdOf, MaxOf, StepOf, Share, Top, Round, Rounds;
    AdvanceStep(w, c);
    RestEmptyOnlyAtEnd(w, c);
    var c', j, k := Advance(w, c), StepOf(GcdOf(w), c.level), NextStep(w, c);
    RoundOpens(w, c', k);
    RoundEnds(w, j);
    if c.last + 1 == |w| {
      RoundsOpen(w, k);
    }
  }

  /** A round from the cursor on starts with the cursor's upstream, if that is served. */
  lemma RoundOpens(w: Weights, c: Cursor, k: nat)
    requires Started(w, c) && k == StepOf(GcdOf(w), c.level)
    ensures Round(w, k, c.last) == Hit(w, c) + Round(w, k, c.last + 1)
  {
    ReachesStep(w, c.last, c.level, k);
    hide GcdOf, StepOf, Share;
  }

  lemma RoundEnds(w: Weights, j: nat)
    ensures Round(w, j, |w|) == []
  {
  }

  lemma RoundsOpen(w: Weights, k: nat)
    requires k >= 1
    ensures Rounds(w, k) == Round(w, k, 0) + Rounds(w, k - 1)
  {
  }

  /** A call serves exactly the next entry of the schedule. */
  lemma {:induction false} ChooseFollows(w: Weights, c: Cursor)
    requires OnSchedule(w, c)
    ensures Choose(w, c).Picked? && OnSchedule(w, Choose(w, c).cursor)
    ensures Ahead(w, c) == [Choose(w, c).cursor.last as nat] + Rest(w, Choose(w, c).cursor)
    decreases Excess(w, c), Gap(w, c)
  {
    hide Rest, Ahead, GcdOf, MaxOf;
    AdvanceStarted(w, c);
    AdvanceFollows(w, c);
    var c' := Advance(w, c);
    if w[c'.last] < c'.level {
      MeasureDrops(w, c);
      NoHitNotEmpty(w, c');
      ChooseFollows(w, c');
    }
  }

  lemma NoHitNotEmpty(w: Weights, c: Cursor)
    requires OnSchedule(w, c) && w[c.last] < c.level
    ensures Ahead(w, c) == Rest(w, c)
  {
    RestEmptyOnlyAtEnd(w, c);
    var j := StepOf(GcdOf(w), c.level);
    ReachesStep(w, c.last, c.level, j);
  }

  // ----- Runs of calls with settled weights

  /** Where a call can start without the panic. */
  ghost predicate Safe(w: Weights, c: Cursor) {
    Started(w, c) || (c == FRESH && !AllEqual(w))
  }

  ghost function AfterCall(w: Weights, c: Cursor): (c': Cursor)
    requires Safe(w, c)
    ensures OnSchedule(w, c')
  {
    LoopPanicsExactly(w, c);
    Choose(w, c).cursor
  }

  ghost function AfterCalls(w: Weights, c: Cursor, k: nat): (c': Cursor)
    requires Safe(w, c)
    ensures Safe(w, c')
    decreases k
  {
    if k == 0 then c else AfterCalls(w, AfterCall(w, c), k - 1)
  }

  /** The upstreams that k calls serve, in order. */
  ghost function Served(w: Weights, c: Cursor, k: nat): (picks: seq<nat>)
    requires Safe(w, c)
    ensures |picks| == k
    decreases k
  {
    if k == 0 then [] else [AfterCall(w, c).last as nat] + Served(w, AfterCall(w, c), k - 1)
  }

  lemma {:induction false} ServedSplits(w: Weights, c: Cursor, a: nat, b: nat)
    requires Safe(w, c)
    ensures Served(w, c, a + b) == Served(w, c, a) + Served(w, AfterCalls(w, c, a), b)
    decreases a
  {
    hide AfterCall;
    if a > 0 {
      ServedSplits(w, AfterCall(w, c), a - 1, b);
    }
  }

  /** k entries of what is left of a cycle followed by whole cycles. */
  ghost function Unroll(rest: seq<nat>, cycle: seq<nat>, k: nat): seq<nat>
    requires cycle != []
    decreases k
  {
    if k == 0 then [] else
      var ahead := if rest == [] then cycle else rest;
      [ahead[0]] + Unroll(ahead[1..], cycle, k - 1)
  }

  /** Refinement: the calls serve the cyclic schedule, entry by entry, from wherever the cursor is. */
  lemma {:induction false} ServedIsSchedule(w: Weights, c: Cursor, k: nat)
    requires OnSchedule(w, c)
    ensures Cycle(w) != []
    ensures Served(w, c, k) == Unroll(Rest(w, c), Cycle(w), k)
    decreases k
  {
    RoundsNotEmpty(w, Top(w));
    hide Rest, Choose;
    if k > 0 {
      ChooseFollows(w, c);
      var c' := AfterCall(w, c);
      assert Ahead(w, c)[1..] == Rest(w, c');
      ServedIsSchedule(w, c', k - 1);
    }
  }

  /**
   * Any call that does not panic is one that a cursor on the schedule would make: the
   * cursor itself if its threshold is within reach, the end of the top round for a fresh
   * selector, and the end of a cycle if the threshold is above the maximum.
   */
  lemma {:induction false} EntersSchedule(w: Weights, c: Cursor) returns (d: Cursor)
    requires Safe(w, c)
    ensures OnSchedule(w, d) && AfterCall(w, d) == AfterCall(w, c)
    ensures c == FRESH ==> d == Cursor(|w| - 1, MaxOf(w))
    ensures OnSchedule(w, c) ==> d == c
    ensures c.level > MaxOf(w) ==> Rest(w, d) == []
    decreases Excess(w, c)
  {
    if c == FRESH {
      d := Cursor(|w| - 1, MaxOf(w));
      AllEqualIffGcdIsMax(w);
      assert Advance(w, d) == Advance(w, c);
    } else if OnSchedule(w, c) {
      d := c;
    } else {
      d := LandsAtEnd(w, c);
    }
  }

  /** A threshold above the maximum falls, round by round, to the top of a new cycle. */
  lemma {:induction false} LandsAtEnd(w: Weights, c: Cursor) returns (d: Cursor)
    requires Started(w, c) && c.level > MaxOf(w)
    ensures OnSchedule(w, d) && Rest(w, d) == [] && Choose(w, d).Picked?
    ensures Choose(w, c).Picked? && Choose(w, c).cursor == Choose(w, d).cursor
    decreases Excess(w, c), Gap(w, c)
  {
    AdvanceStarted(w, c);
    ChooseIteration(w, c);
    var c' := Advance(w, c);
    if c'.level > MaxOf(w) {
      MeasureDrops(w, c);
      d := LandsAtEnd(w, c');
    } else {
      d := Cursor(|w| - 1, c.level - MaxOf(w));
      assert Advance(w, d) == c';
      ChooseIteration(w, d);
      ChooseStarted(w, d);
      StepUnique(GcdOf(w), d.level, 1, StepOf(GcdOf(w), d.level));
      RestEmptyOnlyAtEnd(w, d);
    }
  }

  /** After the weights have sunk below the threshold, the calls serve whole cycles from the top. */
  lemma ServesFromTop(w: Weights, c: Cursor, k: nat)
    requires Started(w, c) && c.level > MaxOf(w)
    ensures Cycle(w) != []
    ensures Served(w, c, k) == Unroll(Cycle(w), Cycle(w), k)
  {
    var d := EntersSchedule(w, c);
    ServedIsSchedule(w, d, k);
    assert k > 0 ==> Served(w, c, k) == Served(w, d, k);
  }

  /** A call moves the threshold by a multiple of the gcd. */
  lemma {:induction false} KeepsResidue(w: Weights, c: Cursor)
    requires c == FRESH || Started(w, c)
    requires Choose(w, c).Picked?
    ensures Divides(GcdOf(w), Choose(w, c).cursor.level - c.level)
    decreases Excess(w, c), Gap(w, c)
  {
    hide GcdOf, MaxOf, Advance, Choose, Panics, Excess, Gap, Divides;
    ChooseIteration(w, c);
    AdvanceReachable(w, c);
    AdvanceResidue(w, c);
    var g, c' := GcdOf(w), Advance(w, c);
    if w[c'.last] < c'.level {
      MeasureDrops(w, c);
      KeepsResidue(w, c');
      DividesCombination(g, Choose(w, c').cursor.level - c'.level, c'.level - c.level, 1);
    }
  }

  lemma AdvanceResidue(w: Weights, c: Cursor)
    requires InBounds(w, c)
    ensures Divides(GcdOf(w), Advance(w, c).level - c.level)
  {
    var g, max := GcdOf(w), MaxOf(w);
    assert Divides(g, max);
    SelfDivides(g);
    DividesCombination(g, 0, g, -1);
    DividesCombination(g, max, g, -1);
  }

  /** A fresh selector enters the cycle one step below the top. */
  lemma FreshServesFromSecondStep(w: Weights, k: nat)
    requires !AllEqual(w)
    ensures Cycle(w) != []
    ensures Served(w, FRESH, k) == Unroll(Rounds(w, Top(w) - 1), Cycle(w), k)
  {
    var d := EntersSchedule(w, FRESH);
    ServedIsSchedule(w, d, k);
    StepUnique(GcdOf(w), MaxOf(w), Top(w), StepOf(GcdOf(w), MaxOf(w)));
    assert Rest(w, d) == Rounds(w, Top(w) - 1);
    assert k > 0 ==> Served(w, FRESH, k) == Served(w, d, k);
  }

  // ----- Exact shares

  lemma {:induction false} UnrollOnce(rest: seq<nat>, cycle: seq<nat>, k: nat)
    requires cycle != [] && k <= |rest| + |cycle|
    ensures Unroll(rest, cycle, k) == if k <= |rest| then rest[..k] else rest + cycle[..k - |rest|]
    decreases k
  {
    if k > 0 {
      if rest == [] {
        UnrollOnce(cycle[1..], cycle, k - 1);
      } else {
        UnrollOnce(rest[1..], cycle, k - 1);
      }
    }
  }

  lemma {:induction false} RoundSuffix(w: Weights, j: nat, k: nat) returns (before: seq<nat>)
    requires k <= |w|
    ensures Round(w, j, 0) == before + Round(w, j, k)
  {
    if k == 0 {
      before := [];
    } else {
      before := RoundSuffix(w, j, k - 1);
      before := before + if Share(w, k - 1) >= j then [k - 1] else [];
    }
  }

  lemma {:induction false} RoundsSuffix(w: Weights, j: nat, top: nat) returns (before: seq<nat>)
    requires j <= top
    ensures Rounds(w, top) == before + Rounds(w, j)
    decreases top - j
  {
    if j == top {
      before := [];
    } else {
      before := RoundsSuffix(w, j + 1, top);
      before := before + Round(w, j + 1, 0);
    }
  }

  lemma RestIsSuffix(w: Weights, c: Cursor) returns (before: seq<nat>)
    requires OnSchedule(w, c)
    ensures Cycle(w) == before + Rest(w, c)
  {
    hide GcdOf, MaxOf, StepOf, Share, Top;
    var j := StepOf(GcdOf(w), c.level);
    MulMonotone(GcdOf(w), Top(w), j - 1);
    var earlier := RoundsSuffix(w, j, Top(w));
    var passed := RoundSuffix(w, j, c.last + 1);
    before := earlier + passed;
    assert Rounds(w, j) == Round(w, j, 0) + Rounds(w, j - 1);
  }

  lemma {:induction false} TallyRound(w: Weights, j: nat, k: nat, i: nat)
    requires k <= |w| && i < |w|
    ensures Tally(Round(w, j, k), i) == if k <= i && Share(w, i) >= j then 1 else 0
    decreases |w| - k
  {
    hide Share, Tally;
    TallyAtMostOne(false, 0, i);
    if k < |w| {
      TallyRound(w, j, k + 1, i);
      TallyAtMostOne(Share(w, k) >= j, k, i);
      TallyConcat(if Share(w, k) >= j then [k] else [], Round(w, j, k + 1), i);
    }
  }

  lemma {:induction false} TallyRounds(w: Weights, j: nat, i: nat)
    requires i < |w|
    ensures Tally(Rounds(w, j), i) == if Share(w, i) <= j then Share(w, i) else j
  {
    hide Share, Tally, Round;
    TallyAtMostOne(false, 0, i);
    if j > 0 {
      TallyRound(w, j, 0, i);
      TallyRounds(w, j - 1, i);
      TallyConcat(Round(w, j, 0), Rounds(w, j - 1), i);
    }
  }

  /** A cycle serves every upstream its weight, and has one entry per unit of total weight. */
  lemma CycleShares(w: Weights)
    ensures forall i :: 0 <= i < |w| ==> GcdOf(w) * Tally(Cycle(w), i) == w[i]
    ensures GcdOf(w) * |Cycle(w)| == Total(w)
  {
    hide GcdOf, MaxOf, Top, Tally, Rounds;
    var g := GcdOf(w);
    var shares: seq<int> := seq(|w|, i requires 0 <= i < |w| => Share(w, i));
    forall i | 0 <= i < |w| ensures Tally(Cycle(w), i) == shares[i] {
      MulMonotone(g, Top(w) + 1, Share(w, i));
      assert g * (Top(w) + 1) == g * Top(w) + g;
      TallyRounds(w, Top(w), i);
    }
    TalliesAddUp(Cycle(w), shares);
    SumScaled(g, shares, w);
  }

  lemma {:induction false} WindowIsExact(w: Weights, c: Cursor, i: nat)
    requires OnSchedule(w, c) && i < |w|
    ensures Tally(Served(w, c, |Cycle(w)|), i) == Tally(Cycle(w), i)
  {
    hide Rest, Cycle, Served, Unroll;
    var before := RestIsSuffix(w, c);
    ServedIsSchedule(w, c, |Cycle(w)|);
    UnrollOnce(Rest(w, c), Cycle(w), |Cycle(w)|);
    assert Cycle(w)[..|Cycle(w)| - |Rest(w, c)|] == before;
    assert Served(w, c, |Cycle(w)|) == Rest(w, c) + before;
    TallyConcat(before, Rest(w, c), i);
    TallyConcat(Rest(w, c), before, i);
  }

  /**
   * Exact fairness: with settled weights, from a fresh selector or from any state that
   * earlier calls and reports left behind, every W/g consecutive calls serve upstream i
   * exactly w[i]/g times.
   */
  lemma {:induction false} EveryWindowIsExact(w: Weights, c: Cursor, k: nat, i: nat)
    requires Safe(w, c) && i < |w|
    ensures GcdOf(w) * |Cycle(w)| == Total(w)
    ensures GcdOf(w) * Tally(Served(w, c, k + |Cycle(w)|)[k..], i) == w[i]
  {
    CycleShares(w);
    hide GcdOf, Cycle, Tally;
    var at, n := AfterCalls(w, c, k), |Cycle(w)|;
    ServedSplits(w, c, k, n);
    assert Served(w, c, k + n)[k..] == Served(w, at, n);
    var d := EntersSchedule(w, at);
    WindowIsExact(w, d, i);
    assert n > 0 ==> Served(w, at, n) == Served(w, d, n);
  }
}
