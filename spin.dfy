/** The spin: `spin` draws a winner and computes how far to turn the wheel, `frame` advances
    the ease-out animation, and `getPointerWheelEntry` reads the entry under the pointer.

    Angles are measured in turns (1.0 is a full revolution, `2 * Math.PI` in the page), so
    the slice of one unit of weight is `1 / W` turns for a total active weight `W`. */
module Spin {
  import opened Strings
  import opened Entries
  import opened Draw
  import opened Reals

  /** `a % (2 * Math.PI)`: the remainder of `a` by one turn, truncated toward zero as
      JavaScript's `%` is, so it keeps the sign of `a`. */
  function TurnRemainder(a: real): (r: real)
    ensures -1.0 < r < 1.0
    ensures a >= 0.0 ==> r >= 0.0
    ensures a <= 0.0 ==> r <= 0.0
  {
    if a >= 0.0 then a - a.Floor as real else a + (-a).Floor as real
  }

  /** What is taken off is a whole number of turns. */
  lemma TurnRemainderWhole(a: real)
    ensures (a - TurnRemainder(a)).Floor as real == a - TurnRemainder(a)
  {
    var n := if a >= 0.0 then a.Floor else -((-a).Floor);
    assert a - TurnRemainder(a) == n as real;
    assert (n as real).Floor == n;
  }

  /** Whole turns added to a fraction of a turn come off again. */
  lemma TurnRemainderOfTurns(x: real, n: nat)
    requires 0.0 <= x < 1.0
    ensures TurnRemainder(x + n as real) == x
  {
    assert (x + n as real).Floor == n;
  }

  /** `slicePerWeight`: the angle taken by one unit of weight. */
  function SlicePerWeight(totalWeight: nat): (slice: real)
    requires totalWeight > 0
    ensures 0.0 < slice <= 1.0
    ensures slice * totalWeight as real == 1.0
  {
    1.0 / totalWeight as real
  }

  /** `(angle % (2 * Math.PI)) / slicePerWeight`: how far along the weights the pointer is. */
  function PointerPos(angle: real, totalWeight: nat): real
    requires totalWeight > 0
  {
    TurnRemainder(angle) / SlicePerWeight(totalWeight)
  }

  /** The pointer position is the fraction of a turn scaled up to the total weight: it lies
      below the total weight, and is not negative when the angle is not. */
  lemma PointerPosScaled(angle: real, totalWeight: nat)
    requires totalWeight > 0
    ensures PointerPos(angle, totalWeight) == totalWeight as real * TurnRemainder(angle)
    ensures PointerPos(angle, totalWeight) <= totalWeight as real
    ensures angle >= 0.0 ==> PointerPos(angle, totalWeight) >= 0.0
  {
    var w := totalWeight as real;
    var rem := TurnRemainder(angle);
    DivByInverse(rem, w, SlicePerWeight(totalWeight));
    assert rem * w == w * rem;
    MulMonotone(w, rem, 1.0);
    if angle >= 0.0 {
      MulMonotone(w, 0.0, rem);
    }
  }

  /** The drawn position turned into an angle is the random fraction itself. */
  lemma ScaledTarget(totalWeight: nat, random: real)
    requires totalWeight > 0 && 0.0 <= random < 1.0
    ensures TargetAngle(Scale(totalWeight, random), totalWeight) == random
  {
    Cancel(totalWeight as real, SlicePerWeight(totalWeight), random);
  }

  /** `winner["weight"] * slicePerWeight`: the angle of a position along the weights. */
  function TargetAngle(pos: real, totalWeight: nat): (target: real)
    requires totalWeight > 0
    ensures 0.0 <= pos <= totalWeight as real ==> 0.0 <= target <= 1.0
  {
    var slice := SlicePerWeight(totalWeight);
    if 0.0 <= pos <= totalWeight as real then
      MulMonotone(slice, 0.0, pos);
      MulMonotone(slice, pos, totalWeight as real);
      pos * slice
    else
      pos * slice
  }

  /** The rotation `spin` asks for: from `start` to the `target` angle, plus
      `Math.floor(spinStrength)` whole turns, and one more turn if that is still backwards. */
  function SpinTotal(start: real, target: real, strength: real): (total: real)
    ensures start < 1.0 && target >= 0.0 && strength >= 0.0 ==> total >= 0.0
  {
    var total := target - start + strength.Floor as real;
    if total < 0.0 then total + 1.0 else total
  }

  /** With a non-negative spin strength the wheel turns forward and comes to rest with the
      target angle under the pointer, after `Math.floor(spinStrength)` whole turns, or one
      turn when that number is zero and the target lies behind the start. */
  lemma SpinLands(start: real, target: real, strength: real)
    requires -1.0 < start < 1.0
    requires 0.0 <= target < 1.0
    requires strength >= 0.0
    ensures SpinTotal(start, target, strength) >= 0.0
    ensures var stop := start + SpinTotal(start, target, strength);
            stop >= 0.0 && TurnRemainder(stop) == target
    ensures var turns := start + SpinTotal(start, target, strength) - target;
            turns == strength.Floor as real ||
            (strength.Floor == 0 && target < start && turns == 1.0)
  {
    var n := strength.Floor;
    assert n >= 0;
    var total := SpinTotal(start, target, strength);
    if target - start + n as real < 0.0 {
      assert n == 0;
      TurnRemainderOfTurns(target, 1);
    } else {
      TurnRemainderOfTurns(target, n as nat);
    }
  }

  /** For a total weight `W`, the wheel started at `start` and turned by the rotation `spin`
      asks for stops with the pointer at the drawn position `W * random`. */
  lemma StopsAtDrawn(totalWeight: nat, start: real, random: real, strength: real)
    requires totalWeight > 0
    requires -1.0 < start < 1.0
    requires 0.0 <= random < 1.0
    requires strength >= 0.0
    ensures var r := Scale(totalWeight, random);
            var total := SpinTotal(start, TargetAngle(r, totalWeight), strength);
            total >= 0.0 && PointerPos(start + total, totalWeight) == r
  {
    ScaledTarget(totalWeight, random);
    SpinLands(start, random, strength);
    PointerPosScaled(start + SpinTotal(start, random, strength), totalWeight);
  }

  /** The point of `spin`: when the wheel stops at `start + total`, the pointer reads the drawn
      position `W * random` again, so the entry under it is the winner of the draw. */
  lemma PointerLandsOnWinner(active: seq<ActiveEntry>, start: real, random: real, strength: real)
    requires Sum(Weights(active)) > 0
    requires -1.0 < start < 1.0
    requires 0.0 <= random < 1.0
    requires strength >= 0.0
    ensures var totalWeight := Sum(Weights(active));
            var r := DrawPosition(Weights(active), random);
            var total := SpinTotal(start, TargetAngle(r, totalWeight), strength);
            total >= 0.0 && PointerPos(start + total, totalWeight) == r &&
            EntryAt(active, PointerPos(start + total, totalWeight)) == EntryAt(active, r)
  {
    StopsAtDrawn(Sum(Weights(active)), start, random, strength);
  }

  /** `Math.min((t - startTime) / duration, 1)`: the fraction of the animation done. */
  function Progress(elapsed: real, duration: real): (p: real)
    requires duration > 0.0
    ensures p <= 1.0
    ensures p == 1.0 <==> elapsed >= duration
    ensures elapsed >= 0.0 ==> p >= 0.0
    ensures elapsed == 0.0 ==> p == 0.0
  {
    var p := elapsed / duration;
    if p < 1.0 then p else 1.0
  }

  /** The ease-out cubic `1 - (1 - p)^3`. */
  function Eased(p: real): real {
    1.0 - (1.0 - p) * (1.0 - p) * (1.0 - p)
  }

  /** The easing starts at rest at 0, ends at 1, and never goes backwards in between. */
  lemma EasedShape(p: real, q: real)
    requires 0.0 <= p <= q <= 1.0
    ensures Eased(0.0) == 0.0 && Eased(1.0) == 1.0
    ensures 0.0 <= Eased(p) <= Eased(q) <= 1.0
  {
    CubeMonotone(1.0 - q, 1.0 - p);
    CubeMonotone(1.0 - p, 1.0);
    CubeMonotone(0.0, 1.0 - q);
  }

  /** `angle = start + total * (1 - Math.pow(1 - p, 3))`. */
  function FrameAngle(start: real, total: real, p: real): real {
    start + total * Eased(p)
  }

  /** Later frames are further along. */
  lemma ProgressMonotone(e1: real, e2: real, duration: real)
    requires duration > 0.0 && 0.0 <= e1 <= e2
    ensures 0.0 <= Progress(e1, duration) <= Progress(e2, duration)
  {
    DivMonotone(e1, e2, duration);
    DivMonotone(0.0, e1, duration);
  }

  /** The animation starts from the angle `start`. */
  lemma FrameAngleStart(start: real, total: real, duration: real)
    requires duration > 0.0
    ensures FrameAngle(start, total, Progress(0.0, duration)) == start
  {
    EasedShape(0.0, 0.0);
  }

  /** Once the duration is over the angle sits exactly at `start + total`. */
  lemma FrameAngleEnd(start: real, total: real, duration: real, elapsed: real)
    requires duration > 0.0 && elapsed >= duration
    ensures FrameAngle(start, total, Progress(elapsed, duration)) == start + total
  {
    EasedShape(1.0, 1.0);
  }

  /** With a forward rotation the animated angle stays between `start` and `start + total` and
      never turns back: a later progress `q` shows an angle at least that of an earlier `p`. */
  lemma FrameAngleMonotone(start: real, total: real, p: real, q: real)
    requires total >= 0.0 && 0.0 <= p <= q <= 1.0
    ensures start <= FrameAngle(start, total, p) <= FrameAngle(start, total, q) <= start + total
  {
    EasedShape(p, q);
    TurnedBetween(start, total, Eased(p), Eased(q));
  }

  /** Frame after frame the angle moves forward, from `start` towards `start + total`. */
  lemma FramesMoveForward(start: real, total: real, duration: real, e1: real, e2: real)
    requires total >= 0.0 && duration > 0.0 && 0.0 <= e1 <= e2
    ensures start <= FrameAngle(start, total, Progress(e1, duration))
    ensures FrameAngle(start, total, Progress(e1, duration)) <= FrameAngle(start, total, Progress(e2, duration))
    ensures FrameAngle(start, total, Progress(e2, duration)) <= start + total
  {
    ProgressMonotone(e1, e2, duration);
    FrameAngleMonotone(start, total, Progress(e1, duration), Progress(e2, duration));
  }

  /** A share `a` of a forward rotation, then a larger share `b`, lie between its ends. */
  lemma TurnedBetween(start: real, total: real, a: real, b: real)
    requires total >= 0.0 && 0.0 <= a <= b <= 1.0
    ensures start <= start + total * a <= start + total * b <= start + total
  {
    MulMonotone(total, 0.0, a);
    MulMonotone(total, a, b);
    MulMonotone(total, b, 1.0);
  }

  /** `getPointerWheelEntry`: the entry under the pointer at `angle`, found by the same walk as
      the draw. With nothing active the slice is `2 * Math.PI / 0`, infinite, the position
      comes out as 0 and the walk has nothing to visit. */
  method PointerEntry(entries: seq<Entry>, enabled: set<string>, angle: real) returns (found: Option<ActiveEntry>)
    ensures var active := ActiveEntries(entries, enabled);
            active == [] ==> found == None
    ensures var active := ActiveEntries(entries, enabled);
            active != [] ==> found == EntryAt(active, PointerPos(angle, Sum(Weights(active)))) && found.Some?
  {
    var active := ActiveEntries(entries, enabled);
    var totalWeight := GetTotalWeight(entries, enabled);
    var pos := 0.0;
    if totalWeight > 0 {
      pos := TurnRemainder(angle) / SlicePerWeight(totalWeight);
      PointerPosScaled(angle, totalWeight);
      FirstReachingFound(Weights(active), pos);
    }
    found := Walk(active, pos);
  }

  /** A table whose only row carries a tag that is switched off has nothing active: the input
      on which `spin` as written gets stuck. */
  lemma NothingActiveExample()
    ensures ActiveEntries([Entry("X", 1, "a")], {}) == []
  {
    var e := Entry("X", 1, "a");
    assert Split(e.tags, ',') == ["a"];
    TrimOfTrimmed("a");
    assert TagComponents(e.tags) == ["a"];
    assert !IsActive(e, {});
    assert [e][..0] == [];
  }

  /** The wheel's angle and the state of the animation `spin` starts: the values its `frame`
      closure captures (`start`, `total`, `duration`, `startTime`, the winner) are fields. */
  class Spinner {
    var angle: real
    var spinning: bool
    var start: real
    var total: real
    var duration: real
    /** `startTime`; 0.0 stands for a value not set yet (`!startTime` in the page). */
    var startTime: real
    /** The drawn winner; `None` while no animation is scheduled. */
    var winner: Option<Winner>

    /** A scheduled animation has a positive duration and starts less than a turn from zero. */
    ghost predicate Valid()
      reads this
    {
      winner.Some? ==> duration > 0.0 && -1.0 < start < 1.0
    }

    constructor ()
      ensures Valid() && angle == 0.0 && !spinning && winner.None?
    {
      angle := 0.0;
      spinning := false;
      start := 0.0;
      total := 0.0;
      duration := 1.0;
      startTime := 0.0;
      winner := None;
    }

    /** `spin`, as written. A click while spinning does nothing. Otherwise the wheel is marked
        spinning and the winner drawn; with no active entry the draw returns nothing and reading
        its weight throws, so the animation is never scheduled and `spinning` stays set. */
    method Spin(entries: seq<Entry>, enabled: set<string>, random: real, spinStrength: real, spinDuration: real)
      requires Valid()
      requires 0.0 <= random < 1.0
      requires spinDuration > 0.0
      modifies this
      ensures Valid()
      ensures old(spinning) ==> unchanged(this)
      ensures !old(spinning) ==> spinning && angle == old(angle)
      ensures !old(spinning) && ActiveEntries(entries, enabled) == [] ==> winner.None?
      ensures var active := ActiveEntries(entries, enabled);
              var totalWeight := Sum(Weights(active));
              !old(spinning) && active != [] ==>
                totalWeight > 0 && winner.Some? &&
                winner.value.weight == DrawPosition(Weights(active), random) &&
                Some(winner.value.entry) == EntryAt(active, winner.value.weight) &&
                start == TurnRemainder(old(angle)) && startTime == 0.0 &&
                duration == spinDuration * 1000.0 &&
                total == SpinTotal(start, TargetAngle(winner.value.weight, totalWeight), spinStrength)
      ensures var active := ActiveEntries(entries, enabled);
              var totalWeight := Sum(Weights(active));
              !old(spinning) && active != [] && spinStrength >= 0.0 ==>
                totalWeight > 0 && winner.Some? && total >= 0.0 &&
                EntryAt(active, PointerPos(start + total, totalWeight)) == Some(winner.value.entry)
    {
      if spinning {
        return;
      }
      spinning := true;
      var pulled := PullWeighted(entries, enabled, random);
      if pulled.None? {
        // `winner["weight"]` on `undefined` throws here
        winner := None;
        return;
      }
      var totalWeight := GetTotalWeight(entries, enabled);
      start := TurnRemainder(angle);
      total := TargetAngle(pulled.value.weight, totalWeight) - start + spinStrength.Floor as real;
      if total < 0.0 {
        total := total + 1.0;
      }
      duration := spinDuration * 1000.0;
      startTime := 0.0;
      winner := pulled;
      ghost var active := ActiveEntries(entries, enabled);
      ActiveTotalPositive(entries, enabled);
      if spinStrength >= 0.0 {
        PointerLandsOnWinner(active, start, random, spinStrength);
      }
    }

    /** `spin` refusing, as intended, when no entry is active: nothing changes, and the wheel
        stays free for the next click. */
    method SpinOrRefuse(entries: seq<Entry>, enabled: set<string>, random: real, spinStrength: real, spinDuration: real)
      requires Valid()
      requires 0.0 <= random < 1.0
      requires spinDuration > 0.0
      modifies this
      ensures Valid()
      ensures old(spinning) || ActiveEntries(entries, enabled) == [] ==> unchanged(this)
      ensures var active := ActiveEntries(entries, enabled);
              var totalWeight := Sum(Weights(active));
              !old(spinning) && active != [] ==>
                spinning && angle == old(angle) && totalWeight > 0 && winner.Some? &&
                winner.value.weight == DrawPosition(Weights(active), random) &&
                Some(winner.value.entry) == EntryAt(active, winner.value.weight) &&
                start == TurnRemainder(old(angle)) && startTime == 0.0 &&
                duration == spinDuration * 1000.0 &&
                total == SpinTotal(start, TargetAngle(winner.value.weight, totalWeight), spinStrength) &&
                (spinStrength >= 0.0 ==>
                   total >= 0.0 && EntryAt(active, PointerPos(start + total, totalWeight)) == Some(winner.value.entry))
    {
      var active := ActiveEntries(entries, enabled);
      if active == [] {
        return;
      }
      Spin(entries, enabled, random, spinStrength, spinDuration);
    }

    /** `frame(t)`: fixes the start time on the first frame, moves the wheel along the eased
        curve, and on the frame that reaches the duration stops spinning and shows the winner. */
    method Frame(t: real) returns (shown: Option<ActiveEntry>)
      requires Valid() && spinning && winner.Some?
      modifies this
      ensures Valid()
      ensures start == old(start) && total == old(total) && duration == old(duration) && winner == old(winner)
      ensures startTime == (if old(startTime) == 0.0 then t else old(startTime))
      ensures angle == FrameAngle(start, total, Progress(t - startTime, duration))
      ensures spinning <==> t - startTime < duration
      ensures spinning ==> shown == None
      ensures !spinning ==> angle == start + total && shown == Some(winner.value.entry)
    {
      if startTime == 0.0 {
        startTime := t;
      }
      var p := Progress(t - startTime, duration);
      angle := FrameAngle(start, total, p);
      if p < 1.0 {
        shown := None;
      } else {
        spinning := false;
        EasedShape(1.0, 1.0);
        shown := Some(winner.value.entry);
      }
    }
  }
}
