/** The weighted draw and the pointer lookup. Both walk the active entries in order,
    subtracting each weight from a position until it reaches zero or below: the winner of
    `pullWeightedWheelEntry` is found this way from a random position in `[0, W)`, and the
    entry under the pointer from the wheel's angle. */
module Draw {
  import opened Entries
  import opened Reals

  datatype Option<T> = None | Some(value: T)

  /** The running total of the weights up to and including index `i`. */
  function Through(ws: seq<nat>, i: nat): nat
    requires i < |ws|
  {
    Sum(ws[..i + 1])
  }

  /** The first index `i >= from` whose running total reaches `pos`. */
  function FirstReachingFrom(ws: seq<nat>, pos: real, from: nat): (k: Option<nat>)
    requires from <= |ws|
    ensures k.Some? ==> from <= k.value < |ws|
    decreases |ws| - from
  {
    if from == |ws| then None
    else if pos <= Through(ws, from) as real then Some(from)
    else FirstReachingFrom(ws, pos, from + 1)
  }

  /** The index at which subtracting the weights `ws` in order from `pos` first gives zero or less. */
  function FirstReaching(ws: seq<nat>, pos: real): (k: Option<nat>)
    ensures k.Some? ==> k.value < |ws|
  {
    FirstReachingFrom(ws, pos, 0)
  }

  lemma {:induction false} FirstReachingFromSpec(ws: seq<nat>, pos: real, from: nat, i: nat)
    requires from <= |ws|
    ensures FirstReachingFrom(ws, pos, from) == Some(i) <==>
      from <= i < |ws| && pos <= Through(ws, i) as real &&
      forall j :: from <= j < i ==> Through(ws, j) as real < pos
    ensures FirstReachingFrom(ws, pos, from) == None <==>
      forall j :: from <= j < |ws| ==> Through(ws, j) as real < pos
    decreases |ws| - from
  {
    if from < |ws| && Through(ws, from) as real < pos {
      FirstReachingFromSpec(ws, pos, from + 1, i);
    }
  }

  /** Where the walk stops: the entry `i` is reached exactly by the positions in the interval
      `(Sum(ws[..i]), Sum(ws[..i + 1])]`, whose length is the weight `ws[i]`; so a position
      drawn uniformly from `(0, Sum(ws)]` picks each entry with probability proportional to its
      weight. */
  lemma FirstReachingInterval(ws: seq<nat>, pos: real, i: nat)
    requires 0.0 < pos
    ensures FirstReaching(ws, pos) == Some(i) <==>
      i < |ws| && Sum(ws[..i]) as real < pos <= Sum(ws[..i + 1]) as real
  {
    FirstReachingFromSpec(ws, pos, 0, i);
    if i < |ws| && Sum(ws[..i]) as real < pos <= Sum(ws[..i + 1]) as real {
      forall j | 0 <= j < i
        ensures Through(ws, j) as real < pos
      {
        SumPrefixMonotone(ws, j + 1, i);
      }
    }
    if FirstReaching(ws, pos) == Some(i) && 0 < i {
      assert Through(ws, i - 1) as real < pos;
    }
  }

  /** The walk runs off the end exactly when there is nothing to walk or the position exceeds
      the total weight; a
      position of zero or less stops at the first entry. */
  lemma FirstReachingFound(ws: seq<nat>, pos: real)
    ensures FirstReaching(ws, pos) == None <==> ws == [] || pos > Sum(ws) as real
    ensures pos <= 0.0 && ws != [] ==> FirstReaching(ws, pos) == Some(0)
  {
    FirstReachingFromSpec(ws, pos, 0, 0);
    if FirstReaching(ws, pos) == None && ws != [] {
      assert Through(ws, |ws| - 1) as real < pos;
      assert ws[..|ws| - 1 + 1] == ws;
    }
    if pos > Sum(ws) as real {
      forall j | 0 <= j < |ws|
        ensures Through(ws, j) as real < pos
      {
        SumPrefixMonotone(ws, j + 1, |ws|);
        assert ws[..|ws|] == ws;
      }
    }
  }

  /** The position `W * random` the draw picks, for total weight `W`: in `[0, W]`, and below
      `W` when `W` is positive. */
  function DrawPosition(ws: seq<nat>, random: real): (pos: real)
    requires 0.0 <= random < 1.0
    ensures 0.0 <= pos <= Sum(ws) as real
    ensures Sum(ws) > 0 ==> pos < Sum(ws) as real
  {
    Scale(Sum(ws), random)
  }

  /** The drawn position is found by the walk whenever there is anything to walk over. */
  lemma DrawFound(ws: seq<nat>, random: real)
    requires 0.0 <= random < 1.0
    ensures FirstReaching(ws, DrawPosition(ws, random)) == None <==> ws == []
  {
    FirstReachingFound(ws, DrawPosition(ws, random));
  }

  /** The entry the walk stops at, if any. */
  function EntryAt(active: seq<ActiveEntry>, pos: real): (found: Option<ActiveEntry>)
    ensures found.Some? ==> found.value in active
    ensures found.None? <==> FirstReaching(Weights(active), pos).None?
  {
    match FirstReaching(Weights(active), pos)
    case None => None
    case Some(i) => Some(active[i])
  }

  /** The subtraction loop shared by `pullWeightedWheelEntry` and `getPointerWheelEntry`. */
  method Walk(active: seq<ActiveEntry>, pos: real) returns (found: Option<ActiveEntry>)
    ensures found == EntryAt(active, pos)
  {
    ghost var ws := Weights(active);
    var rest := pos;
    var i := 0;
    while i < |active|
      invariant 0 <= i <= |active|
      invariant rest == pos - Sum(ws[..i]) as real
      invariant FirstReachingFrom(ws, pos, i) == FirstReaching(ws, pos)
    {
      SumStep(ws, i);
      rest := rest - active[i].weight as real;
      if rest <= 0.0 {
        return Some(active[i]);
      }
      i := i + 1;
    }
    return None;
  }

  /** The result of `pullWeightedWheelEntry`: the drawn position and the entry it falls in. */
  datatype Winner = Winner(weight: real, entry: ActiveEntry)

  /** `pullWeightedWheelEntry` with `Math.random()` passed in as `random`: draws the position
      `W * random` and walks to the entry it falls in. There is a winner exactly when some
      entry is active. */
  method PullWeighted(entries: seq<Entry>, enabled: set<string>, random: real) returns (winner: Option<Winner>)
    requires 0.0 <= random < 1.0
    ensures var active := ActiveEntries(entries, enabled);
            winner.Some? <==> active != []
    ensures var active := ActiveEntries(entries, enabled);
            winner.Some? ==> winner.value.weight == DrawPosition(Weights(active), random) &&
                             Some(winner.value.entry) == EntryAt(active, winner.value.weight)
  {
    var active := ActiveEntries(entries, enabled);
    var totalWeight := GetTotalWeight(entries, enabled);
    var winningWeight := Scale(totalWeight, random);
    assert winningWeight == DrawPosition(Weights(active), random);
    DrawFound(Weights(active), random);
    var found := Walk(active, winningWeight);
    match found
    case None =>
      winner := None;
    case Some(e) =>
      winner := Some(Winner(winningWeight, e));
  }
}
