/** The wheel's entry list and what is derived from it: the active (tag-filtered) entries
    with their coerced weights, the total weight of the active entries, and the entry count
    and weight sum shown under the table. */
module Entries {
  import opened Strings

  /** One row of the table: its label, its weight and its comma-separated tag string. */
  datatype Entry = Entry(text: string, weight: nat, tags: string)

  /** What the draw, the pointer and the drawing see of an active row. */
  datatype ActiveEntry = ActiveEntry(text: string, weight: nat)

  /** `+w || 1` on a stored weight: a zero weight counts as 1, any other is kept. */
  function Coerce(w: nat): (c: nat)
    ensures c >= 1
    ensures w == 0 ==> c == 1
    ensures w >= 1 ==> c == w
  {
    if w == 0 then 1 else w
  }

  /** `+s || 1` on a weight typed or parsed as text. Only decimal naturals are read; every
      other string is NaN to unary plus, and NaN and 0 both become 1. */
  function NumberOrOne(s: string): (w: nat)
    ensures w >= 1
    ensures s == "" ==> w == 1
    ensures !AllDigits(s) ==> w == 1
    ensures s != "" && AllDigits(s) ==> w == Coerce(DecimalValue(s))
  {
    if s != "" && AllDigits(s) && DecimalValue(s) != 0 then DecimalValue(s) else 1
  }

  /** A positive weight written out in decimal is read back as itself. */
  lemma NumberOrOneOfDecimal(n: nat)
    ensures NumberOrOne(Decimal(n)) == Coerce(n)
  {
    DecimalRoundTrip(n);
  }

  /** `tags.split(",").map(t => t.trim())`: never empty, since splitting "" gives [""]. */
  function TagComponents(tags: string): (ts: seq<string>)
    ensures |ts| >= 1
  {
    TrimAll(Split(tags, ','))
  }

  /** The filter of `getActiveWheelEntrys`: some trimmed component is enabled or is empty.
      (Its `!tags.length` disjunct can never hold, as the list always has a component.) */
  predicate IsActive(e: Entry, enabled: set<string>) {
    Kept(TagComponents(e.tags), enabled)
  }

  predicate Kept(ts: seq<string>, enabled: set<string>) {
    exists k :: 0 <= k < |ts| && (ts[k] in enabled || ts[k] == "")
  }

  /** The row as the wheel sees it: same text, weight through `+w || 1`. */
  function ToActive(e: Entry): (a: ActiveEntry)
    ensures a.text == e.text && a.weight >= 1
    ensures e.weight >= 1 ==> a.weight == e.weight
  {
    ActiveEntry(e.text, Coerce(e.weight))
  }

  /** `getActiveWheelEntrys`: the active rows in table order, as {text, +weight || 1}. */
  function ActiveEntries(entries: seq<Entry>, enabled: set<string>): (active: seq<ActiveEntry>)
    ensures |active| <= |entries|
    ensures forall k :: 0 <= k < |active| ==> active[k].weight >= 1
  {
    if entries == [] then []
    else
      var n := |entries| - 1;
      ActiveEntries(entries[..n], enabled)
        + (if IsActive(entries[n], enabled) then [ToActive(entries[n])] else [])
  }

  /** Positions of the active rows, in increasing order (a description of the filter). */
  function ActiveIndices(entries: seq<Entry>, enabled: set<string>): seq<nat>
  {
    if entries == [] then []
    else
      var n := |entries| - 1;
      ActiveIndices(entries[..n], enabled) + (if IsActive(entries[n], enabled) then [n] else [])
  }

  /** The active list is exactly the active rows, each once, in table order: the k-th
      active entry comes from row idx[k], the positions increase, and a row's position is
      listed if and only if the row is active. */
  lemma ActiveEntriesSpec(entries: seq<Entry>, enabled: set<string>)
    ensures var active := ActiveEntries(entries, enabled);
            var idx := ActiveIndices(entries, enabled);
            && |idx| == |active|
            && (forall k :: 0 <= k < |idx| ==> idx[k] < |entries| && active[k] == ToActive(entries[idx[k]]))
            && (forall k, l :: 0 <= k < l < |idx| ==> idx[k] < idx[l])
            && (forall i :: 0 <= i < |entries| ==> (IsActive(entries[i], enabled) <==> i in idx))
  {
    ActiveEntriesFromIndices(entries, enabled);
    ActiveIndicesSpec(entries, enabled);
  }

  lemma {:induction false} ActiveEntriesFromIndices(entries: seq<Entry>, enabled: set<string>)
    ensures var active := ActiveEntries(entries, enabled);
            var idx := ActiveIndices(entries, enabled);
            && |idx| == |active|
            && (forall k :: 0 <= k < |idx| ==> idx[k] < |entries| && active[k] == ToActive(entries[idx[k]]))
  {
    if entries != [] {
      var n := |entries| - 1;
      var pre := entries[..n];
      ActiveEntriesFromIndices(pre, enabled);
      var idx0 := ActiveIndices(pre, enabled);
      assert forall k :: 0 <= k < |idx0| ==> pre[idx0[k]] == entries[idx0[k]];
    }
  }

  lemma {:induction false} ActiveIndicesSpec(entries: seq<Entry>, enabled: set<string>)
    ensures var idx := ActiveIndices(entries, enabled);
            && (forall k :: 0 <= k < |idx| ==> idx[k] < |entries|)
            && (forall k, l :: 0 <= k < l < |idx| ==> idx[k] < idx[l])
            && (forall i :: 0 <= i < |entries| ==> (IsActive(entries[i], enabled) <==> i in idx))
  {
    if entries != [] {
      var n := |entries| - 1;
      var pre := entries[..n];
      ActiveIndicesSpec(pre, enabled);
      var idx0 := ActiveIndices(pre, enabled);
      var idx := ActiveIndices(entries, enabled);
      assert n !in idx0;
      forall i | 0 <= i < |entries|
        ensures IsActive(entries[i], enabled) <==> i in idx
      {
        if i < n {
          assert pre[i] == entries[i];
        }
      }
    }
  }

  /** The tags a row carries: its non-empty trimmed components. */
  function TagsOf(tags: string): set<string> {
    TagSet(TagComponents(tags))
  }

  function TagSet(ts: seq<string>): set<string> {
    set t | t in ts && t != ""
  }

  /** A row is active if and only if one of its tags is enabled or its tag string has an
      empty component (as "" or "a," have); so a row that carries no tag is always active. */
  lemma ActiveIff(e: Entry, enabled: set<string>)
    ensures IsActive(e, enabled) <==> (TagsOf(e.tags) * enabled != {} || "" in TagComponents(e.tags))
    ensures TagsOf(e.tags) == {} ==> IsActive(e, enabled)
  {
    KeptIff(TagComponents(e.tags), enabled);
  }

  lemma KeptIff(ts: seq<string>, enabled: set<string>)
    requires |ts| >= 1
    ensures Kept(ts, enabled) <==> (TagSet(ts) * enabled != {} || "" in ts)
    ensures TagSet(ts) == {} ==> Kept(ts, enabled)
  {
    if Kept(ts, enabled) {
      var k :| 0 <= k < |ts| && (ts[k] in enabled || ts[k] == "");
      if ts[k] != "" {
        assert ts[k] in TagSet(ts) * enabled;
      }
    }
    if TagSet(ts) * enabled != {} {
      var t :| t in TagSet(ts) * enabled;
      var k :| 0 <= k < |ts| && ts[k] == t;
    }
    if "" in ts {
      var k :| 0 <= k < |ts| && ts[k] == "";
    }
    assert ts[0] in ts;
    assert ts[0] != "" ==> ts[0] in TagSet(ts);
  }

  /** The weights of a list of active entries, in order. */
  function Weights(active: seq<ActiveEntry>): (ws: seq<nat>)
    ensures |ws| == |active|
  {
    seq(|active|, k requires 0 <= k < |active| => active[k].weight)
  }

  function Sum(ws: seq<nat>): nat {
    if ws == [] then 0 else Sum(ws[..|ws| - 1]) + ws[|ws| - 1]
  }

  lemma SumStep(ws: seq<nat>, i: nat)
    requires i < |ws|
    ensures Sum(ws[..i + 1]) == Sum(ws[..i]) + ws[i]
  {
    assert ws[..i + 1][..i] == ws[..i];
  }

  /** Prefix sums never decrease. */
  lemma {:induction false} SumPrefixMonotone(ws: seq<nat>, i: nat, j: nat)
    requires i <= j <= |ws|
    ensures Sum(ws[..i]) <= Sum(ws[..j])
    decreases j - i
  {
    if i < j {
      SumStep(ws, j - 1);
      SumPrefixMonotone(ws, i, j - 1);
    }
  }

  /** When every weight is at least 1, the sum is at least the number of weights. */
  lemma {:induction false} SumAtLeastLength(ws: seq<nat>)
    requires forall k :: 0 <= k < |ws| ==> ws[k] >= 1
    ensures Sum(ws) >= |ws|
  {
    if ws != [] {
      SumAtLeastLength(ws[..|ws| - 1]);
    }
  }

  /** The total weight of the active entries is at least their number, so it is positive
      whenever any entry is active. */
  lemma ActiveTotalPositive(entries: seq<Entry>, enabled: set<string>)
    ensures var active := ActiveEntries(entries, enabled);
            Sum(Weights(active)) >= |active|
  {
    SumAtLeastLength(Weights(ActiveEntries(entries, enabled)));
  }

  /** `getTotalWeight`: adds up the weights of the active entries, one by one. */
  method GetTotalWeight(entries: seq<Entry>, enabled: set<string>) returns (total: nat)
    ensures total == Sum(Weights(ActiveEntries(entries, enabled)))
    ensures total >= |ActiveEntries(entries, enabled)|
  {
    var active := ActiveEntries(entries, enabled);
    ghost var ws := Weights(active);
    total := 0;
    var i := 0;
    while i < |active|
      invariant 0 <= i <= |active|
      invariant total == Sum(ws[..i])
    {
      SumStep(ws, i);
      total := total + active[i].weight;
      i := i + 1;
    }
    assert ws[..i] == ws;
    ActiveTotalPositive(entries, enabled);
  }

  /** The weight sum of `updateWheelEntriesCount`: `+e.weight || 1` over every row,
      active or not. */
  function AllWeight(entries: seq<Entry>): (w: nat)
    ensures w >= |entries|
  {
    if entries == [] then 0
    else AllWeight(entries[..|entries| - 1]) + Coerce(entries[|entries| - 1].weight)
  }

  /** `updateWheelEntriesCount`: the number of rows and the weight sum over all of them. */
  function WheelEntriesCount(entries: seq<Entry>): (count: (nat, nat))
    ensures count.0 == |entries| && count.1 >= count.0
  {
    (|entries|, AllWeight(entries))
  }

  /** The weight of the rows the filter drops. */
  function InactiveWeight(entries: seq<Entry>, enabled: set<string>): nat {
    if entries == [] then 0
    else
      var n := |entries| - 1;
      InactiveWeight(entries[..n], enabled)
        + (if IsActive(entries[n], enabled) then 0 else Coerce(entries[n].weight))
  }

  /** Every row's weight goes either to the active total or to the dropped weight. */
  lemma {:induction false} AllWeightSplits(entries: seq<Entry>, enabled: set<string>)
    ensures AllWeight(entries) == Sum(Weights(ActiveEntries(entries, enabled))) + InactiveWeight(entries, enabled)
    ensures AllWeight(entries) >= |entries|
  {
    if entries != [] {
      var n := |entries| - 1;
      var pre := entries[..n];
      AllWeightSplits(pre, enabled);
      var a0 := ActiveEntries(pre, enabled);
      var a := ActiveEntries(entries, enabled);
      if IsActive(entries[n], enabled) {
        assert a == a0 + [ToActive(entries[n])];
        assert Weights(a)[..|a| - 1] == Weights(a0);
      } else {
        assert a == a0;
      }
    }
  }

  /** No weight is dropped exactly when every row is active. */
  lemma {:induction false} NothingDroppedIff(entries: seq<Entry>, enabled: set<string>)
    ensures InactiveWeight(entries, enabled) == 0 <==> forall i :: 0 <= i < |entries| ==> IsActive(entries[i], enabled)
  {
    if entries != [] {
      var n := |entries| - 1;
      var pre := entries[..n];
      NothingDroppedIff(pre, enabled);
      if IsActive(entries[n], enabled) {
        assert InactiveWeight(entries, enabled) == InactiveWeight(pre, enabled);
        if InactiveWeight(pre, enabled) == 0 {
          forall i | 0 <= i < |entries|
            ensures IsActive(entries[i], enabled)
          {
            if i < n {
              assert pre[i] == entries[i];
            }
          }
        }
        if forall i :: 0 <= i < |entries| ==> IsActive(entries[i], enabled) {
          forall i | 0 <= i < n
            ensures IsActive(pre[i], enabled)
          {
            assert pre[i] == entries[i];
          }
        }
      } else {
        assert InactiveWeight(entries, enabled) >= 1;
      }
    }
  }

  /** The count shown under the table bounds the wheel's total weight: the weight sum over
      all rows is at least the number of rows and at least the active total, and it equals
      the active total exactly when every row is active. */
  lemma WheelEntriesCountBounds(entries: seq<Entry>, enabled: set<string>)
    ensures var (count, weight) := WheelEntriesCount(entries);
            var activeTotal := Sum(Weights(ActiveEntries(entries, enabled)));
            && count == |entries|
            && weight >= count
            && weight >= activeTotal
            && (weight == activeTotal <==> forall i :: 0 <= i < |entries| ==> IsActive(entries[i], enabled))
  {
    AllWeightSplits(entries, enabled);
    NothingDroppedIff(entries, enabled);
  }
}
