/** The list of rows and the edits the table makes to it in place: typing into a row, adding
    and deleting rows, dragging a row to another place, pasting several lines into a row,
    shuffling, and replacing the whole list from text mode. */
module EntryEdits {
  import opened Strings
  import opened Entries
  import opened Reals
  import opened TextMode
  import opened Draw

  /** `s.splice(i, 1)` */
  function Removed<T>(s: seq<T>, i: nat): (r: seq<T>)
    requires i < |s|
    ensures |r| == |s| - 1
    ensures forall k :: 0 <= k < i ==> r[k] == s[k]
    ensures forall k :: i <= k < |r| ==> r[k] == s[k + 1]
  {
    s[..i] + s[i + 1..]
  }

  /** `s.splice(i, 0, x)` */
  function Inserted<T>(s: seq<T>, i: nat, x: T): (r: seq<T>)
    requires i <= |s|
    ensures |r| == |s| + 1
    ensures r[i] == x
    ensures forall k :: 0 <= k < i ==> r[k] == s[k]
    ensures forall k :: i < k < |r| ==> r[k] == s[k - 1]
  {
    s[..i] + [x] + s[i..]
  }

  /** Taking an element out and putting it back where it was changes nothing. */
  lemma InsertRemoved<T>(s: seq<T>, i: nat)
    requires i < |s|
    ensures Inserted(Removed(s, i), i, s[i]) == s
  {
  }

  /** The drop of a dragged row: out at `from`, back in at `to`. */
  function Moved<T>(s: seq<T>, from: nat, to: nat): (r: seq<T>)
    requires from < |s| && to < |s|
    ensures |r| == |s| && r[to] == s[from]
  {
    Inserted(Removed(s, from), to, s[from])
  }

  /** A drop keeps the same rows: the dragged one lands at `to`, and taking it out again leaves
      the others in their old order. */
  lemma MovedSpec<T>(s: seq<T>, from: nat, to: nat)
    requires from < |s| && to < |s|
    ensures |Moved(s, from, to)| == |s|
    ensures Moved(s, from, to)[to] == s[from]
    ensures Removed(Moved(s, from, to), to) == Removed(s, from)
    ensures from == to ==> Moved(s, from, to) == s
  {
    var r := Moved(s, from, to);
    var rest := Removed(s, from);
    assert r == rest[..to] + [s[from]] + rest[to..];
    assert rest == rest[..to] + rest[to..];
    assert Removed(r, to) == rest[..to] + rest[to..];
  }

  /** A drop neither loses nor duplicates a row. */
  lemma MovedPermutes<T>(s: seq<T>, from: nat, to: nat)
    requires from < |s| && to < |s|
    ensures multiset(Moved(s, from, to)) == multiset(s)
  {
    var rest := Removed(s, from);
    assert s == s[..from] + [s[from]] + s[from + 1..];
    assert multiset(s) == multiset(rest) + multiset{s[from]};
    var r := Moved(s, from, to);
    assert r == rest[..to] + [s[from]] + rest[to..];
    assert rest == rest[..to] + rest[to..];
    assert multiset(r) == multiset(rest) + multiset{s[from]};
  }

  /** `[s[i], s[j]] = [s[j], s[i]]` */
  function Swap<T>(s: seq<T>, i: nat, j: nat): (r: seq<T>)
    requires i < |s| && j < |s|
    ensures |r| == |s| && r[i] == s[j] && r[j] == s[i]
    ensures forall k :: 0 <= k < |s| && k != i && k != j ==> r[k] == s[k]
  {
    s[i := s[j]][j := s[i]]
  }

  lemma SwapPermutes<T>(s: seq<T>, i: nat, j: nat)
    requires i < |s| && j < |s|
    ensures multiset(Swap(s, i, j)) == multiset(s)
  {
  }

  /** `Math.floor(Math.random() * (i + 1))`: an index from 0 to `i`. */
  function Pick(random: real, i: nat): (j: nat)
    requires 0.0 <= random < 1.0
    ensures j <= i
  {
    Scale(i + 1, random).Floor
  }

  predicate Fractions(randoms: seq<real>) {
    forall k :: 0 <= k < |randoms| ==> 0.0 <= randoms[k] < 1.0
  }

  /** The index each step of the shuffle swaps with: step `k` picks from `0..k`. */
  function Picks(randoms: seq<real>): (js: seq<nat>)
    requires Fractions(randoms)
    ensures |js| == |randoms|
    ensures forall k :: 0 <= k < |js| ==> js[k] == Pick(randoms[k], k) && js[k] <= k
  {
    seq(|randoms|, k requires 0 <= k < |randoms| => Pick(randoms[k], k))
  }

  predicate PicksInRange(js: seq<nat>) {
    forall k :: 0 <= k < |js| ==> js[k] <= k
  }

  /** The Fisher-Yates steps `i`, `i - 1`, ..., 1, step `k` swapping rows `k` and `js[k]`. */
  function ShuffleFrom<T>(s: seq<T>, js: seq<nat>, i: nat): (r: seq<T>)
    requires i < |s| && |js| == |s| && PicksInRange(js)
    ensures |r| == |s|
    decreases i
  {
    if i == 0 then s else ShuffleFrom(Swap(s, i, js[i]), js, i - 1)
  }

  /** The shuffle button's result for the random numbers `randoms`. */
  function Shuffled<T>(s: seq<T>, randoms: seq<real>): seq<T>
    requires |randoms| == |s| && Fractions(randoms)
  {
    if s == [] then s else ShuffleFrom(s, Picks(randoms), |s| - 1)
  }

  lemma {:induction false} ShuffleFromPermutes<T>(s: seq<T>, js: seq<nat>, i: nat)
    requires i < |s| && |js| == |s| && PicksInRange(js)
    ensures |ShuffleFrom(s, js, i)| == |s|
    ensures multiset(ShuffleFrom(s, js, i)) == multiset(s)
    decreases i
  {
    if i > 0 {
      var t := Swap(s, i, js[i]);
      SwapPermutes(s, i, js[i]);
      ShuffleFromPermutes(t, js, i - 1);
    }
  }

  /** Shuffling only reorders the rows. */
  lemma ShuffledPermutes<T>(s: seq<T>, randoms: seq<real>)
    requires |randoms| == |s| && Fractions(randoms)
    ensures |Shuffled(s, randoms)| == |s|
    ensures multiset(Shuffled(s, randoms)) == multiset(s)
  {
    if s != [] {
      ShuffleFromPermutes(s, Picks(randoms), |s| - 1);
    }
  }

  /** The rows after pasting the non-blank lines `lines` into row `i`: the row's text becomes the
      first line, and each further line becomes a new row right after it, with the row's weight
      and tags. */
  function Pasted(s: seq<Entry>, i: nat, lines: seq<string>): (r: seq<Entry>)
    requires i < |s| && lines != []
    ensures |r| == |s| + |lines| - 1
    ensures r[i] == Entry(lines[0], s[i].weight, s[i].tags)
  {
    var row := s[i];
    s[..i] + seq(|lines|, k requires 0 <= k < |lines| => Entry(lines[k], row.weight, row.tags)) + s[i + 1..]
  }

  /** What a paste does to the rows: those before the row stay, the row and the new rows carry
      the lines in order with the row's weight and tags, and the rows after it move down. */
  lemma PastedSpec(s: seq<Entry>, i: nat, lines: seq<string>)
    requires i < |s| && lines != []
    ensures |Pasted(s, i, lines)| == |s| + |lines| - 1
    ensures forall k :: 0 <= k < i ==> Pasted(s, i, lines)[k] == s[k]
    ensures forall k :: 0 <= k < |lines| ==>
              Pasted(s, i, lines)[i + k] == Entry(lines[k], s[i].weight, s[i].tags)
    ensures forall k :: i < k < |s| ==> Pasted(s, i, lines)[k + |lines| - 1] == s[k]
  {
  }

  /** A paste of a single line keeps the row count and only retitles the row. */
  lemma PastedOneLine(s: seq<Entry>, i: nat, line: string)
    requires i < |s|
    ensures Pasted(s, i, [line]) == s[i := Entry(line, s[i].weight, s[i].tags)]
  {
    PastedSpec(s, i, [line]);
  }

  /** The rows of the table, `wheelEntries`. */
  class EntryList {
    var entries: seq<Entry>

    /** A new wheel, `loadWheelData` given data without entries: one "Apple" row tagged
        "fruit". */
    constructor ()
      ensures entries == [Entry("Apple", 1, "fruit")]
    {
      entries := [Entry("Apple", 1, "fruit")];
    }

    /** The page opened with nothing saved: the start-up code adds an "Apple" and a "Banana"
        row, both of weight 1 and tagged "fruit". */
    constructor FirstVisit()
      ensures entries == [Entry("Apple", 1, "fruit"), Entry("Banana", 1, "fruit")]
    {
      entries := [];
      entries := entries + [Entry("Apple", 1, "fruit")];
      entries := entries + [Entry("Banana", 1, "fruit")];
    }

    /** `addWheelEntry()`: an empty row of weight 1 at the end (Enter in a tags field). */
    method Add()
      modifies this
      ensures entries == old(entries) + [Entry("", 1, "")]
    {
      entries := entries + [Entry("", 1, "")];
    }

    /** Typing into row `i`: the three inputs are read back, the weight through `+value || 1`. */
    method Edit(i: nat, text: string, weightInput: string, tags: string)
      requires i < |entries|
      modifies this
      ensures entries == old(entries)[i := Entry(text, NumberOrOne(weightInput), tags)]
      ensures entries[i].weight >= 1
    {
      entries := entries[i := Entry(text, NumberOrOne(weightInput), tags)];
    }

    /** The delete button of row `i`. */
    method Delete(i: nat)
      requires i < |entries|
      modifies this
      ensures entries == Removed(old(entries), i)
    {
      entries := entries[..i] + entries[i + 1..];
    }

    /** A drop on row `target` of the row being dragged, if any; nothing happens without a
        dragged row or when it is dropped on itself. */
    method Drop(dragged: Option<nat>, target: nat)
      requires target < |entries|
      requires dragged.Some? ==> dragged.value < |entries|
      modifies this
      ensures dragged.None? || dragged.value == target ==> entries == old(entries)
      ensures dragged.Some? && dragged.value != target ==>
                entries == Moved(old(entries), dragged.value, target)
    {
      if dragged.None? || dragged.value == target {
        return;
      }
      var from := dragged.value;
      var movedItem := entries[from];
      entries := entries[..from] + entries[from + 1..];
      entries := entries[..target] + [movedItem] + entries[target..];
    }

    /** A paste of `clip` into the tags field of row `i`. Text without a line feed is left to
        the browser (`handled` is false); otherwise its non-blank lines, if any, go into the
        table as `Pasted` says. */
    method Paste(i: nat, clip: string) returns (handled: bool)
      requires i < |entries|
      modifies this
      ensures handled <==> '\n' in clip
      ensures !handled || NonBlankLines(clip) == [] ==> entries == old(entries)
      ensures handled && NonBlankLines(clip) != [] ==>
                entries == Pasted(old(entries), i, NonBlankLines(clip))
    {
      if '\n' !in clip {
        return false;
      }
      handled := true;
      var lines := NonBlankLines(clip);
      if |lines| == 0 {
        return;
      }
      var row := entries[i];
      var newOnes := seq(|lines| - 1, k requires 0 <= k < |lines| - 1 => Entry(lines[k + 1], row.weight, row.tags));
      entries := entries[i := Entry(lines[0], row.weight, row.tags)];
      entries := entries[..i + 1] + newOnes + entries[i + 1..];
      assert entries == Pasted(old(entries), i, lines);
    }

    /** The shuffle button: Fisher-Yates from the last row down, with `randoms[i]` standing for
        the `Math.random()` of the step that places row `i`. */
    method Shuffle(randoms: seq<real>)
      requires |randoms| == |entries| && Fractions(randoms)
      modifies this
      ensures entries == Shuffled(old(entries), randoms)
      ensures multiset(entries) == multiset(old(entries))
    {
      ShuffledPermutes(entries, randoms);
      if entries == [] {
        return;
      }
      ghost var js := Picks(randoms);
      var i := |entries| - 1;
      while i > 0
        invariant 0 <= i < |entries| == |randoms|
        invariant ShuffleFrom(entries, js, i) == Shuffled(old(entries), randoms)
        decreases i
      {
        var j := Pick(randoms[i], i);
        entries := Swap(entries, i, j);
        i := i - 1;
      }
    }

    /** Text mode handing its text back to the table (`parseTextModeArea`). */
    method LoadText(text: string)
      modifies this
      ensures entries == ParseText(text)
      ensures forall k :: 0 <= k < |entries| ==> Writable(entries[k])
    {
      ParsedWritable(text);
      entries := ParseText(text);
    }
  }
}
