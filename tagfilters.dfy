/** The tag filter: the set of tags the rows carry, which of them are enabled, and the two
    ways the state changes, `updateTagFilters` after any edit of the rows and a click on a
    tag toggle. */
module TagFilters {
  import opened Entries

  /** Every tag some row carries: the non-empty trimmed components of all tag strings. */
  function AllTags(entries: seq<Entry>): (all: set<string>)
    ensures "" !in all
  {
    if entries == [] then {}
    else AllTags(entries[..|entries| - 1]) + TagsOf(entries[|entries| - 1].tags)
  }

  /** A tag some row carries is in use. */
  lemma {:induction false} AllTagsHas(entries: seq<Entry>, i: nat, t: string)
    requires i < |entries| && t in TagsOf(entries[i].tags)
    ensures t in AllTags(entries)
  {
    var n := |entries| - 1;
    if i < n {
      var pre := entries[..n];
      assert pre[i] == entries[i];
      AllTagsHas(pre, i, t);
    }
  }

  /** A tag in use is carried by some row. */
  lemma {:induction false} AllTagsWitness(entries: seq<Entry>, t: string) returns (i: nat)
    requires t in AllTags(entries)
    ensures i < |entries| && t in TagsOf(entries[i].tags)
  {
    var n := |entries| - 1;
    var pre := entries[..n];
    if t in TagsOf(entries[n].tags) {
      i := n;
    } else {
      i := AllTagsWitness(pre, t);
      assert pre[i] == entries[i];
    }
  }

  /** A tag is in use if and only if some row carries it. */
  lemma AllTagsIff(entries: seq<Entry>, t: string)
    ensures t in AllTags(entries) <==> exists i :: 0 <= i < |entries| && t in TagsOf(entries[i].tags)
  {
    if t in AllTags(entries) {
      var i := AllTagsWitness(entries, t);
    }
    forall i | 0 <= i < |entries| && t in TagsOf(entries[i].tags)
      ensures t in AllTags(entries)
    {
      AllTagsHas(entries, i, t);
    }
  }

  /** The pair of tag sets the filter keeps. */
  datatype TagState = TagState(enabled: set<string>, known: set<string>)

  /** The state `updateTagFilters` leaves: the known tags become exactly the tags in use,
      nothing outside them stays enabled, a tag seen for the first time is enabled, and a
      tag that was already known keeps its enabled or disabled status. */
  function UpdatedTags(st: TagState, entries: seq<Entry>): (r: TagState)
    ensures r.known == AllTags(entries)
    ensures r.enabled <= r.known
    ensures forall t :: t in r.known && t !in st.known ==> t in r.enabled
    ensures forall t :: t in r.known && t in st.known ==> (t in r.enabled <==> t in st.enabled)
  {
    var all := AllTags(entries);
    TagState((st.enabled * all) + (all - st.known), all)
  }

  /** Running the update twice is the same as running it once. */
  lemma UpdateIdempotent(st: TagState, entries: seq<Entry>)
    ensures UpdatedTags(UpdatedTags(st, entries), entries) == UpdatedTags(st, entries)
  {
  }

  /** A click on a tag toggle: `enabledTags.has(tag) ? delete(tag) : add(tag)`. */
  function Toggled(enabled: set<string>, tag: string): (r: set<string>)
    ensures forall t :: t != tag ==> (t in r <==> t in enabled)
    ensures tag in r <==> tag !in enabled
  {
    if tag in enabled then enabled - {tag} else enabled + {tag}
  }

  /** Two clicks on the same toggle restore the enabled set. */
  lemma ToggleTwice(enabled: set<string>, tag: string)
    ensures Toggled(Toggled(enabled, tag), tag) == enabled
  {
  }

  /** The filter state of the page: the `enabledTags` and `knownTags` sets. */
  class TagFilter {
    var enabledTags: set<string>
    var knownTags: set<string>

    /** Every enabled tag is a known one. */
    ghost predicate Valid()
      reads this
    {
      enabledTags <= knownTags
    }

    constructor ()
      ensures Valid() && enabledTags == {} && knownTags == {}
    {
      enabledTags := {};
      knownTags := {};
    }

    /** `updateTagFilters`: collects the tags in use, prunes both sets to them, then enables
        and records every tag that was not known. */
    method UpdateTagFilters(entries: seq<Entry>)
      modifies this
      ensures Valid()
      ensures TagState(enabledTags, knownTags) == UpdatedTags(TagState(old(enabledTags), old(knownTags)), entries)
    {
      var allTags: set<string> := {};
      var i := 0;
      while i < |entries|
        invariant 0 <= i <= |entries|
        invariant allTags == AllTags(entries[..i])
      {
        assert entries[..i + 1][..i] == entries[..i];
        allTags := allTags + TagsOf(entries[i].tags);
        i := i + 1;
      }
      assert entries[..i] == entries;

      // remove tags that no longer exist
      ghost var enabled0 := enabledTags;
      var pending := enabledTags;
      while pending != {}
        invariant pending <= enabled0
        invariant enabledTags == (enabled0 - pending) * allTags + pending
        invariant knownTags == old(knownTags)
        decreases pending
      {
        var t :| t in pending;
        if t !in allTags {
          enabledTags := enabledTags - {t};
        }
        pending := pending - {t};
      }
      assert enabledTags == enabled0 * allTags;

      ghost var known0 := knownTags;
      pending := knownTags;
      while pending != {}
        invariant pending <= known0
        invariant knownTags == (known0 - pending) * allTags + pending
        invariant enabledTags == enabled0 * allTags
        decreases pending
      {
        var t :| t in pending;
        if t !in allTags {
          knownTags := knownTags - {t};
        }
        pending := pending - {t};
      }

      assert knownTags == known0 * allTags;

      // enable only new tags
      pending := allTags;
      assert (allTags - pending) - known0 == {};
      while pending != {}
        invariant pending <= allTags
        invariant knownTags == known0 * allTags + (allTags - pending)
        invariant enabledTags == enabled0 * allTags + ((allTags - pending) - known0)
        decreases pending
      {
        var t :| t in pending;
        if t !in knownTags {
          enabledTags := enabledTags + {t};
          knownTags := knownTags + {t};
        }
        pending := pending - {t};
      }
      assert allTags - pending == allTags;
    }

    /** A click on the toggle of a tag in use. */
    method ToggleTag(tag: string)
      requires Valid() && tag in knownTags
      modifies this
      ensures Valid()
      ensures enabledTags == Toggled(old(enabledTags), tag)
      ensures knownTags == old(knownTags)
    {
      if tag in enabledTags {
        enabledTags := enabledTags - {tag};
      } else {
        enabledTags := enabledTags + {tag};
      }
    }
  }
}
