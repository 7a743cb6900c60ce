/** The document outline and the hierarchy classifier
    `get_bookmark_hierarchy` of pdf_bookmark_splitter.py. */
module Outline {

  /** One outline entry as the table of contents lists it: nesting level,
      title and 1-based start page. */
  datatype Entry = Entry(level: int, title: string, page: int)

  /** The entries of `toc` whose level is `level`, in outline order. */
  function AtLevel(toc: seq<Entry>, level: int): seq<Entry> {
    if toc == [] then []
    else AtLevel(toc[..|toc| - 1], level) +
         (if toc[|toc| - 1].level == level then [toc[|toc| - 1]] else [])
  }

  /** `get_bookmark_hierarchy`: one pass over the outline appending each
      level-1 entry to the top-level list and each level-2 entry to the
      sub-level list; entries at any other level go to neither. */
  method GetBookmarkHierarchy(toc: seq<Entry>) returns (top: seq<Entry>, sub: seq<Entry>)
    ensures top == AtLevel(toc, 1)
    ensures sub == AtLevel(toc, 2)
  {
    top, sub := [], [];
    for i := 0 to |toc|
      invariant top == AtLevel(toc[..i], 1)
      invariant sub == AtLevel(toc[..i], 2)
    {
      assert toc[..i + 1][..i] == toc[..i];
      var entry := toc[i];
      if entry.level == 1 {
        top := top + [entry];
      } else if entry.level == 2 {
        sub := sub + [entry];
      }
    }
    assert toc[..|toc|] == toc;
  }

  /** Filtering distributes over concatenation: the entries of a level keep
      the relative order they have in the outline. */
  lemma {:induction false} AtLevelAppend(a: seq<Entry>, b: seq<Entry>, level: int)
    ensures AtLevel(a + b, level) == AtLevel(a, level) + AtLevel(b, level)
    decreases |b|
  {
    if b == [] {
      assert a + b == a;
    } else {
      var b' := b[..|b| - 1];
      assert (a + b)[..|a + b| - 1] == a + b';
      AtLevelAppend(a, b', level);
    }
  }

  /** Filtering keeps every entry of the level as often as it occurs in the
      outline, and no entry of another level. */
  lemma {:induction false} AtLevelCounts(toc: seq<Entry>, level: int, e: Entry)
    ensures multiset(AtLevel(toc, level))[e] == if e.level == level then multiset(toc)[e] else 0
  {
    if toc != [] {
      var init := toc[..|toc| - 1];
      AtLevelCounts(init, level, e);
      assert toc == init + [toc[|toc| - 1]];
    }
  }

  /** An entry is in a level's list exactly when it is in the outline at
      that level. */
  lemma AtLevelMembers(toc: seq<Entry>, level: int, e: Entry)
    ensures e in AtLevel(toc, level) <==> e in toc && e.level == level
  {
    AtLevelCounts(toc, level, e);
  }

  /** The two lists together are as long as the outline exactly when every
      entry is at level 1 or 2; otherwise entries were dropped. */
  lemma {:induction false} HierarchyDropsOnlyDeeperLevels(toc: seq<Entry>)
    ensures |AtLevel(toc, 1)| + |AtLevel(toc, 2)| <= |toc|
    ensures |AtLevel(toc, 1)| + |AtLevel(toc, 2)| == |toc| <==>
            forall i :: 0 <= i < |toc| ==> toc[i].level == 1 || toc[i].level == 2
  {
    if toc != [] {
      var init := toc[..|toc| - 1];
      HierarchyDropsOnlyDeeperLevels(init);
      assert forall i :: 0 <= i < |init| ==> init[i] == toc[i];
    }
  }
}
