/** Worked examples of the whole splitting and organising algorithm on
    small outlines. */
module Scenarios {
  import opened Wrappers
  import opened Sanitize
  import opened Outline
  import opened Ranges
  import opened Organizer

  /** A title that needs no cleaning is its own clean file name. */
  lemma PlainTitle(t: string)
    requires forall i :: 0 <= i < |t| ==> ('A' <= t[i] <= 'Z') || ('a' <= t[i] <= 'z')
    ensures CleanFilename(t) == t
  {
    CleanFilenameFixesClean(t);
  }

  /** The outline `[(1,"Intro",1), (1,"Body",5), (2,"A",1), (2,"B",6)]`. */
  function TwoSections(): seq<Entry> {
    [Entry(1, "Intro", 1), Entry(1, "Body", 5), Entry(2, "A", 1), Entry(2, "B", 6)]
  }

  /** Its top-level list is Intro, Body and its sub-level list A, B. */
  lemma TwoSectionsClassified()
    ensures AtLevel(TwoSections(), 1) == [Entry(1, "Intro", 1), Entry(1, "Body", 5)]
    ensures AtLevel(TwoSections(), 2) == [Entry(2, "A", 1), Entry(2, "B", 6)]
  {
    var top := [Entry(1, "Intro", 1), Entry(1, "Body", 5)];
    var subs := [Entry(2, "A", 1), Entry(2, "B", 6)];
    assert TwoSections() == top + subs;
    AtLevelAppend(top, subs, 1);
    AtLevelAppend(top, subs, 2);
    assert [Entry(1, "Intro", 1)] == top[..1];
    assert [Entry(2, "A", 1)] == subs[..1];
  }

  /** On a 10-page document both top-level bookmarks produce a file. */
  lemma TwoSectionsTopKept()
    ensures Kept([Entry(1, "Intro", 1), Entry(1, "Body", 5)], 10) == [0, 1]
  {
    var top := [Entry(1, "Intro", 1), Entry(1, "Body", 5)];
    assert !Skipped(top, 0, 10) && !Skipped(top, 1, 10);
    KeptAll(top, 2, 10);
  }

  /** The first of those files is `_Intro.pdf`. */
  lemma TwoSectionsIntroName()
    ensures TopRecord(Entry(1, "Intro", 1)) == TopFile("_Intro.pdf", "Intro")
  {
    PlainTitle("Intro");
    assert TopFileName("Intro") == "_Intro.pdf";
  }

  /** The second is `_Body.pdf`. */
  lemma TwoSectionsBodyName()
    ensures TopRecord(Entry(1, "Body", 5)) == TopFile("_Body.pdf", "Body")
  {
    PlainTitle("Body");
    assert TopFileName("Body") == "_Body.pdf";
  }

  /** `_Intro.pdf` gets pages 1-4 and `_Body.pdf` pages 5-10. */
  lemma TwoSectionsTopPages()
    ensures var top := [Entry(1, "Intro", 1), Entry(1, "Body", 5)];
            && Requested(top, 0, 10) == Interval(1, 4)
            && Requested(top, 1, 10) == Interval(5, 10)
  {
  }

  /** `_1_A.pdf` gets pages 1-5 and `_6_B.pdf` pages 6-10: a sub-level
      range ends just before the next sub-level bookmark, not at the end of
      the top-level section. */
  lemma TwoSectionsSubPages()
    ensures var sub := [Entry(2, "A", 1), Entry(2, "B", 6)];
            && Kept(sub, 10) == [0, 1]
            && Requested(sub, 0, 10) == Interval(1, 5)
            && Requested(sub, 1, 10) == Interval(6, 10)
  {
    var sub := [Entry(2, "A", 1), Entry(2, "B", 6)];
    assert !Skipped(sub, 0, 10) && !Skipped(sub, 1, 10);
    KeptAll(sub, 2, 10);
  }

  /** The sub-level files are named `_1_A.pdf` and `_6_B.pdf`. */
  lemma TwoSectionsSubNames()
    ensures SubRecord(Entry(2, "A", 1)) == SubFile("_1_A.pdf", "A", 1)
    ensures SubRecord(Entry(2, "B", 6)) == SubFile("_6_B.pdf", "B", 6)
  {
    PlainTitle("A");
    PlainTitle("B");
  }

  /** `_1_A.pdf` belongs in `_Intro`. */
  lemma TwoSectionsIntroPlacement()
    ensures TargetDir(RangeTable([Entry(1, "Intro", 1), Entry(1, "Body", 5)]), 1) == Some("_Intro")
  {
    var top := [Entry(1, "Intro", 1), Entry(1, "Body", 5)];
    PlainTitle("Intro");
    assert StrictlyIncreasing(top);
    SortedPlacement(top, 1, 0);
    assert DirName("Intro") == "_Intro";
  }

  /** `_6_B.pdf` belongs in `_Body`. */
  lemma TwoSectionsBodyPlacement()
    ensures TargetDir(RangeTable([Entry(1, "Intro", 1), Entry(1, "Body", 5)]), 6) == Some("_Body")
  {
    var top := [Entry(1, "Intro", 1), Entry(1, "Body", 5)];
    PlainTitle("Body");
    assert StrictlyIncreasing(top);
    SortedPlacement(top, 6, 1);
    assert DirName("Body") == "_Body";
  }

  /** Outline `[(1,"X",3), (1,"Y",2)]` of a 5-page document: X's raw range
      3..1 is invalid and X is skipped; Y gets pages 2-5. */
  lemma ScenarioDecreasingPages()
    ensures var top := [Entry(1, "X", 3), Entry(1, "Y", 2)];
            && Skipped(top, 0, 5) && !Skipped(top, 1, 5)
            && Kept(top, 5) == [1]
            && Requested(top, 1, 5) == Interval(2, 5)
  {
  }
}
