/** The filename sanitiser `clean_filename` of pdf_bookmark_splitter.py:
    a regular-expression substitution that turns every character a file
    system refuses into an underscore, followed by `str.strip('. ')`. */
module Sanitize {

  /** The characters of the class `[<>:"/\\|?*]` that the substitution replaces. */
  predicate IsInvalid(c: char) {
    c == '<' || c == '>' || c == ':' || c == '"' || c == '/' ||
    c == '\\' || c == '|' || c == '?' || c == '*'
  }

  /** The characters `strip('. ')` removes from both ends. */
  predicate IsTrim(c: char) {
    c == '.' || c == ' '
  }

  predicate NoInvalid(s: string) {
    forall i :: 0 <= i < |s| ==> !IsInvalid(s[i])
  }

  predicate AllTrim(s: string) {
    forall i :: 0 <= i < |s| ==> IsTrim(s[i])
  }

  /** Neither the first nor the last character is a dot or a space. */
  predicate Trimmed(s: string) {
    s == [] || (!IsTrim(s[0]) && !IsTrim(s[|s| - 1]))
  }

  /** `re.sub(r'[<>:"/\\|?*]', '_', s)`: position by position, an invalid
      character becomes '_' and every other character is kept. */
  function ReplaceInvalid(s: string): (r: string)
    ensures |r| == |s|
    ensures forall i :: 0 <= i < |s| ==> r[i] == (if IsInvalid(s[i]) then '_' else s[i])
  {
    if s == [] then [] else [if IsInvalid(s[0]) then '_' else s[0]] + ReplaceInvalid(s[1..])
  }

  /** The number of dots and spaces at the front of `s`: the index of its
      first other character, or |s| when there is none. */
  function LeadingTrim(s: string): (k: nat)
    ensures k <= |s|
  {
    if s == [] || !IsTrim(s[0]) then 0 else 1 + LeadingTrim(s[1..])
  }

  /** Everything before `LeadingTrim(s)` is a dot or a space and the
      character at it, if any, is neither. */
  lemma {:induction false} LeadingTrimSpec(s: string)
    ensures AllTrim(s[..LeadingTrim(s)])
    ensures LeadingTrim(s) < |s| ==> !IsTrim(s[LeadingTrim(s)])
  {
    if s != [] && IsTrim(s[0]) {
      LeadingTrimSpec(s[1..]);
      assert s[..LeadingTrim(s)] == [s[0]] + s[1..][..LeadingTrim(s[1..])];
    }
  }

  /** The length of `s` once dots and spaces are cut off its end: one past
      its last other character, or 0 when there is none. */
  function TrailingKeep(s: string): (k: nat)
    ensures k <= |s|
  {
    if s == [] || !IsTrim(s[|s| - 1]) then |s| else TrailingKeep(s[..|s| - 1])
  }

  /** Everything from `TrailingKeep(s)` on is a dot or a space and the
      character before it, if any, is neither. */
  lemma {:induction false} TrailingKeepSpec(s: string)
    ensures AllTrim(s[TrailingKeep(s)..])
    ensures 0 < TrailingKeep(s) ==> !IsTrim(s[TrailingKeep(s) - 1])
  {
    if s != [] && IsTrim(s[|s| - 1]) {
      var init := s[..|s| - 1];
      TrailingKeepSpec(init);
      assert s[TrailingKeep(s)..] == init[TrailingKeep(init)..] + [s[|s| - 1]];
    }
  }

  /** `s.strip('. ')`. */
  function Strip(s: string): string {
    var t := s[LeadingTrim(s)..];
    t[..TrailingKeep(t)]
  }

  /** `clean_filename(title)`. */
  function CleanFilename(title: string): string {
    Strip(ReplaceInvalid(title))
  }

  /** Stripping only cuts dots and spaces off the two ends: the result is
      the slice of `s` that starts at `LeadingTrim(s)`, everything before
      and after that slice is a dot or a space, and the result itself has
      no dot or space at either end. */
  lemma StripDecomposes(s: string)
    ensures Trimmed(Strip(s))
    ensures LeadingTrim(s) + |Strip(s)| <= |s|
    ensures Strip(s) == s[LeadingTrim(s)..LeadingTrim(s) + |Strip(s)|]
    ensures AllTrim(s[..LeadingTrim(s)])
    ensures AllTrim(s[LeadingTrim(s) + |Strip(s)|..])
  {
    var lo := LeadingTrim(s);
    var t := s[lo..];
    var hi := TrailingKeep(t);
    LeadingTrimSpec(s);
    TrailingKeepSpec(t);
    assert t[hi..] == s[lo + hi..];
    assert t[..hi] == s[lo..lo + hi];
  }

  /** The converse of `LeadingTrimSpec`: an index with only dots and spaces
      before it and something else at it is `LeadingTrim(s)`. */
  lemma LeadingTrimIs(s: string, n: nat)
    requires n <= |s|
    requires AllTrim(s[..n])
    requires n < |s| ==> !IsTrim(s[n])
    ensures LeadingTrim(s) == n
  {
    LeadingTrimSpec(s);
  }

  /** The converse of `TrailingKeepSpec`. */
  lemma TrailingKeepIs(s: string, n: nat)
    requires n <= |s|
    requires AllTrim(s[n..])
    requires 0 < n ==> !IsTrim(s[n - 1])
    ensures TrailingKeep(s) == n
  {
    TrailingKeepSpec(s);
  }

  /** Stripping is determined by that description: whatever way `s` is cut
      into an all-trim prefix, a middle without a dot or space at either
      end and an all-trim suffix, the middle is `Strip(s)`. */
  lemma StripUnique(s: string, p: string, m: string, q: string)
    requires s == p + m + q
    requires AllTrim(p) && AllTrim(q) && Trimmed(m)
    ensures Strip(s) == m
  {
    if m == [] {
      assert s[..|s|] == p + q;
      LeadingTrimIs(s, |s|);
      assert s[|s|..] == [];
    } else {
      assert s[..|p|] == p;
      assert s[|p|] == m[0];
      LeadingTrimIs(s, |p|);
      var t := s[|p|..];
      assert t == m + q;
      assert t[|m|..] == q;
      assert t[|m| - 1] == m[|m| - 1];
      TrailingKeepIs(t, |m|);
    }
  }

  /** What `clean_filename` promises of its result: no character a file
      system refuses, no dot or space at either end, and never longer than
      the title it was given. */
  lemma CleanFilenameValid(title: string)
    ensures NoInvalid(CleanFilename(title))
    ensures Trimmed(CleanFilename(title))
    ensures |CleanFilename(title)| <= |title|
  {
    var m := ReplaceInvalid(title);
    StripDecomposes(m);
    var lo, r := LeadingTrim(m), Strip(m);
    forall i | 0 <= i < |r| ensures !IsInvalid(r[i]) {
      assert r[i] == m[lo + i];
    }
  }

  /** A title that is already a clean file name comes back unchanged. */
  lemma CleanFilenameFixesClean(title: string)
    requires NoInvalid(title) && Trimmed(title)
    ensures CleanFilename(title) == title
  {
    assert ReplaceInvalid(title) == title;
    StripUnique(title, [], title, []);
  }

  /** Sanitising twice is sanitising once. */
  lemma CleanFilenameIdempotent(title: string)
    ensures CleanFilename(CleanFilename(title)) == CleanFilename(title)
  {
    CleanFilenameValid(title);
    CleanFilenameFixesClean(CleanFilename(title));
  }
}
