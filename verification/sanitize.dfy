/**
  `sanitizeFilename` (App.tsx): a script title becomes a `.ps1` file name by
  lowercasing it, deleting quote characters, turning every maximal run of
  characters outside `a-z0-9_` into one `_`, trimming `_` from both ends, and
  falling back to `script` when nothing is left.
 */
module Sanitize {
  import opened Text
  import opened Seqs

  /** Characters the second regular expression leaves in place. */
  predicate IsAllowed(c: char) { IsLowerLetter(c) || IsDigit(c) || c == '_' }

  predicate IsQuote(c: char) { c == '\'' || c == '"' }

  predicate IsAlnum(c: char) { IsLowerLetter(c) || IsDigit(c) }

  predicate NotQuote(c: char) { !IsQuote(c) }

  /** A stem the sanitiser can produce: non-empty, only `a-z0-9_`, and no `_`
      at either end. */
  predicate ValidStem(s: string)
  {
    && |s| > 0
    && (forall k :: 0 <= k < |s| ==> IsAllowed(s[k]))
    && s[0] != '_' && s[|s| - 1] != '_'
  }

  /** `.replace(/['"]/g, '')`. */
  function DropQuotes(s: string): (r: string)
    ensures forall k :: 0 <= k < |r| ==> !IsQuote(r[k])
    ensures IsSubseq(r, s)
    ensures multiset(r) == multiset(s)['\'' := 0]['"' := 0]
  {
    FilterIsSubseq(s, NotQuote);
    FilterCount(s, NotQuote);
    assert multiset(Filter(s, NotQuote)) == multiset(s)['\'' := 0]['"' := 0];
    Filter(s, NotQuote)
  }

  /** Skips the maximal run of disallowed characters at the front of `s`. */
  function SkipRun(s: string): (r: string)
    ensures |r| <= |s| && r == s[|s| - |r|..]
    ensures |r| == 0 || IsAllowed(r[0])
    ensures forall k :: 0 <= k < |s| - |r| ==> !IsAllowed(s[k])
  {
    if |s| == 0 || IsAllowed(s[0]) then s else SkipRun(s[1..])
  }

  /** `.replace(/[^a-z0-9_]+/g, '_')`: scanning left to right, an allowed
      character is copied and a disallowed one starts a run that is replaced,
      as a whole, by one `_`. */
  function CollapseRuns(s: string): (r: string)
    ensures forall k :: 0 <= k < |r| ==> IsAllowed(r[k])
    decreases |s|
  {
    if |s| == 0 then ""
    else if IsAllowed(s[0]) then [s[0]] + CollapseRuns(s[1..])
    else "_" + CollapseRuns(SkipRun(s[1..]))
  }

  /** The `^_+` half of `.replace(/^_+|_+$/g, '')`. */
  function TrimStart(s: string): (r: string)
    ensures |r| <= |s| && r == s[|s| - |r|..]
    ensures |r| == 0 || r[0] != '_'
    ensures forall k :: 0 <= k < |s| - |r| ==> s[k] == '_'
  {
    if |s| > 0 && s[0] == '_' then TrimStart(s[1..]) else s
  }

  /** The `_+$` half of `.replace(/^_+|_+$/g, '')`. */
  function TrimEnd(s: string): (r: string)
    ensures |r| <= |s| && r == s[..|r|]
    ensures |r| == 0 || r[|r| - 1] != '_'
    ensures forall k :: |r| <= k < |s| ==> s[k] == '_'
  {
    if |s| > 0 && s[|s| - 1] == '_' then TrimEnd(s[..|s| - 1]) else s
  }

  /** Trimming only removes characters, so an all-allowed string stays so. */
  lemma {:induction false} TrimKeepsAllowed(s: string)
    requires forall k :: 0 <= k < |s| ==> IsAllowed(s[k])
    ensures forall k :: 0 <= k < |TrimEnd(TrimStart(s))| ==> IsAllowed(TrimEnd(TrimStart(s))[k])
  {
    var t := TrimStart(s);
    SliceKeeps(s, |s| - |t|, |s|, IsAllowed);
    assert s[|s| - |t|..|s|] == t;
    var r := TrimEnd(t);
    SliceKeeps(t, 0, |r|, IsAllowed);
    assert t[0..|r|] == r;
  }

  /** Trimming an all-allowed string leaves nothing or a valid stem. */
  lemma {:induction false} TrimmedIsValid(s: string)
    requires forall k :: 0 <= k < |s| ==> IsAllowed(s[k])
    ensures TrimEnd(TrimStart(s)) == "" || ValidStem(TrimEnd(TrimStart(s)))
  {
    var t := TrimStart(s);
    var r := TrimEnd(t);
    TrimKeepsAllowed(s);
    if r != "" {
      assert r[0] == t[0];
    }
  }

  /** A prefix without letters or digits contributes nothing to their filter. */
  lemma {:induction false} NoAlnumPrefix(s: string, n: nat, c: char)
    requires n <= |s|
    requires forall k :: 0 <= k < n ==> s[k] == c || !IsAllowed(s[k])
    requires !IsAlnum(c)
    ensures Filter(s, IsAlnum) == Filter(s[n..], IsAlnum)
  {
    var front := s[..n];
    assert s == front + s[n..];
    forall k | 0 <= k < |front|
      ensures !IsAlnum(front[k])
    {
      assert front[k] == s[k];
    }
    FilterAppend(front, s[n..], IsAlnum);
    FilterNone(front, IsAlnum);
  }

  /** A suffix of `c` and disallowed characters contributes nothing either. */
  lemma {:induction false} NoAlnumSuffix(s: string, n: nat, c: char)
    requires n <= |s|
    requires forall k :: n <= k < |s| ==> s[k] == c || !IsAllowed(s[k])
    requires !IsAlnum(c)
    ensures Filter(s, IsAlnum) == Filter(s[..n], IsAlnum)
  {
    var back := s[n..];
    assert s == s[..n] + back;
    forall k | 0 <= k < |back|
      ensures !IsAlnum(back[k])
    {
      assert back[k] == s[n + k];
    }
    FilterAppend(s[..n], back, IsAlnum);
    FilterNone(back, IsAlnum);
  }

  /** The sanitised name before the fallback and the extension. */
  function Stem(title: string): (r: string)
    ensures r == "" || ValidStem(r)
  {
    var collapsed := CollapseRuns(DropQuotes(Lower(title)));
    TrimmedIsValid(collapsed);
    TrimEnd(TrimStart(collapsed))
  }

  /** `sanitizeFilename(title)`. */
  function SanitizeFilename(title: string): (r: string)
    ensures |r| > 4 && r[|r| - 4..] == ".ps1"
    ensures ValidStem(r[..|r| - 4])
  {
    var stem := Stem(title);
    var r := (if stem == "" then "script" else stem) + ".ps1";
    assert r[..|r| - 4] == (if stem == "" then "script" else stem);
    r
  }

  // ---------------------------------------------------------------------------
  // What each stage does
  // ---------------------------------------------------------------------------

  /** A prefix of allowed characters is copied unchanged. */
  lemma {:induction false} CollapseKeepsAllowed(x: string, y: string)
    requires forall k :: 0 <= k < |x| ==> IsAllowed(x[k])
    ensures CollapseRuns(x + y) == x + CollapseRuns(y)
    decreases |x|
  {
    if |x| > 0 {
      var x' := x[1..];
      assert (x + y)[0] == x[0] && (x + y)[1..] == x' + y;
      CopiesFirst(x + y);
      forall k | 0 <= k < |x'|
        ensures IsAllowed(x'[k])
      {
        assert x'[k] == x[k + 1];
      }
      CollapseKeepsAllowed(x', y);
      assert x == [x[0]] + x';
    } else {
      assert x + y == y;
    }
  }

  /** An allowed first character is copied to the output. */
  lemma {:induction false} CopiesFirst(s: string)
    requires |s| > 0 && IsAllowed(s[0])
    ensures CollapseRuns(s) == [s[0]] + CollapseRuns(s[1..])
  {
  }

  /** A disallowed first character starts a run that becomes one `_`. */
  lemma {:induction false} ReplacesRun(s: string)
    requires |s| > 0 && !IsAllowed(s[0])
    ensures CollapseRuns(s) == ['_'] + CollapseRuns(SkipRun(s[1..]))
  {
  }

  /** A maximal run of disallowed characters becomes exactly one `_`. */
  lemma {:induction false} CollapseRunToOne(run: string, y: string)
    requires |run| > 0 && forall k :: 0 <= k < |run| ==> !IsAllowed(run[k])
    requires |y| == 0 || IsAllowed(y[0])
    ensures CollapseRuns(run + y) == "_" + CollapseRuns(y)
  {
    var t := run + y;
    assert t[0] == run[0] && t[1..] == run[1..] + y;
    ReplacesRun(t);
    RunTail(run);
    SkipRunPast(run[1..], y);
  }

  /** The tail of a disallowed run is a disallowed run. */
  lemma {:induction false} RunTail(run: string)
    requires |run| > 0 && forall k :: 0 <= k < |run| ==> !IsAllowed(run[k])
    ensures forall k :: 0 <= k < |run[1..]| ==> !IsAllowed(run[1..][k])
  {
    forall k | 0 <= k < |run[1..]|
      ensures !IsAllowed(run[1..][k])
    {
      assert run[1..][k] == run[k + 1];
    }
  }

  /** Skipping a run of disallowed characters lands at the next allowed one. */
  lemma {:induction false} SkipRunPast(run: string, y: string)
    requires forall k :: 0 <= k < |run| ==> !IsAllowed(run[k])
    requires |y| == 0 || IsAllowed(y[0])
    ensures SkipRun(run + y) == y
    decreases |run|
  {
    if |run| > 0 {
      assert (run + y)[0] == run[0] && (run + y)[1..] == run[1..] + y;
      RunTail(run);
      SkipRunPast(run[1..], y);
    } else {
      assert run + y == y;
    }
  }

  /** A quote character anywhere in the title is deleted, not replaced. */
  lemma {:induction false} QuoteIsDeleted(x: string, q: char, y: string)
    requires IsQuote(q)
    ensures Stem(x + [q] + y) == Stem(x + y)
  {
    assert Lower(x + [q] + y) == Lower(x) + [q] + Lower(y);
    assert Lower(x + y) == Lower(x) + Lower(y);
    FilterAppend(Lower(x) + [q], Lower(y), NotQuote);
    FilterAppend(Lower(x), [q], NotQuote);
    FilterAppend(Lower(x), Lower(y), NotQuote);
    assert Filter([q], NotQuote) == [] by {
      FilterNone([q], NotQuote);
    }
  }

  // ---------------------------------------------------------------------------
  // The letters and digits survive, in order
  // ---------------------------------------------------------------------------

  /** Collapsing runs keeps the letters and digits, in order. */
  lemma {:induction false} CollapseKeepsAlnum(s: string)
    ensures Filter(CollapseRuns(s), IsAlnum) == Filter(s, IsAlnum)
    decreases |s|
  {
    if |s| > 0 {
      if IsAllowed(s[0]) {
        CollapseKeepsAlnum(s[1..]);
        CopiedStep(s);
      } else {
        CollapseKeepsAlnum(SkipRun(s[1..]));
        RunStep(s);
      }
    }
  }

  /** An allowed first character is copied, so it passes the filter on both
      sides or on neither. */
  lemma {:induction false} CopiedStep(s: string)
    requires |s| > 0 && IsAllowed(s[0])
    requires Filter(CollapseRuns(s[1..]), IsAlnum) == Filter(s[1..], IsAlnum)
    ensures Filter(CollapseRuns(s), IsAlnum) == Filter(s, IsAlnum)
  {
    CopiesFirst(s);
    FilterCons(s[0], CollapseRuns(s[1..]), IsAlnum);
    FilterCons(s[0], s[1..], IsAlnum);
    assert s == [s[0]] + s[1..];
  }

  /** A disallowed run becomes `_`, and neither holds a letter or digit. */
  lemma {:induction false} RunStep(s: string)
    requires |s| > 0 && !IsAllowed(s[0])
    requires Filter(CollapseRuns(SkipRun(s[1..])), IsAlnum) == Filter(SkipRun(s[1..]), IsAlnum)
    ensures Filter(CollapseRuns(s), IsAlnum) == Filter(s, IsAlnum)
  {
    var rest := SkipRun(s[1..]);
    ReplacesRun(s);
    SkippedRunHasNoAlnum(s);
    FilterCons('_', CollapseRuns(rest), IsAlnum);
  }

  /** A disallowed first character and the run it starts hold no letter or
      digit. */
  lemma {:induction false} SkippedRunHasNoAlnum(s: string)
    requires |s| > 0 && !IsAllowed(s[0])
    ensures Filter(s, IsAlnum) == Filter(SkipRun(s[1..]), IsAlnum)
  {
    var rest := SkipRun(s[1..]);
    var n := |s| - |rest|;
    SkipRunIsSuffix(s);
    forall k | 0 <= k < n
      ensures !IsAlnum(s[k])
    {
      assert !IsAllowed(s[k]);
    }
    FilterDropPrefix(s, n, IsAlnum);
    assert s[n..] == rest;
  }

  /** The run a disallowed first character starts is a prefix of disallowed
      characters, and the rest follows it. */
  lemma {:induction false} SkipRunIsSuffix(s: string)
    requires |s| > 0 && !IsAllowed(s[0])
    ensures var rest := SkipRun(s[1..]);
            && s[|s| - |rest|..] == rest
            && forall k :: 0 <= k < |s| - |rest| ==> !IsAllowed(s[k])
  {
    var rest := SkipRun(s[1..]);
    forall k | 1 <= k < |s| - |rest|
      ensures !IsAllowed(s[k])
    {
      assert s[k] == s[1..][k - 1];
    }
  }

  /** Trimming underscores keeps the letters and digits. */
  lemma {:induction false} TrimKeepsAlnum(s: string)
    ensures Filter(TrimEnd(TrimStart(s)), IsAlnum) == Filter(s, IsAlnum)
  {
    var t := TrimStart(s);
    NoAlnumPrefix(s, |s| - |t|, '_');
    NoAlnumSuffix(t, |TrimEnd(t)|, '_');
  }

  /** The stem holds exactly the letters and digits of the lowercased title,
      in order, with only `_` between them. */
  lemma {:induction false} StemKeepsAlnum(title: string)
    ensures Filter(Stem(title), IsAlnum) == Filter(Lower(title), IsAlnum)
  {
    var lowered := Lower(title);
    TrimKeepsAlnum(CollapseRuns(DropQuotes(lowered)));
    CollapseKeepsAlnum(DropQuotes(lowered));
    FilterWeakerFirst(lowered, NotQuote, IsAlnum);
  }

  /** The fallback name is used exactly when the title has no ASCII letter or
      digit. */
  lemma {:induction false} FallbackIff(title: string)
    ensures Stem(title) == "" <==> Filter(Lower(title), IsAlnum) == []
    ensures Filter(Lower(title), IsAlnum) == [] ==> SanitizeFilename(title) == "script.ps1"
    ensures Filter(Lower(title), IsAlnum) != [] ==> SanitizeFilename(title) == Stem(title) + ".ps1"
  {
    StemKeepsAlnum(title);
    var stem := Stem(title);
    if stem != "" {
      assert IsAlnum(stem[0]);
      assert stem[0] in Filter(stem, IsAlnum);
    }
  }

  /** Sanitising an already sanitised stem changes nothing. */
  lemma {:induction false} StemOfValidStem(s: string)
    requires ValidStem(s)
    ensures Stem(s) == s
  {
    AllowedIsLower(s);
    AllowedHasNoQuote(s);
    var collapsed := CollapseRuns(DropQuotes(Lower(s)));
    assert collapsed == s by {
      CollapseKeepsAllowed(s, "");
      assert s + "" == s;
    }
    assert TrimStart(s) == s;
    assert TrimEnd(s) == s;
    assert Stem(s) == TrimEnd(TrimStart(collapsed));
  }

  /** Lowercasing leaves `a-z0-9_` alone. */
  lemma {:induction false} AllowedIsLower(s: string)
    requires forall k :: 0 <= k < |s| ==> IsAllowed(s[k])
    ensures Lower(s) == s
  {
    forall k | 0 <= k < |s|
      ensures Lower(s)[k] == s[k]
    {
      assert IsAllowed(s[k]);
    }
  }

  /** Deleting quotes leaves `a-z0-9_` alone. */
  lemma {:induction false} AllowedHasNoQuote(s: string)
    requires forall k :: 0 <= k < |s| ==> IsAllowed(s[k])
    ensures DropQuotes(s) == s
  {
    forall k | 0 <= k < |s|
      ensures NotQuote(s[k])
    {
      assert IsAllowed(s[k]);
    }
    FilterAll(s, NotQuote);
  }

  /** Sanitising is idempotent on stems. */
  lemma {:induction false} StemIdempotent(title: string)
    ensures Stem(Stem(title)) == Stem(title)
  {
    if Stem(title) != "" {
      StemOfValidStem(Stem(title));
    }
  }
}
