/**
  The saved-scripts sidebar (SavedScriptsList.tsx): the case-insensitive
  search over titles and tags, the set of scripts ticked for download with
  its toggle, the download button, and the first three tags shown per entry.
 */
module ScriptList {
  import opened Types
  import opened Seqs
  import opened Text

  /** Some tag of `s`, lowercased, includes `lowerTerm`. */
  predicate TagMatches(s: Script, lowerTerm: string)
  {
    exists k :: 0 <= k < |s.tags| && Includes(Lower(s.tags[k]), lowerTerm)
  }

  /** The search callback: the lowercased title or some lowercased tag
      includes the lowercased term. */
  predicate Matches(s: Script, lowerTerm: string)
    ensures lowerTerm == "" ==> Matches(s, lowerTerm)
  {
    Includes(Lower(s.title), lowerTerm) || TagMatches(s, lowerTerm)
  }

  function Matcher(lowerTerm: string): Script -> bool
  {
    (s: Script) => Matches(s, lowerTerm)
  }

  /** `filteredScripts`: an empty term shows every script; otherwise the
      matching scripts, in list order. */
  function FilterScripts(scripts: seq<Script>, term: string): (r: seq<Script>)
    ensures term == "" ==> r == scripts
    ensures IsSubseq(r, scripts)
    ensures forall k :: 0 <= k < |r| ==> Matches(r[k], Lower(term))
    ensures forall k :: 0 <= k < |scripts| && Matches(scripts[k], Lower(term)) ==> scripts[k] in r
    ensures forall x :: multiset(r)[x] == if Matches(x, Lower(term)) then multiset(scripts)[x] else 0
  {
    if term == "" then
      SubseqRefl(scripts);
      forall k | 0 <= k < |scripts| ensures Matches(scripts[k], Lower(term)) {
        IncludesEmpty(Lower(scripts[k].title));
      }
      scripts
    else
      FilterIsSubseq(scripts, Matcher(Lower(term)));
      FilterCount(scripts, Matcher(Lower(term)));
      Filter(scripts, Matcher(Lower(term)))
  }

  /** The shortcut for an empty term agrees with filtering by it: every
      string includes the empty string. */
  lemma {:induction false} EmptyTermShortcutAgrees(scripts: seq<Script>)
    ensures Filter(scripts, Matcher("")) == FilterScripts(scripts, "")
  {
    forall k | 0 <= k < |scripts| ensures Matcher("")(scripts[k]) {
      IncludesEmpty(Lower(scripts[k].title));
    }
    FilterAll(scripts, Matcher(""));
  }

  /** Searching the search result again with the same term changes nothing. */
  lemma {:induction false} FilterScriptsIdempotent(scripts: seq<Script>, term: string)
    ensures FilterScripts(FilterScripts(scripts, term), term) == FilterScripts(scripts, term)
  {
    if term != "" {
      FilterIdempotent(scripts, Matcher(Lower(term)));
    }
  }

  /** The search ignores the case of ASCII letters in the term. */
  lemma {:induction false} FilterScriptsIgnoresCase(scripts: seq<Script>, term: string)
    ensures FilterScripts(scripts, Lower(term)) == FilterScripts(scripts, term)
  {
    LowerIdempotent(term);
  }

  /** Narrowing the term narrows the result: a term that includes another
      keeps only scripts the shorter one keeps. */
  lemma {:induction false} LongerTermNarrows(scripts: seq<Script>, term: string, longer: string)
    requires term != "" && Includes(Lower(longer), Lower(term))
    ensures FilterScripts(FilterScripts(scripts, term), longer) == FilterScripts(scripts, longer)
  {
    forall x: Script | Matcher(Lower(longer))(x) ensures Matcher(Lower(term))(x) {
      IncludesTransitive(Lower(x.title), Lower(longer), Lower(term));
      if !Includes(Lower(x.title), Lower(longer)) {
        var k :| 0 <= k < |x.tags| && Includes(Lower(x.tags[k]), Lower(longer));
        IncludesTransitive(Lower(x.tags[k]), Lower(longer), Lower(term));
      }
    }
    FilterWeakerFirst(scripts, Matcher(Lower(term)), Matcher(Lower(longer)));
  }

  // ---------------------------------------------------------------------------
  // Selection for download
  // ---------------------------------------------------------------------------

  /** No id occurs twice: a JavaScript `Set` kept in insertion order. */
  predicate NoDuplicates(ids: seq<string>)
  {
    forall i, j :: 0 <= i < j < |ids| ==> ids[i] != ids[j]
  }

  /** Removes `id` from a duplicate-free sequence. */
  function Remove(ids: seq<string>, id: string): (r: seq<string>)
    ensures forall x :: x in r <==> x in ids && x != id
    ensures NoDuplicates(ids) ==> NoDuplicates(r)
    ensures id !in ids ==> r == ids
  {
    if |ids| == 0 then []
    else
      var rest := Remove(ids[1..], id);
      if ids[0] == id then rest
      else
        assert NoDuplicates(ids) ==> NoDuplicates(ids[1..]) && ids[0] !in ids[1..] by {
          if NoDuplicates(ids) {
            forall i | 0 <= i < |ids[1..]| ensures ids[1..][i] != ids[0] {
              assert ids[1..][i] == ids[i + 1];
            }
          }
        }
        [ids[0]] + rest
  }

  /** `handleToggleSelection`: removes the id if it is there, otherwise adds
      it at the end. */
  function Toggle(ids: seq<string>, id: string): (r: seq<string>)
    requires NoDuplicates(ids)
    ensures NoDuplicates(r)
    ensures id in r <==> id !in ids
    ensures forall x :: x != id ==> (x in r <==> x in ids)
  {
    if id in ids then Remove(ids, id) else ids + [id]
  }

  /** Ticking an unticked script and unticking it again restores the
      selection exactly, order included. */
  lemma {:induction false} ToggleTwiceAbsent(ids: seq<string>, id: string)
    requires NoDuplicates(ids) && id !in ids
    ensures Toggle(Toggle(ids, id), id) == ids
  {
    RemoveLast(ids, id);
  }

  /** Toggling twice restores the set of ticked ids. */
  lemma {:induction false} ToggleTwice(ids: seq<string>, id: string)
    requires NoDuplicates(ids)
    ensures forall x :: x in Toggle(Toggle(ids, id), id) <==> x in ids
  {
  }

  /** Removing an absent id appended at the end gives back the sequence. */
  lemma {:induction false} RemoveLast(ids: seq<string>, id: string)
    requires id !in ids
    ensures Remove(ids + [id], id) == ids
    decreases |ids|
  {
    if |ids| == 0 {
      assert ids + [id] == [id];
    } else {
      assert (ids + [id])[1..] == ids[1..] + [id];
      RemoveLast(ids[1..], id);
    }
  }

  /** What pressing the download button does. */
  datatype Click = Click(request: Option<seq<string>>, selection: seq<string>)

  /** `handleDownloadClick` behind the button's `disabled` guard: with nothing
      ticked nothing happens; otherwise the ticked ids are requested, in the
      order they were ticked, and the selection is emptied. */
  function DownloadClick(ids: seq<string>): (r: Click)
    ensures |ids| == 0 <==> r.request == None
    ensures r.request.Some? ==> r.request.value == ids && r.selection == []
    ensures r.request == None ==> r.selection == ids
  {
    if |ids| == 0 then Click(None, ids) else Click(Some(ids), [])
  }

  /** The tags shown for a script: the first three, or all when fewer. */
  function ShownTags(tags: seq<string>): (r: seq<string>)
    ensures |r| == if |tags| < 3 then |tags| else 3
    ensures r <= tags
  {
    if |tags| < 3 then tags else tags[..3]
  }
}
