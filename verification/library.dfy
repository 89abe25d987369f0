/**
  The script library kept by `App` (App.tsx): the list updates performed by
  the save, delete, update and folder-upload handlers, the choice between a
  single file and an archive when downloading, and the theme toggle. Each
  handler is a function from the state before to the state after.
 */
module Library {
  import opened Types
  import opened Seqs
  import Text
  import Sanitize

  datatype Theme = Light | Dark

  /** The parts of `App`'s state the modelled handlers touch. */
  datatype AppState = AppState(
    scripts: seq<Script>,
    selected: Option<Script>,
    editing: Option<Script>,
    theme: Theme,
    uploadError: Option<string>,
    apiKeyModalOpen: bool)

  /** `handleThemeToggle`. */
  function ToggleTheme(t: Theme): (r: Theme)
    ensures r != t
  {
    if t == Light then Dark else Light
  }

  /** Toggling the theme twice restores it. */
  lemma {:induction false} ToggleThemeTwice(t: Theme)
    ensures ToggleTheme(ToggleTheme(t)) == t
  {
  }

  // ---------------------------------------------------------------------------
  // Save, delete, update
  // ---------------------------------------------------------------------------

  /** `handleSaveScript`: the new script, with the supplied id and timestamp,
      goes in front of the list and becomes the selected one. */
  function SaveScript(st: AppState, data: ScriptData, id: string, createdAt: string): (r: AppState)
    ensures |r.scripts| == |st.scripts| + 1 && r.scripts[1..] == st.scripts
    ensures r.scripts[0] == Script(id, data.title, data.code, data.tags, createdAt)
    ensures r.selected == Some(r.scripts[0]) && r.editing == None
    ensures r.theme == st.theme && r.uploadError == st.uploadError && r.apiKeyModalOpen == st.apiKeyModalOpen
  {
    var newScript := Script(id, data.title, data.code, data.tags, createdAt);
    st.(scripts := [newScript] + st.scripts, selected := Some(newScript), editing := None)
  }

  /** The filter callback of `handleDeleteScript`. */
  function OtherThan(id: string): Script -> bool
  {
    (s: Script) => s.id != id
  }

  /** `handleDeleteScript`: every script with that id goes; the others stay in
      order; the selected and edited scripts are cleared if they had that id. */
  function DeleteScript(st: AppState, id: string): (r: AppState)
    ensures IsSubseq(r.scripts, st.scripts)
    ensures forall k :: 0 <= k < |r.scripts| ==> r.scripts[k].id != id
    ensures forall k :: 0 <= k < |st.scripts| && st.scripts[k].id != id ==> st.scripts[k] in r.scripts
    ensures forall x :: multiset(r.scripts)[x] == if x.id != id then multiset(st.scripts)[x] else 0
    ensures r.selected.Some? <==> st.selected.Some? && st.selected.value.id != id
    ensures r.selected.Some? ==> r.selected == st.selected
    ensures r.editing.Some? <==> st.editing.Some? && st.editing.value.id != id
    ensures r.editing.Some? ==> r.editing == st.editing
    ensures r.theme == st.theme && r.uploadError == st.uploadError && r.apiKeyModalOpen == st.apiKeyModalOpen
  {
    var kept := Filter(st.scripts, OtherThan(id));
    KeepsOthers(st.scripts, id);
    AppState(
      kept,
      if st.selected.Some? && st.selected.value.id == id then None else st.selected,
      if st.editing.Some? && st.editing.value.id == id then None else st.editing,
      st.theme, st.uploadError, st.apiKeyModalOpen)
  }

  /** What the delete filter keeps: an order-preserving selection holding
      no script with the id and every copy of each script with another id. */
  lemma {:induction false} KeepsOthers(scripts: seq<Script>, id: string)
    ensures var kept := Filter(scripts, OtherThan(id));
            && IsSubseq(kept, scripts)
            && (forall k :: 0 <= k < |kept| ==> kept[k].id != id)
            && (forall k :: 0 <= k < |scripts| && scripts[k].id != id ==> scripts[k] in kept)
            && forall x :: multiset(kept)[x] == if x.id != id then multiset(scripts)[x] else 0
  {
    FilterIsSubseq(scripts, OtherThan(id));
    FilterCount(scripts, OtherThan(id));
  }

  /** Deleting by an id nobody has leaves the list as it is. */
  lemma {:induction false} DeleteAbsentId(st: AppState, id: string)
    requires forall k :: 0 <= k < |st.scripts| ==> st.scripts[k].id != id
    ensures DeleteScript(st, id).scripts == st.scripts
  {
    FilterAll(st.scripts, OtherThan(id));
  }

  /** Deleting the same id twice is the same as deleting it once. */
  lemma {:induction false} DeleteIdempotent(st: AppState, id: string)
    ensures DeleteScript(DeleteScript(st, id), id) == DeleteScript(st, id)
  {
    FilterIdempotent(st.scripts, OtherThan(id));
  }

  /** Saving a script with a fresh id and then deleting that id gives back the
      list as it was, with nothing selected. */
  lemma {:induction false} DeleteUndoesSave(st: AppState, data: ScriptData, id: string, createdAt: string)
    requires forall k :: 0 <= k < |st.scripts| ==> st.scripts[k].id != id
    ensures DeleteScript(SaveScript(st, data, id, createdAt), id).scripts == st.scripts
    ensures DeleteScript(SaveScript(st, data, id, createdAt), id).selected == None
  {
    var saved := SaveScript(st, data, id, createdAt);
    assert saved.scripts == [saved.scripts[0]] + st.scripts;
    FilterAppend([saved.scripts[0]], st.scripts, OtherThan(id));
    FilterNone([saved.scripts[0]], OtherThan(id));
    FilterAll(st.scripts, OtherThan(id));
  }

  /** `handleUpdateScript`: the scripts with that id get the new code and
      nothing else about any script changes. The selected script, whatever
      its id, also takes the new code; editing ends. */
  function UpdateScript(st: AppState, id: string, newCode: string): (r: AppState)
    ensures |r.scripts| == |st.scripts|
    ensures forall k :: 0 <= k < |st.scripts| ==>
              && r.scripts[k].(code := st.scripts[k].code) == st.scripts[k]
              && r.scripts[k].code == (if st.scripts[k].id == id then newCode else st.scripts[k].code)
    ensures r.selected.Some? <==> st.selected.Some?
    ensures r.selected.Some? ==> r.selected.value == st.selected.value.(code := newCode)
    ensures r.editing == None
    ensures r.theme == st.theme && r.uploadError == st.uploadError && r.apiKeyModalOpen == st.apiKeyModalOpen
  {
    var updated := seq(|st.scripts|, k requires 0 <= k < |st.scripts| =>
      if st.scripts[k].id == id then st.scripts[k].(code := newCode) else st.scripts[k]);
    st.(scripts := updated,
        selected := if st.selected.Some? then Some(st.selected.value.(code := newCode)) else None,
        editing := None)
  }

  /** A second update of the same id overrides the first. */
  lemma {:induction false} UpdateTwice(st: AppState, id: string, c1: string, c2: string)
    ensures UpdateScript(UpdateScript(st, id, c1), id, c2).scripts == UpdateScript(st, id, c2).scripts
  {
  }

  /** Updating a script and then deleting it is the same as deleting it. */
  lemma {:induction false} DeleteAfterUpdate(scripts: seq<Script>, id: string, newCode: string)
    ensures var st := AppState(scripts, None, None, Light, None, false);
            DeleteScript(UpdateScript(st, id, newCode), id).scripts == DeleteScript(st, id).scripts
  {
    var st := AppState(scripts, None, None, Light, None, false);
    SameOthersSameDelete(UpdateScript(st, id, newCode).scripts, scripts, id);
  }

  /** Two lists that have the same ids, and agree wherever the id is not
      `id`, lose the same scripts to a delete of `id`. */
  lemma {:induction false} SameOthersSameDelete(xs: seq<Script>, ys: seq<Script>, id: string)
    requires |xs| == |ys|
    requires forall k :: 0 <= k < |xs| ==> xs[k].id == ys[k].id && (xs[k].id != id ==> xs[k] == ys[k])
    ensures Filter(xs, OtherThan(id)) == Filter(ys, OtherThan(id))
    decreases |xs|
  {
    if |xs| > 0 {
      var n := |xs| - 1;
      var xs', ys' := xs[..n], ys[..n];
      forall k | 0 <= k < n
        ensures xs'[k].id == ys'[k].id && (xs'[k].id != id ==> xs'[k] == ys'[k])
      {
        assert xs'[k] == xs[k] && ys'[k] == ys[k];
      }
      SameOthersSameDelete(xs', ys', id);
      assert OtherThan(id)(xs[n]) == OtherThan(id)(ys[n]);
      assert OtherThan(id)(xs[n]) ==> xs[n] == ys[n];
    }
  }

  // ---------------------------------------------------------------------------
  // Folder upload
  // ---------------------------------------------------------------------------

  /** What reading and analysing one `.ps1` file gave: a script or an error. */
  datatype FileResult = Loaded(script: Script) | Failed(error: string)

  /** One file of the picked folder: its base name, and what reading it and
      asking the model for its title and tags gives. Files in different
      sub-folders may share a base name and still give different outcomes. */
  datatype PickedFile = PickedFile(name: string, outcome: FileResult)

  const ApiKeyMissingMessage := "Please set your Gemini API key before uploading scripts."
  const NoPs1Message := "No PowerShell (.ps1) files found in the selected folder."

  predicate IsLoaded(x: FileResult) { x.Loaded? }

  predicate IsFailed(x: FileResult) { x.Failed? }

  /** Each script as a loaded result. */
  function AsLoaded(scripts: seq<Script>): seq<FileResult>
  {
    seq(|scripts|, k requires 0 <= k < |scripts| => Loaded(scripts[k]))
  }

  /** Each message as a failed result. */
  function AsFailed(errors: seq<string>): seq<FileResult>
  {
    seq(|errors|, k requires 0 <= k < |errors| => Failed(errors[k]))
  }

  /** `results[k]` is the first failure: every result before it loaded. */
  predicate FirstFailure(results: seq<FileResult>, k: int)
  {
    0 <= k < |results| && results[k].Failed? && forall j :: 0 <= j < k ==> results[j].Loaded?
  }

  /** `results.map(r => r.script).filter(s => s !== null)`: the scripts among
      the results, one per loaded result and in result order. */
  function Successes(results: seq<FileResult>): (r: seq<Script>)
    ensures |r| <= |results|
    ensures AsLoaded(r) == Filter(results, IsLoaded)
    decreases |results|
  {
    if |results| == 0 then []
    else
      var init, last := Successes(results[..|results| - 1]), results[|results| - 1];
      var tail := if last.Loaded? then [last.script] else [];
      assert AsLoaded(init + tail) == AsLoaded(init) + AsLoaded(tail);
      init + tail
  }

  /** `results.map(r => r.error).filter(e => e !== null)`: the messages
      among the results, in result order. The first one belongs to the first
      failure. */
  function Errors(results: seq<FileResult>): (r: seq<string>)
    ensures |r| <= |results|
    ensures |r| == 0 <==> forall k :: 0 <= k < |results| ==> results[k].Loaded?
    ensures AsFailed(r) == Filter(results, IsFailed)
    ensures |r| > 0 ==> exists k :: FirstFailure(results, k) && results[k].error == r[0]
    decreases |results|
  {
    if |results| == 0 then []
    else
      var init, last := Errors(results[..|results| - 1]), results[|results| - 1];
      var tail := if last.Failed? then [last.error] else [];
      ErrorsGrow(results, init, tail);
      NoErrorsIff(results, init + tail);
      FirstErrorGrows(results, init, tail);
      init + tail
  }

  /** The step of `Errors`'s filter clause. */
  lemma {:induction false} ErrorsGrow(results: seq<FileResult>, init: seq<string>, tail: seq<string>)
    requires |results| > 0
    requires var last := results[|results| - 1]; tail == if last.Failed? then [last.error] else []
    requires AsFailed(init) == Filter(results[..|results| - 1], IsFailed)
    ensures AsFailed(init + tail) == Filter(results, IsFailed)
  {
    var last := results[|results| - 1];
    FilterSnoc(results, IsFailed);
    AsFailedAppend(init, tail);
    assert AsFailed(tail) == (if IsFailed(last) then [last] else []);
  }

  lemma {:induction false} AsFailedAppend(x: seq<string>, y: seq<string>)
    ensures AsFailed(x + y) == AsFailed(x) + AsFailed(y)
  {
  }

  /** Messages lined up with the failures are none exactly when every
      result loaded. */
  lemma {:induction false} NoErrorsIff(results: seq<FileResult>, errors: seq<string>)
    requires AsFailed(errors) == Filter(results, IsFailed)
    ensures |errors| == 0 <==> forall k :: 0 <= k < |results| ==> results[k].Loaded?
  {
    FilterEmpty(results, IsFailed);
    assert |errors| == 0 <==> Filter(results, IsFailed) == [];
  }

  /** The step of `Errors`'s first-failure clause: the first failure of the
      shorter list stays first; without one, a failing last result is first. */
  lemma {:induction false} FirstErrorGrows(results: seq<FileResult>, init: seq<string>, tail: seq<string>)
    requires |results| > 0
    requires var last := results[|results| - 1]; tail == if last.Failed? then [last.error] else []
    requires var prefix := results[..|results| - 1];
             && (|init| == 0 ==> forall k :: 0 <= k < |prefix| ==> prefix[k].Loaded?)
             && (|init| > 0 ==> exists k :: FirstFailure(prefix, k) && prefix[k].error == init[0])
    ensures |init + tail| > 0 ==> exists k :: FirstFailure(results, k) && results[k].error == (init + tail)[0]
  {
    var prefix := results[..|results| - 1];
    if |init| > 0 {
      var k :| FirstFailure(prefix, k) && prefix[k].error == init[0];
      assert forall j :: 0 <= j <= k ==> prefix[j] == results[j];
      assert FirstFailure(results, k);
    } else if |tail| > 0 {
      assert forall j :: 0 <= j < |prefix| ==> prefix[j] == results[j];
      assert FirstFailure(results, |results| - 1);
    }
  }

  predicate IsPs1(name: string) { Text.EndsWith(name, ".ps1") }

  predicate IsPs1File(f: PickedFile) { IsPs1(f.name) }

  /** A `.ps1` file whose reading and analysis succeeded. */
  predicate LoadsPs1(f: PickedFile) { IsPs1(f.name) && f.outcome.Loaded? }

  /** What `Promise.all(files.map(processFile))` resolves to: each file's
      outcome, in file order. */
  function Outcomes(files: seq<PickedFile>): seq<FileResult>
  {
    seq(|files|, k requires 0 <= k < |files| => files[k].outcome)
  }

  /** `files[p]` is the first `.ps1` file that failed: every `.ps1` file
      before it loaded. */
  predicate FirstFailingPs1(files: seq<PickedFile>, p: int)
  {
    && 0 <= p < |files| && IsPs1(files[p].name) && files[p].outcome.Failed?
    && forall j :: 0 <= j < p && IsPs1(files[j].name) ==> files[j].outcome.Loaded?
  }

  /** `handleFolderUpload`. Reading a file and asking the model for its title
      and tags is I/O; each file's `outcome` stands for it. No file: nothing
      happens. No API key: an error and the key dialog. No `.ps1` file: an
      error. Otherwise the scripts of the `.ps1` files that loaded go in front
      of the list, in folder order, and the first failure's message, if any,
      is shown. */
  function FolderUpload(st: AppState, files: seq<PickedFile>, hasApiKey: bool): (r: AppState)
    ensures |files| == 0 ==> r == st
    ensures |r.scripts| >= |st.scripts|
    ensures r.scripts[|r.scripts| - |st.scripts|..] == st.scripts
    ensures r.selected == st.selected && r.editing == st.editing && r.theme == st.theme
    ensures r.apiKeyModalOpen == (st.apiKeyModalOpen || (|files| > 0 && !hasApiKey))
    ensures |files| > 0 && !hasApiKey ==>
              r.scripts == st.scripts && r.uploadError == Some(ApiKeyMissingMessage) && r.apiKeyModalOpen
    ensures |files| > 0 && hasApiKey && Filter(files, IsPs1File) == [] ==>
              r.scripts == st.scripts && r.uploadError == Some(NoPs1Message)
    ensures |files| > 0 && hasApiKey ==>
              AsLoaded(r.scripts[..|r.scripts| - |st.scripts|]) == Outcomes(Filter(files, LoadsPs1))
    ensures |files| > 0 && hasApiKey && Filter(files, IsPs1File) != [] ==>
              && (r.uploadError == None <==>
                    forall k :: 0 <= k < |files| && IsPs1(files[k].name) ==> files[k].outcome.Loaded?)
              && (r.uploadError.Some? ==>
                    exists p :: FirstFailingPs1(files, p) && files[p].outcome.error == r.uploadError.value)
  {
    if |files| == 0 then st
    else if !hasApiKey then st.(uploadError := Some(ApiKeyMissingMessage), apiKeyModalOpen := true)
    else
      var ps1 := Filter(files, IsPs1File);
      OutcomesOfLoads(files);
      if |ps1| == 0 then
        FilterNone(Outcomes(ps1), IsLoaded);
        st.(uploadError := Some(NoPs1Message))
      else
        var results := Outcomes(ps1);
        AllPs1Loaded(files);
        forall k | FirstFailure(results, k)
          ensures exists p :: FirstFailingPs1(files, p) && files[p].outcome == results[k]
        {
          var p := FailureInFolder(files, k);
        }
        FinishUpload(st, results)
  }

  /** Lines 240-252: the loaded scripts go in front of the previous list, in
      result order; the message of the first failure, if any, is shown. */
  function FinishUpload(st: AppState, results: seq<FileResult>): (r: AppState)
    ensures |r.scripts| >= |st.scripts| && r.scripts[|r.scripts| - |st.scripts|..] == st.scripts
    ensures AsLoaded(r.scripts[..|r.scripts| - |st.scripts|]) == Filter(results, IsLoaded)
    ensures r.uploadError == None <==> forall k :: 0 <= k < |results| ==> results[k].Loaded?
    ensures r.uploadError.Some? ==> exists k :: FirstFailure(results, k) && results[k].error == r.uploadError.value
    ensures r.selected == st.selected && r.editing == st.editing && r.theme == st.theme
    ensures r.apiKeyModalOpen == st.apiKeyModalOpen
  {
    var loaded := Successes(results);
    var errors := Errors(results);
    var withScripts := if |loaded| > 0 then st.(scripts := loaded + st.scripts) else st;
    assert withScripts.scripts[..|withScripts.scripts| - |st.scripts|] == loaded;
    withScripts.(uploadError := if |errors| > 0 then Some(errors[0]) else None)
  }

  lemma {:induction false} OutcomesAppend(x: seq<PickedFile>, y: seq<PickedFile>)
    ensures Outcomes(x + y) == Outcomes(x) + Outcomes(y)
  {
  }

  /** Keeping the `.ps1` files and then the loaded outcomes is keeping the
      `.ps1` files that loaded. */
  lemma {:induction false} OutcomesOfLoads(files: seq<PickedFile>)
    ensures Filter(Outcomes(Filter(files, IsPs1File)), IsLoaded) == Outcomes(Filter(files, LoadsPs1))
    decreases |files|
  {
    if |files| > 0 {
      var init, f := files[..|files| - 1], files[|files| - 1];
      OutcomesOfLoads(init);
      var ps1, loads := Filter(init, IsPs1File), Filter(init, LoadsPs1);
      var ps1Tail := if IsPs1File(f) then [f] else [];
      var loadsTail := if LoadsPs1(f) then [f] else [];
      FilterSnoc(files, IsPs1File);
      FilterSnoc(files, LoadsPs1);
      OutcomesAppend(ps1, ps1Tail);
      OutcomesAppend(loads, loadsTail);
      FilterAppend(Outcomes(ps1), Outcomes(ps1Tail), IsLoaded);
      LastFileLoads(f);
    }
  }

  /** One file on its own: kept as `.ps1` and then as loaded exactly when it
      is a `.ps1` file that loaded. */
  lemma {:induction false} LastFileLoads(f: PickedFile)
    ensures Filter(Outcomes(if IsPs1File(f) then [f] else []), IsLoaded)
         == Outcomes(if LoadsPs1(f) then [f] else [])
  {
    if IsPs1File(f) {
      FilterCons(f.outcome, [], IsLoaded);
      assert Outcomes([f]) == [f.outcome] + [];
    }
  }

  /** All `.ps1` outcomes loaded exactly when every `.ps1` file did. */
  lemma {:induction false} AllPs1Loaded(files: seq<PickedFile>)
    ensures var results := Outcomes(Filter(files, IsPs1File));
            (forall k :: 0 <= k < |results| ==> results[k].Loaded?) <==>
            (forall k :: 0 <= k < |files| && IsPs1(files[k].name) ==> files[k].outcome.Loaded?)
  {
    var ps1 := Filter(files, IsPs1File);
    var results := Outcomes(ps1);
    if forall k :: 0 <= k < |results| ==> results[k].Loaded? {
      forall k | 0 <= k < |files| && IsPs1(files[k].name)
        ensures files[k].outcome.Loaded?
      {
        assert files[k] in ps1;
        var m :| 0 <= m < |ps1| && ps1[m] == files[k];
        assert results[m] == files[k].outcome;
      }
    }
    if forall k :: 0 <= k < |files| && IsPs1(files[k].name) ==> files[k].outcome.Loaded? {
      forall m | 0 <= m < |results|
        ensures results[m].Loaded?
      {
        assert ps1[m] in files && IsPs1File(ps1[m]);
        var j :| 0 <= j < |files| && files[j] == ps1[m];
        assert files[j].outcome.Loaded?;
      }
    }
  }

  predicate FailsToLoad(f: PickedFile) { f.outcome.Failed? }

  /** The first failure among the `.ps1` outcomes is the outcome of the
      first failing `.ps1` file of the folder. */
  lemma {:induction false} FailureInFolder(files: seq<PickedFile>, k: nat) returns (p: nat)
    requires FirstFailure(Outcomes(Filter(files, IsPs1File)), k)
    ensures FirstFailingPs1(files, p) && files[p].outcome == Outcomes(Filter(files, IsPs1File))[k]
  {
    var ps1 := Filter(files, IsPs1File);
    var results := Outcomes(ps1);
    assert FailsToLoad(ps1[k]) by {
      assert results[k] == ps1[k].outcome;
    }
    forall j | 0 <= j < k
      ensures !FailsToLoad(ps1[j])
    {
      assert results[j] == ps1[j].outcome;
    }
    p := FilterFirst(files, IsPs1File, FailsToLoad, k);
  }

  /** Every file that loads becomes a script; the new list is exactly as long
      as the old one plus the loads. */
  lemma {:induction false} UploadCounts(results: seq<FileResult>)
    ensures |Successes(results)| + |Errors(results)| == |results|
  {
    if |results| > 0 {
      UploadCounts(results[..|results| - 1]);
    }
  }

  /** With the key set, an upload adds a script exactly when some `.ps1`
      file of the folder loaded it, and adds at most one script per `.ps1`
      file. */
  lemma {:induction false} UploadOnlyPs1(st: AppState, files: seq<PickedFile>)
    requires |files| > 0
    ensures var r := FolderUpload(st, files, true);
            var added := r.scripts[..|r.scripts| - |st.scripts|];
            && |added| <= |Filter(files, IsPs1File)|
            && (forall s :: s in added ==> exists f :: f in files && LoadsPs1(f) && f.outcome == Loaded(s))
            && (forall f :: f in files && LoadsPs1(f) ==> f.outcome.script in added)
  {
    var r := FolderUpload(st, files, true);
    var added := r.scripts[..|r.scripts| - |st.scripts|];
    FilterWeakerFirst(files, IsPs1File, LoadsPs1);
    LoadedScripts(files, added);
  }

  /** Scripts lined up with the `.ps1` files that loaded are exactly those
      files' scripts. */
  lemma {:induction false} LoadedScripts(files: seq<PickedFile>, added: seq<Script>)
    requires AsLoaded(added) == Outcomes(Filter(files, LoadsPs1))
    ensures forall s :: s in added ==> exists f :: f in files && LoadsPs1(f) && f.outcome == Loaded(s)
    ensures forall f :: f in files && LoadsPs1(f) ==> f.outcome.script in added
  {
    var loads := Filter(files, LoadsPs1);
    forall s | s in added
      ensures exists f :: f in files && LoadsPs1(f) && f.outcome == Loaded(s)
    {
      var i :| 0 <= i < |added| && added[i] == s;
      assert AsLoaded(added)[i] == Loaded(s);
      assert loads[i] in files && LoadsPs1(loads[i]);
    }
    forall f | f in files && LoadsPs1(f)
      ensures f.outcome.script in added
    {
      var i :| 0 <= i < |files| && files[i] == f;
      assert f in loads;
      var m :| 0 <= m < |loads| && loads[m] == f;
      assert AsLoaded(added)[m] == Outcomes(loads)[m];
    }
  }

  // ---------------------------------------------------------------------------
  // Download
  // ---------------------------------------------------------------------------

  const ArchiveName := "powershell_scripts.zip"

  datatype ArchiveEntry = ArchiveEntry(filename: string, contents: string)

  /** One script as a file: its sanitised title and its code. */
  function Entry(s: Script): ArchiveEntry
  {
    ArchiveEntry(Sanitize.SanitizeFilename(s.title), s.code)
  }

  /** What `handleDownloadScripts` hands to the browser. */
  datatype Download =
    | NoDownload
    | SingleFile(filename: string, contents: string)
    | Archive(filename: string, entries: seq<ArchiveEntry>)

  /** The filter callback of `handleDownloadScripts`. */
  function Requested(ids: seq<string>): Script -> bool
  {
    (s: Script) => s.id in ids
  }

  /** The scripts to download: those whose id was requested, in list order. */
  function ToDownloadList(scripts: seq<Script>, ids: seq<string>): (r: seq<Script>)
    ensures IsSubseq(r, scripts)
    ensures forall k :: 0 <= k < |r| ==> r[k].id in ids
    ensures forall k :: 0 <= k < |scripts| && scripts[k].id in ids ==> scripts[k] in r
    ensures forall x :: multiset(r)[x] == if x.id in ids then multiset(scripts)[x] else 0
    ensures |r| == 0 <==> forall k :: 0 <= k < |scripts| ==> scripts[k].id !in ids
  {
    FilterIsSubseq(scripts, Requested(ids));
    FilterCount(scripts, Requested(ids));
    Filter(scripts, Requested(ids))
  }

  /** How `handleDownloadScripts` packages the chosen scripts: nothing for
      none, one sanitised file for one, otherwise one archive entry each, in
      list order. */
  function Package(chosen: seq<Script>): (r: Download)
    ensures r.NoDownload? <==> |chosen| == 0
    ensures r.SingleFile? <==> |chosen| == 1
    ensures r.SingleFile? ==> ArchiveEntry(r.filename, r.contents) == Entry(chosen[0])
    ensures r.Archive? ==> r.filename == ArchiveName && |r.entries| == |chosen|
    ensures r.Archive? ==> forall k :: 0 <= k < |chosen| ==> r.entries[k] == Entry(chosen[k])
  {
    if |chosen| == 0 then NoDownload
    else if |chosen| == 1 then SingleFile(Entry(chosen[0]).filename, chosen[0].code)
    else Archive(ArchiveName, seq(|chosen|, k requires 0 <= k < |chosen| => Entry(chosen[k])))
  }

  /** `handleDownloadScripts`: the requested scripts, packaged. Nothing is
      downloaded exactly when no script has a requested id. */
  function DownloadScripts(scripts: seq<Script>, ids: seq<string>): (r: Download)
    ensures r.NoDownload? <==> forall k :: 0 <= k < |scripts| ==> scripts[k].id !in ids
  {
    Package(ToDownloadList(scripts, ids))
  }

  /** Only the set of requested ids matters, not their order or repetition. */
  lemma {:induction false} DownloadDependsOnIdSet(scripts: seq<Script>, ids1: seq<string>, ids2: seq<string>)
    requires forall x :: x in ids1 <==> x in ids2
    ensures DownloadScripts(scripts, ids1) == DownloadScripts(scripts, ids2)
  {
    FilterCongruent(scripts, Requested(ids1), Requested(ids2));
  }

  /** Every downloaded file name is a valid `.ps1` name, and an archive is
      only made for two or more scripts. */
  lemma {:induction false} DownloadFileNames(scripts: seq<Script>, ids: seq<string>)
    ensures var r := DownloadScripts(scripts, ids);
            r.Archive? ==>
              && |r.entries| >= 2
              && forall k :: 0 <= k < |r.entries| ==>
                   && Text.EndsWith(r.entries[k].filename, ".ps1")
                   && Sanitize.ValidStem(r.entries[k].filename[..|r.entries[k].filename| - 4])
  {
    var chosen := ToDownloadList(scripts, ids);
    var r := DownloadScripts(scripts, ids);
    assert r == Package(chosen);
    if r.Archive? {
      forall k | 0 <= k < |r.entries|
        ensures Text.EndsWith(r.entries[k].filename, ".ps1")
        ensures Sanitize.ValidStem(r.entries[k].filename[..|r.entries[k].filename| - 4])
      {
        var name := Sanitize.SanitizeFilename(chosen[k].title);
        assert r.entries[k].filename == name;
      }
    }
  }

  /** The viewer's download button asks for one id; a script with an id of
      its own comes out as a single sanitised file. */
  lemma {:induction false} DownloadOneFromViewer(scripts: seq<Script>, k: nat)
    requires k < |scripts|
    requires forall p :: 0 <= p < |scripts| && p != k ==> scripts[p].id != scripts[k].id
    ensures DownloadScripts(scripts, [scripts[k].id]) == SingleFile(Entry(scripts[k]).filename, scripts[k].code)
  {
    var keep := Requested([scripts[k].id]);
    forall p | 0 <= p < |scripts| && p != k
      ensures !keep(scripts[p])
    {
    }
    FilterSingle(scripts, keep, k);
  }

}
