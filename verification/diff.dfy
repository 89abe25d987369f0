/**
  The line-level diff the script editor shows under "Suggested Changes": a
  longest-common-subsequence table over two line sequences and a backward
  walk from its bottom-right corner that prepends `common`, `added` and `removed` parts.
 */
module DiffEngine {
  import opened Seqs
  import Text

  datatype PartType = Added | Removed | Common

  /** One rendered line of the diff. */
  datatype DiffPart = DiffPart(kind: PartType, value: string)

  /** `matrix[i][j]`: filled row by row with the LCS recurrence; row 0 and
      column 0 stay at their initial 0. */
  function Table(a: seq<string>, b: seq<string>, i: nat, j: nat): (r: nat)
    requires i <= |a| && j <= |b|
    ensures r <= i && r <= j
    decreases i + j
  {
    if i == 0 || j == 0 then 0
    else if a[i - 1] == b[j - 1] then 1 + Table(a, b, i - 1, j - 1)
    else
      var up, left := Table(a, b, i - 1, j), Table(a, b, i, j - 1);
      if up >= left then up else left
  }

  /** `matrix` has one row per old line plus one, each with one cell per new
      line plus one. */
  predicate Shaped(a: seq<string>, b: seq<string>, matrix: seq<seq<nat>>)
  {
    |matrix| == |a| + 1 && forall r :: 0 <= r < |matrix| ==> |matrix[r]| == |b| + 1
  }

  /** Every cell of `matrix` holds the recurrence's value. */
  predicate IsTable(a: seq<string>, b: seq<string>, matrix: seq<seq<nat>>)
  {
    && Shaped(a, b, matrix)
    && forall r, c :: 0 <= r <= |a| && 0 <= c <= |b| ==> matrix[r][c] == Table(a, b, r, c)
  }

  /** The filled table as a value. */
  function TableOf(a: seq<string>, b: seq<string>): (matrix: seq<seq<nat>>)
    ensures IsTable(a, b, matrix)
  {
    seq(|a| + 1, r requires 0 <= r <= |a| =>
      seq(|b| + 1, c requires 0 <= c <= |b| => Table(a, b, r, c)))
  }

  /** A shaped matrix that agrees with `Table` at every cell is `TableOf`. */
  lemma {:induction false} TableUnique(a: seq<string>, b: seq<string>, matrix: seq<seq<nat>>)
    requires IsTable(a, b, matrix)
    ensures matrix == TableOf(a, b)
  {
    var t := TableOf(a, b);
    forall r | 0 <= r <= |a|
      ensures matrix[r] == t[r]
    {
    }
  }

  /** What the filling loops establish, read off the matrix alone: zero
      borders, and each inner cell computed from its neighbours by the match
      rule or `Math.max`. */
  predicate ObeysRecurrence(a: seq<string>, b: seq<string>, matrix: seq<seq<nat>>)
  {
    && Shaped(a, b, matrix)
    && (forall c :: 0 <= c <= |b| ==> matrix[0][c] == 0)
    && (forall r :: 0 <= r <= |a| ==> matrix[r][0] == 0)
    && forall r, c :: 1 <= r <= |a| && 1 <= c <= |b| ==> CellRule(a, b, matrix, r, c)
  }

  /** Lines 12-16 for the inner cell `(r, c)`. */
  predicate CellRule(a: seq<string>, b: seq<string>, matrix: seq<seq<nat>>, r: nat, c: nat)
    requires Shaped(a, b, matrix) && 1 <= r <= |a| && 1 <= c <= |b|
  {
    matrix[r][c] == if a[r - 1] == b[c - 1] then 1 + matrix[r - 1][c - 1]
                    else if matrix[r - 1][c] >= matrix[r][c - 1] then matrix[r - 1][c]
                    else matrix[r][c - 1]
  }

  /** A matrix obeying the recurrence holds `Table` at each cell. */
  lemma {:induction false} RecurrenceCell(a: seq<string>, b: seq<string>, matrix: seq<seq<nat>>, i: nat, j: nat)
    requires ObeysRecurrence(a, b, matrix) && i <= |a| && j <= |b|
    ensures matrix[i][j] == Table(a, b, i, j)
    decreases i + j
  {
    if i == 0 {
    } else if j == 0 {
    } else {
      assert CellRule(a, b, matrix, i, j);
      if a[i - 1] == b[j - 1] {
        RecurrenceCell(a, b, matrix, i - 1, j - 1);
      } else {
        RecurrenceCell(a, b, matrix, i - 1, j);
        RecurrenceCell(a, b, matrix, i, j - 1);
      }
    }
  }

  /** The recurrence has exactly one solution of the table's shape: a shaped
      matrix obeys it if and only if it is `TableOf`. */
  lemma {:induction false} RecurrenceDeterminesTable(a: seq<string>, b: seq<string>, matrix: seq<seq<nat>>)
    requires Shaped(a, b, matrix)
    ensures ObeysRecurrence(a, b, matrix) <==> matrix == TableOf(a, b)
  {
    if ObeysRecurrence(a, b, matrix) {
      forall r, c | 0 <= r <= |a| && 0 <= c <= |b|
        ensures matrix[r][c] == Table(a, b, r, c)
      {
        RecurrenceCell(a, b, matrix, r, c);
      }
      TableUnique(a, b, matrix);
    }
  }

  /** The branch the backward walk takes at `(i, j)`, reading the table:
      a match is kept; otherwise `added` wins whenever
      `matrix[i][j-1] >= matrix[i-1][j]` (ties included), and `removed` is
      taken in the remaining cases. */
  function Move(a: seq<string>, b: seq<string>, matrix: seq<seq<nat>>, i: nat, j: nat): (r: PartType)
    requires Shaped(a, b, matrix) && i <= |a| && j <= |b|
    requires i > 0 || j > 0
    ensures r == Common <==> i > 0 && j > 0 && a[i - 1] == b[j - 1]
    ensures r == Added ==> j > 0 && (i == 0 || matrix[i][j - 1] >= matrix[i - 1][j])
    ensures r == Removed ==> i > 0 && (j == 0 || matrix[i][j - 1] < matrix[i - 1][j])
  {
    if i > 0 && j > 0 && a[i - 1] == b[j - 1] then Common
    else if j > 0 && (i == 0 || matrix[i][j - 1] >= matrix[i - 1][j]) then Added
    else Removed
  }

  /** The parts the backward walk from `(i, j)` down to `(0, 0)` has prepended,
      in output order. Each step lowers `i + j`, so the walk terminates. */
  function Walk(a: seq<string>, b: seq<string>, matrix: seq<seq<nat>>, i: nat, j: nat): (r: seq<DiffPart>)
    requires Shaped(a, b, matrix) && i <= |a| && j <= |b|
    ensures i <= |r| && j <= |r| && |r| <= i + j
    decreases i + j
  {
    if i == 0 && j == 0 then []
    else
      match Move(a, b, matrix, i, j)
      case Common => Walk(a, b, matrix, i - 1, j - 1) + [DiffPart(Common, a[i - 1])]
      case Added => Walk(a, b, matrix, i, j - 1) + [DiffPart(Added, b[j - 1])]
      case Removed => Walk(a, b, matrix, i - 1, j) + [DiffPart(Removed, a[i - 1])]
  }

  /** `createDiff(oldLines, newLines)` as a pure function. */
  function Diff(oldLines: seq<string>, newLines: seq<string>): (r: seq<DiffPart>)
    ensures OldSide(r) == oldLines && NewSide(r) == newLines
    ensures IsCommonSubseq(CommonLines(r), oldLines, newLines)
  {
    var matrix := TableOf(oldLines, newLines);
    var d := Walk(oldLines, newLines, matrix, |oldLines|, |newLines|);
    WalkRebuildsInputs(oldLines, newLines, matrix, |oldLines|, |newLines|);
    assert oldLines[..|oldLines|] == oldLines && newLines[..|newLines|] == newLines;
    CommonLinesAreCommon(d);
    d
  }

  /** The values of the parts whose type is in `kinds`, in order. */
  function Project(d: seq<DiffPart>, kinds: set<PartType>): (r: seq<string>)
    ensures |r| <= |d|
  {
    if |d| == 0 then []
    else Project(d[..|d| - 1], kinds) + (if d[|d| - 1].kind in kinds then [d[|d| - 1].value] else [])
  }

  /** Appending a part extends the projection by its value exactly when its
      type is selected. */
  lemma {:induction false} ProjectSnoc(d: seq<DiffPart>, p: DiffPart, kinds: set<PartType>)
    ensures Project(d + [p], kinds) == Project(d, kinds) + (if p.kind in kinds then [p.value] else [])
  {
    assert (d + [p])[..|d|] == d;
  }

  /** Appending one part to a diff, seen from the three projections. */
  lemma {:induction false} SidesSnoc(d: seq<DiffPart>, p: DiffPart)
    ensures OldSide(d + [p]) == OldSide(d) + (if p.kind != Added then [p.value] else [])
    ensures NewSide(d + [p]) == NewSide(d) + (if p.kind != Removed then [p.value] else [])
    ensures CommonLines(d + [p]) == CommonLines(d) + (if p.kind == Common then [p.value] else [])
  {
    ProjectSnoc(d, p, {Common, Removed});
    ProjectSnoc(d, p, {Common, Added});
    ProjectSnoc(d, p, {Common});
  }

  /** The old side of a diff: its `common` and `removed` lines. */
  function OldSide(d: seq<DiffPart>): seq<string> { Project(d, {Common, Removed}) }

  /** The new side of a diff: its `common` and `added` lines. */
  function NewSide(d: seq<DiffPart>): seq<string> { Project(d, {Common, Added}) }

  /** The lines the diff keeps unchanged. */
  function CommonLines(d: seq<DiffPart>): seq<string> { Project(d, {Common}) }

  /** `c` is a common subsequence of `a` and `b`. */
  predicate IsCommonSubseq(c: seq<string>, a: seq<string>, b: seq<string>)
  {
    IsSubseq(c, a) && IsSubseq(c, b)
  }

  // ---------------------------------------------------------------------------
  // The walk
  // ---------------------------------------------------------------------------

  /** Whenever `i > 0 || j > 0`, one of the loop's first three guards holds,
      so its final `break` is never taken. */
  lemma {:induction false} WalkNeverBreaks(a: seq<string>, b: seq<string>, matrix: seq<seq<nat>>, i: nat, j: nat)
    requires Shaped(a, b, matrix) && i <= |a| && j <= |b|
    requires i > 0 || j > 0
    ensures || (i > 0 && j > 0 && a[i - 1] == b[j - 1])
            || (j > 0 && (i == 0 || matrix[i][j - 1] >= matrix[i - 1][j]))
            || (i > 0 && (j == 0 || matrix[i][j - 1] < matrix[i - 1][j]))
  {
  }

  /** One step of the walk: the last part comes from the move at `(i, j)`,
      which consumes the old line on `common`/`removed` and the new line on
      `common`/`added`. */
  lemma {:induction false} WalkLast(a: seq<string>, b: seq<string>, matrix: seq<seq<nat>>, i: nat, j: nat)
    requires Shaped(a, b, matrix) && i <= |a| && j <= |b|
    requires i > 0 || j > 0
    ensures var mv := Move(a, b, matrix, i, j);
            var i', j' := (if mv == Added then i else i - 1), (if mv == Removed then j else j - 1);
            Walk(a, b, matrix, i, j)
            == Walk(a, b, matrix, i', j') + [DiffPart(mv, if mv == Added then b[j - 1] else a[i - 1])]
  {
  }

  /** The walk loop's step: prepending the part of the move at `(i, j)` to
      what follows keeps the whole result unchanged. */
  lemma {:induction false} WalkPrepend(a: seq<string>, b: seq<string>, matrix: seq<seq<nat>>, i: nat, j: nat, diff: seq<DiffPart>)
    requires Shaped(a, b, matrix) && i <= |a| && j <= |b|
    requires i > 0 || j > 0
    ensures var mv := Move(a, b, matrix, i, j);
            var i', j' := (if mv == Added then i else i - 1), (if mv == Removed then j else j - 1);
            Walk(a, b, matrix, i', j') + ([DiffPart(mv, if mv == Added then b[j - 1] else a[i - 1])] + diff)
            == Walk(a, b, matrix, i, j) + diff
  {
    WalkLast(a, b, matrix, i, j);
  }

  /** The walk loop's first branch keeps its invariant: a match at `(i, j)`
      is the walk's last part. */
  lemma {:induction false} WalkStepCommon(a: seq<string>, b: seq<string>, matrix: seq<seq<nat>>, i: nat, j: nat, diff: seq<DiffPart>, whole: seq<DiffPart>)
    requires Shaped(a, b, matrix) && 0 < i <= |a| && 0 < j <= |b| && a[i - 1] == b[j - 1]
    requires Walk(a, b, matrix, i, j) + diff == whole
    ensures Walk(a, b, matrix, i - 1, j - 1) + ([DiffPart(Common, a[i - 1])] + diff) == whole
  {
    WalkPrepend(a, b, matrix, i, j, diff);
  }

  /** The walk loop's second branch keeps its invariant. */
  lemma {:induction false} WalkStepAdded(a: seq<string>, b: seq<string>, matrix: seq<seq<nat>>, i: nat, j: nat, diff: seq<DiffPart>, whole: seq<DiffPart>)
    requires Shaped(a, b, matrix) && i <= |a| && 0 < j <= |b|
    requires !(i > 0 && a[i - 1] == b[j - 1]) && (i == 0 || matrix[i][j - 1] >= matrix[i - 1][j])
    requires Walk(a, b, matrix, i, j) + diff == whole
    ensures Walk(a, b, matrix, i, j - 1) + ([DiffPart(Added, b[j - 1])] + diff) == whole
  {
    WalkPrepend(a, b, matrix, i, j, diff);
  }

  /** The walk loop's third branch keeps its invariant. */
  lemma {:induction false} WalkStepRemoved(a: seq<string>, b: seq<string>, matrix: seq<seq<nat>>, i: nat, j: nat, diff: seq<DiffPart>, whole: seq<DiffPart>)
    requires Shaped(a, b, matrix) && 0 < i <= |a| && j <= |b|
    requires !(j > 0 && a[i - 1] == b[j - 1]) && (j == 0 || matrix[i][j - 1] < matrix[i - 1][j])
    requires Walk(a, b, matrix, i, j) + diff == whole
    ensures Walk(a, b, matrix, i - 1, j) + ([DiffPart(Removed, a[i - 1])] + diff) == whole
  {
    WalkPrepend(a, b, matrix, i, j, diff);
  }

  /** Keeping the `common` and `removed` parts reproduces the old prefix, and
      keeping the `common` and `added` parts reproduces the new prefix. This
      holds whatever numbers the table holds: only optimality needs the LCS
      values. */
  lemma {:induction false} WalkRebuildsInputs(a: seq<string>, b: seq<string>, matrix: seq<seq<nat>>, i: nat, j: nat)
    requires Shaped(a, b, matrix) && i <= |a| && j <= |b|
    ensures OldSide(Walk(a, b, matrix, i, j)) == a[..i]
    ensures NewSide(Walk(a, b, matrix, i, j)) == b[..j]
    decreases i + j
  {
    if i > 0 || j > 0 {
      var mv := Move(a, b, matrix, i, j);
      var i', j' := (if mv == Added then i else i - 1), (if mv == Removed then j else j - 1);
      var p := DiffPart(mv, if mv == Added then b[j - 1] else a[i - 1]);
      WalkLast(a, b, matrix, i, j);
      WalkRebuildsInputs(a, b, matrix, i', j');
      SidesSnoc(Walk(a, b, matrix, i', j'), p);
      if mv != Added {
        PrefixSnoc(a, i);
      }
      if mv != Removed {
        PrefixSnoc(b, j);
      }
    }
  }

  /** Each step of the walk over the filled table lowers `matrix[i][j]` by
      one on a match and leaves it unchanged otherwise. */
  lemma {:induction false} TableAlongMove(a: seq<string>, b: seq<string>, matrix: seq<seq<nat>>, i: nat, j: nat)
    requires IsTable(a, b, matrix) && i <= |a| && j <= |b|
    requires i > 0 || j > 0
    ensures Move(a, b, matrix, i, j) == Common ==> Table(a, b, i, j) == Table(a, b, i - 1, j - 1) + 1
    ensures Move(a, b, matrix, i, j) == Added ==> Table(a, b, i, j) == Table(a, b, i, j - 1)
    ensures Move(a, b, matrix, i, j) == Removed ==> Table(a, b, i, j) == Table(a, b, i - 1, j)
  {
    if i > 0 && j > 0 {
      assert matrix[i][j - 1] == Table(a, b, i, j - 1);
      assert matrix[i - 1][j] == Table(a, b, i - 1, j);
    }
  }

  /** Walking the filled table keeps exactly `matrix[i][j]` lines. */
  lemma {:induction false} WalkCommonCount(a: seq<string>, b: seq<string>, matrix: seq<seq<nat>>, i: nat, j: nat)
    requires IsTable(a, b, matrix) && i <= |a| && j <= |b|
    ensures |CommonLines(Walk(a, b, matrix, i, j))| == Table(a, b, i, j)
    decreases i + j
  {
    if i > 0 || j > 0 {
      TableAlongMove(a, b, matrix, i, j);
      var i', j' := if Move(a, b, matrix, i, j) == Added then i else i - 1,
                    if Move(a, b, matrix, i, j) == Removed then j else j - 1;
      var p := Walk(a, b, matrix, i, j)[|Walk(a, b, matrix, i, j)| - 1];
      assert Walk(a, b, matrix, i, j) == Walk(a, b, matrix, i', j') + [p];
      assert p.kind == Move(a, b, matrix, i, j);
      WalkCommonCount(a, b, matrix, i', j');
      SidesSnoc(Walk(a, b, matrix, i', j'), p);
    }
  }

  /** Every part lands on the old side, the new side, or both (when `common`). */
  lemma {:induction false} SidesCoverParts(d: seq<DiffPart>)
    ensures |d| == |OldSide(d)| + |NewSide(d)| - |CommonLines(d)|
  {
    if |d| > 0 {
      var d' := d[..|d| - 1];
      SidesCoverParts(d');
      SidesSnoc(d', d[|d| - 1]);
      assert d' + [d[|d| - 1]] == d;
    }
  }

  /** The kept lines form a common subsequence of both sides of any diff. */
  lemma {:induction false} CommonLinesAreCommon(d: seq<DiffPart>)
    ensures IsSubseq(CommonLines(d), OldSide(d))
    ensures IsSubseq(CommonLines(d), NewSide(d))
  {
    if |d| > 0 {
      var d' := d[..|d| - 1];
      var p := d[|d| - 1];
      CommonLinesAreCommon(d');
      SidesSnoc(d', p);
      assert d' + [p] == d;
      var c, o, n := CommonLines(d), OldSide(d), NewSide(d);
      match p.kind
      case Common =>
        assert c[..|c| - 1] == CommonLines(d');
        assert o[..|o| - 1] == OldSide(d');
        assert n[..|n| - 1] == NewSide(d');
      case Removed =>
        assert o[..|o| - 1] == OldSide(d');
        assert c == CommonLines(d');
        assert n == NewSide(d');
      case Added =>
        assert n[..|n| - 1] == NewSide(d');
        assert c == CommonLines(d');
        assert o == OldSide(d');
    }
  }

  // ---------------------------------------------------------------------------
  // The table is the LCS length
  // ---------------------------------------------------------------------------

  /** No common subsequence of the prefixes is longer than `matrix[i][j]`. */
  lemma {:induction false} TableIsUpperBound(a: seq<string>, b: seq<string>, i: nat, j: nat, c: seq<string>)
    requires i <= |a| && j <= |b|
    requires IsCommonSubseq(c, a[..i], b[..j])
    ensures |c| <= Table(a, b, i, j)
    decreases i + j
  {
    if |c| == 0 {
    } else {
      var x, c' := c[|c| - 1], c[..|c| - 1];
      assert i > 0 && j > 0;
      PrefixSnoc(a, i);
      PrefixSnoc(b, j);
      if a[i - 1] == b[j - 1] {
        if !IsSubseq(c', a[..i - 1]) {
          SubseqDropLast(c, a[..i - 1]);
        }
        if !IsSubseq(c', b[..j - 1]) {
          SubseqDropLast(c, b[..j - 1]);
        }
        TableIsUpperBound(a, b, i - 1, j - 1, c');
      } else if x != a[i - 1] {
        TableIsUpperBound(a, b, i - 1, j, c);
      } else {
        TableIsUpperBound(a, b, i, j - 1, c);
      }
    }
  }

  /** `matrix[i][j]` is the length of a longest common subsequence of
      `a[..i]` and `b[..j]`: one of that length exists (the walk's kept
      lines), and none is longer. */
  lemma {:induction false} TableIsLcsLength(a: seq<string>, b: seq<string>, i: nat, j: nat)
    requires i <= |a| && j <= |b|
    ensures IsCommonSubseq(CommonLines(Walk(a, b, TableOf(a, b), i, j)), a[..i], b[..j])
    ensures |CommonLines(Walk(a, b, TableOf(a, b), i, j))| == Table(a, b, i, j)
    ensures forall c :: IsCommonSubseq(c, a[..i], b[..j]) ==> |c| <= Table(a, b, i, j)
  {
    var d := Walk(a, b, TableOf(a, b), i, j);
    WalkRebuildsInputs(a, b, TableOf(a, b), i, j);
    CommonLinesAreCommon(d);
    WalkCommonCount(a, b, TableOf(a, b), i, j);
    forall c | IsCommonSubseq(c, a[..i], b[..j])
      ensures |c| <= Table(a, b, i, j)
    {
      TableIsUpperBound(a, b, i, j, c);
    }
  }

  // ---------------------------------------------------------------------------
  // Properties of the whole diff
  // ---------------------------------------------------------------------------

  /** The diff is a valid edit script whose kept lines are a longest common
      subsequence; its length is `n + m - LCS`. */
  lemma {:induction false} DiffIsOptimalEditScript(oldLines: seq<string>, newLines: seq<string>)
    ensures OldSide(Diff(oldLines, newLines)) == oldLines
    ensures NewSide(Diff(oldLines, newLines)) == newLines
    ensures IsCommonSubseq(CommonLines(Diff(oldLines, newLines)), oldLines, newLines)
    ensures forall c :: IsCommonSubseq(c, oldLines, newLines) ==>
              |c| <= |CommonLines(Diff(oldLines, newLines))|
    ensures |Diff(oldLines, newLines)|
            == |oldLines| + |newLines| - Table(oldLines, newLines, |oldLines|, |newLines|)
  {
    var n, m := |oldLines|, |newLines|;
    assert oldLines[..n] == oldLines && newLines[..m] == newLines;
    WalkRebuildsInputs(oldLines, newLines, TableOf(oldLines, newLines), n, m);
    TableIsLcsLength(oldLines, newLines, n, m);
    SidesCoverParts(Diff(oldLines, newLines));
  }

  /** All parts of `d` have type `k` and carry the lines of `s`, in order. */
  predicate AllOf(d: seq<DiffPart>, k: PartType, s: seq<string>)
  {
    |d| == |s| && forall p :: 0 <= p < |d| ==> d[p] == DiffPart(k, s[p])
  }

  /** Identical inputs give only `common` parts, one per line, in order. */
  lemma {:induction false} IdenticalInputsAllCommon(a: seq<string>, i: nat)
    requires i <= |a|
    ensures AllOf(Walk(a, a, TableOf(a, a), i, i), Common, a[..i])
    decreases i
  {
    if i > 0 {
      IdenticalInputsAllCommon(a, i - 1);
    }
  }

  /** An empty old side gives only `added` parts, one per new line, in order. */
  lemma {:induction false} EmptyOldAllAdded(b: seq<string>, j: nat)
    requires j <= |b|
    ensures AllOf(Walk([], b, TableOf([], b), 0, j), Added, b[..j])
    decreases j
  {
    if j > 0 {
      EmptyOldAllAdded(b, j - 1);
    }
  }

  /** An empty new side gives only `removed` parts, one per old line, in order. */
  lemma {:induction false} EmptyNewAllRemoved(a: seq<string>, i: nat)
    requires i <= |a|
    ensures AllOf(Walk(a, [], TableOf(a, []), i, 0), Removed, a[..i])
    decreases i
  {
    if i > 0 {
      EmptyNewAllRemoved(a, i - 1);
    }
  }

  /** Diffs of whole sequences in the three degenerate cases. */
  lemma {:induction false} DegenerateDiffs(a: seq<string>, b: seq<string>)
    ensures AllOf(Diff(a, a), Common, a)
    ensures AllOf(Diff([], b), Added, b)
    ensures AllOf(Diff(a, []), Removed, a)
  {
    assert a[..|a|] == a && b[..|b|] == b;
    IdenticalInputsAllCommon(a, |a|);
    EmptyOldAllAdded(b, |b|);
    EmptyNewAllRemoved(a, |a|);
  }

  /** A one-line substitution: the tie goes to `added`, which the backward
      walk emits first, so `removed` precedes it in the output. */
  lemma {:induction false} SubstitutionExample()
    ensures Diff(["a", "b", "c"], ["a", "x", "c"])
            == [DiffPart(Common, "a"), DiffPart(Removed, "b"), DiffPart(Added, "x"), DiffPart(Common, "c")]
  {
    var a, b := ["a", "b", "c"], ["a", "x", "c"];
    var t := TableOf(a, b);
    assert t[1][1] == Table(a, b, 1, 1) == 1;
    assert t[2][1] == Table(a, b, 2, 1) == 1;
    assert t[1][2] == Table(a, b, 1, 2) == 1;
    assert t[2][0] == 0;
    assert Walk(a, b, t, 1, 1) == [DiffPart(Common, "a")];
    assert Walk(a, b, t, 2, 1) == [DiffPart(Common, "a"), DiffPart(Removed, "b")];
    assert Walk(a, b, t, 2, 2) == [DiffPart(Common, "a"), DiffPart(Removed, "b"), DiffPart(Added, "x")];
  }

  /** Swapped lines: one line is kept and the tie-break decides which. */
  lemma {:induction false} SwapExample()
    ensures Diff(["a", "b"], ["b", "a"])
            == [DiffPart(Removed, "a"), DiffPart(Common, "b"), DiffPart(Added, "a")]
  {
    var a, b := ["a", "b"], ["b", "a"];
    var t := TableOf(a, b);
    assert t[1][2] == Table(a, b, 1, 2) == 1;
    assert t[2][1] == Table(a, b, 2, 1) == 1;
    assert Walk(a, b, t, 1, 0) == [DiffPart(Removed, "a")];
    assert Walk(a, b, t, 2, 1) == [DiffPart(Removed, "a"), DiffPart(Common, "b")];
  }

  /** Duplicate lines match by position: the walk matches the LAST old `x`
      first, so the first old `x` is the one reported as removed. */
  lemma {:induction false} DuplicateLinesExample()
    ensures Diff(["x", "x"], ["x"]) == [DiffPart(Removed, "x"), DiffPart(Common, "x")]
  {
    var a, b := ["x", "x"], ["x"];
    var t := TableOf(a, b);
    assert Walk(a, b, t, 1, 0) == [DiffPart(Removed, "x")];
  }

  // ---------------------------------------------------------------------------
  // The source's loops
  // ---------------------------------------------------------------------------

  /** Lines 9-18: the table, built row by row as an array of rows. */
  method BuildTable(a: seq<string>, b: seq<string>) returns (matrix: seq<seq<nat>>)
    ensures IsTable(a, b, matrix)
  {
    matrix := [seq(|b| + 1, _ => 0)];
    var i := 1;
    while i <= |a|
      invariant 1 <= i <= |a| + 1
      invariant |matrix| == i
      invariant forall r :: 0 <= r < i ==> |matrix[r]| == |b| + 1
      invariant forall r, c :: 0 <= r < i && 0 <= c <= |b| ==> matrix[r][c] == Table(a, b, r, c)
    {
      var row := BuildRow(a, b, i, matrix[i - 1]);
      var next := matrix + [row];
      forall r, c | 0 <= r <= i && 0 <= c <= |b|
        ensures next[r][c] == Table(a, b, r, c)
      {
        if r < i {
          assert next[r] == matrix[r];
        }
      }
      matrix := next;
      i := i + 1;
    }
  }

  /** Lines 11-17: the inner loop, filling row `i` from row `i - 1`. */
  method BuildRow(a: seq<string>, b: seq<string>, i: nat, above: seq<nat>) returns (row: seq<nat>)
    requires 1 <= i <= |a| && |above| == |b| + 1
    requires forall c :: 0 <= c <= |b| ==> above[c] == Table(a, b, i - 1, c)
    ensures |row| == |b| + 1
    ensures forall c :: 0 <= c <= |b| ==> row[c] == Table(a, b, i, c)
  {
    row := [0];
    var j := 1;
    while j <= |b|
      invariant 1 <= j <= |b| + 1
      invariant |row| == j
      invariant forall c :: 0 <= c < j ==> row[c] == Table(a, b, i, c)
    {
      assert above[j - 1] == Table(a, b, i - 1, j - 1);
      assert above[j] == Table(a, b, i - 1, j);
      var cell: nat;
      if a[i - 1] == b[j - 1] {
        cell := 1 + above[j - 1];
      } else {
        cell := if above[j] >= row[j - 1] then above[j] else row[j - 1];
      }
      assert cell == Table(a, b, i, j);
      var longer := row + [cell];
      forall c | 0 <= c <= j ensures longer[c] == Table(a, b, i, c) {
        if c < j {
          assert longer[c] == row[c];
        }
      }
      row := longer;
      j := j + 1;
    }
  }

  /** Lines 20-37: the backward walk from `(n, m)` that prepends one part per
      step until `(0, 0)`. `i + j` drops at every step, and the final
      `else { break; }` is dead code. */
  method WalkBack(oldLines: seq<string>, newLines: seq<string>, matrix: seq<seq<nat>>) returns (diff: seq<DiffPart>)
    requires Shaped(oldLines, newLines, matrix)
    ensures diff == Walk(oldLines, newLines, matrix, |oldLines|, |newLines|)
  {
    var n, m := |oldLines|, |newLines|;
    diff := [];
    var i, j := n, m;
    ghost var whole := Walk(oldLines, newLines, matrix, n, m);
    while i > 0 || j > 0
      invariant 0 <= i <= n && 0 <= j <= m
      invariant Walk(oldLines, newLines, matrix, i, j) + diff == whole
      decreases i + j
    {
      i, j, diff := WalkOnce(oldLines, newLines, matrix, i, j, diff, whole);
    }
  }

  /** One pass of the walk loop's body: the three guarded moves, each
      prepending one part, and the final `else`, which cannot be reached. */
  method WalkOnce(oldLines: seq<string>, newLines: seq<string>, matrix: seq<seq<nat>>, i: nat, j: nat, diff: seq<DiffPart>, ghost whole: seq<DiffPart>)
    returns (i': nat, j': nat, diff': seq<DiffPart>)
    requires Shaped(oldLines, newLines, matrix) && i <= |oldLines| && j <= |newLines|
    requires i > 0 || j > 0
    requires Walk(oldLines, newLines, matrix, i, j) + diff == whole
    ensures i' <= i && j' <= j && i' + j' < i + j
    ensures |diff'| == |diff| + 1 && diff'[0].kind == Move(oldLines, newLines, matrix, i, j)
    ensures i' == (if diff'[0].kind == Added then i else i - 1)
    ensures j' == (if diff'[0].kind == Removed then j else j - 1)
    ensures Walk(oldLines, newLines, matrix, i', j') + diff' == whole
  {
    if i > 0 && j > 0 && oldLines[i - 1] == newLines[j - 1] {
      WalkStepCommon(oldLines, newLines, matrix, i, j, diff, whole);
      diff' := [DiffPart(Common, oldLines[i - 1])] + diff;
      i', j' := i - 1, j - 1;
    } else if j > 0 && (i == 0 || matrix[i][j - 1] >= matrix[i - 1][j]) {
      WalkStepAdded(oldLines, newLines, matrix, i, j, diff, whole);
      diff' := [DiffPart(Added, newLines[j - 1])] + diff;
      i', j' := i, j - 1;
    } else if i > 0 && (j == 0 || matrix[i][j - 1] < matrix[i - 1][j]) {
      WalkStepRemoved(oldLines, newLines, matrix, i, j, diff, whole);
      diff' := [DiffPart(Removed, oldLines[i - 1])] + diff;
      i', j' := i - 1, j;
    } else {
      assert false;
      i', j', diff' := i, j, diff;
    }
  }

  /** `createDiff`: fill the table, then walk back through it. The result
      rebuilds both inputs and keeps an LCS's worth of lines. */
  method CreateDiff(oldLines: seq<string>, newLines: seq<string>) returns (parts: seq<DiffPart>)
    ensures parts == Diff(oldLines, newLines)
    ensures OldSide(parts) == oldLines && NewSide(parts) == newLines
    ensures IsCommonSubseq(CommonLines(parts), oldLines, newLines)
  {
    var matrix := BuildTable(oldLines, newLines);
    parts := WalkBack(oldLines, newLines, matrix);
    TableUnique(oldLines, newLines, matrix);
    assert oldLines[..|oldLines|] == oldLines && newLines[..|newLines|] == newLines;
    WalkRebuildsInputs(oldLines, newLines, matrix, |oldLines|, |newLines|);
    CommonLinesAreCommon(parts);
  }

  /** `DiffViewer`: both texts split on `'\n'`, then diffed. Joining either
      side of the result with `'\n'` gives back the corresponding text. */
  function DiffTexts(oldCode: string, newCode: string): (d: seq<DiffPart>)
    ensures |OldSide(d)| >= 1 && Text.Join(OldSide(d)) == oldCode
    ensures |NewSide(d)| >= 1 && Text.Join(NewSide(d)) == newCode
  {
    var d := Diff(Text.Split(oldCode), Text.Split(newCode));
    DiffIsOptimalEditScript(Text.Split(oldCode), Text.Split(newCode));
    Text.JoinSplit(oldCode);
    Text.JoinSplit(newCode);
    d
  }
}
