/** The row-transfer bookkeeping of the sync service: one polling pass over
    the source sheet, the persisted list of processed signatures, and the
    reconciliation that prunes that list. The spreadsheet is a sequence of
    rows and the JSON file an in-memory value. */
module SheetsSync {
  import opened Text
  import opened Calendar
  import opened Rows
  import opened Pass

  type Sheet = seq<Row>

  /** The processed-rows file: absent, present but empty, unreadable as a
      JSON list of strings, or such a list. */
  datatype StoredFile = Missing | ZeroLength | Malformed | Json(entries: seq<string>)

  /** How a polling pass ended: it ran through the sheet having copied
      `copied` rows, or its exception handler ended it at source row `row`
      (counting from 0). */
  datatype PassOutcome = Completed(copied: nat) | Aborted(row: nat)

  // ---------------------------------------------------------------------
  // The source rows as a pass sees them.
  // ---------------------------------------------------------------------

  /** A row the pass looks at: not blank and approved. */
  predicate IsCandidate(row: Row) {
    !IsBlank(row) && IsApproved(row)
  }

  /** The view of one row; its key and its destination row are only
      looked at when the row is a candidate wide enough to have them. */
  function ViewOf(row: Row): RowView {
    RowView(IsCandidate(row),
            if |row| > SignatureColumn then Signature(row) else "",
            |row|,
            if |row| >= ProjectedWidth then DestinationRow(row) else [])
  }

  /** The view of every source row, in order. The pass reads each row
      through this sequence; ViewAt ties an entry back to its row. */
  function Views(source: Sheet): (vs: seq<RowView>)
    ensures |vs| == |source|
  {
    if source == [] then [] else [ViewOf(source[0])] + Views(source[1..])
  }

  lemma {:induction false} ViewAt(source: Sheet, i: nat)
    requires i < |source|
    ensures Views(source)[i] == ViewOf(source[i])
  {
    if i > 0 {
      ViewAt(source[1..], i - 1);
    }
  }

  /** What the view of row i says about the row itself. */
  lemma ViewMeans(source: Sheet, i: nat)
    requires i < |source|
    ensures Views(source)[i].candidate == IsCandidate(source[i])
    ensures Views(source)[i].width == |source[i]|
    ensures IsCandidate(source[i]) ==> Views(source)[i].key == Signature(source[i])
    ensures |source[i]| >= ProjectedWidth ==> Views(source)[i].projected == DestinationRow(source[i])
  {
    ViewAt(source, i);
  }

  /** One more row of a pass that is still running, in terms of the row
      itself: a blank, unapproved or known row changes nothing, a new row
      too short to project stops the pass there, and any other new row has
      its signature recorded and its destination row written unless the
      write fails. */
  lemma RunNextRow(source: Sheet, i: nat, failing: set<nat>, known: set<string>)
    requires i < |source| && Run(Views(source), i, failing, known).halted.None?
    ensures var p, next, row := Run(Views(source), i, failing, known), Run(Views(source), i + 1, failing, known), source[i];
            && (IsBlank(row) || !IsApproved(row) || Signature(row) in p.keys ==> next == p)
            && (!IsBlank(row) && IsApproved(row) && Signature(row) !in p.keys && |row| < ProjectedWidth ==>
                  next.halted == Some(i))
            && (!IsBlank(row) && IsApproved(row) && Signature(row) !in p.keys && |row| >= ProjectedWidth ==>
                  next == Progress(p.keys + {Signature(row)}, p.copied + [i],
                                   if i in failing then p.appended else p.appended + [DestinationRow(row)],
                                   None))
  {
    ViewAt(source, i);
  }

  // ---------------------------------------------------------------------
  // The reference definitions in terms of the rows themselves.
  // ---------------------------------------------------------------------

  /** ApprovedKeys(Views(source), n) is the set of signatures of the candidate
      rows among the first n. */
  lemma ApprovedKeysMeans(source: Sheet, n: nat)
    requires n <= |source|
    ensures forall k :: k in ApprovedKeys(Views(source), n) <==>
              exists j :: 0 <= j < n && IsCandidate(source[j]) && Signature(source[j]) == k
  {
    forall k ensures k in ApprovedKeys(Views(source), n) <==>
                     exists j :: 0 <= j < n && IsCandidate(source[j]) && Signature(source[j]) == k
    {
      if k in ApprovedKeys(Views(source), n) {
        ApprovedKeysFrom(Views(source), k, n);
        var j :| 0 <= j < n && Views(source)[j].candidate && Views(source)[j].key == k;
        ViewMeans(source, j);
      }
      if exists j :: 0 <= j < n && IsCandidate(source[j]) && Signature(source[j]) == k {
        var j :| 0 <= j < n && IsCandidate(source[j]) && Signature(source[j]) == k;
        ViewMeans(source, j);
        ApprovedKeysContains(Views(source), j, n);
      }
    }
  }

  /** A row is new exactly when it is a candidate whose signature is not
      in the initial set and no earlier candidate row carries it. */
  lemma IsNewMeans(source: Sheet, known: set<string>, j: nat)
    requires j < |source|
    ensures IsNew(Views(source), known, j) <==>
              && IsCandidate(source[j])
              && Signature(source[j]) !in known
              && forall i :: 0 <= i < j && IsCandidate(source[i]) ==> Signature(source[i]) != Signature(source[j])
  {
    ViewMeans(source, j);
    ApprovedKeysMeans(source, j);
  }

  // ---------------------------------------------------------------------
  // What a pass promises.
  // ---------------------------------------------------------------------

  /** The rows a pass copies: exactly the new rows before the point where
      it stopped, once each and in source order. A blank or unapproved row,
      a row whose signature was known, and a repeat of an earlier
      signature are never copied. */
  lemma CopiedRows(source: Sheet, failing: set<nat>, known: set<string>)
    ensures var p := Run(Views(source), |source|, failing, known);
            && (forall j: nat :: j in p.copied <==> j < Stop(p, |source|) && IsNew(Views(source), known, j))
            && (forall a, b :: 0 <= a < b < |p.copied| ==> p.copied[a] < p.copied[b])
            && (forall j :: 0 <= j < |source| && j in p.copied ==>
                  IsCandidate(source[j]) && Signature(source[j]) !in known)
            && (forall j1, j2 ::
                  (0 <= j1 < j2 < |source| && IsCandidate(source[j1]) && IsCandidate(source[j2])
                   && Signature(source[j1]) == Signature(source[j2])) ==> j2 !in p.copied)
  {
    var p := Run(Views(source), |source|, failing, known);
    var stop := Stop(p, |source|);
    RunInvariants(Views(source), |source|, failing, known);
    NewRowsMembers(Views(source), known, stop);
    NewRowsIncreasing(Views(source), known, stop);
    forall j | 0 <= j < |source| && j in p.copied
      ensures IsCandidate(source[j]) && Signature(source[j]) !in known
    {
      IsNewMeans(source, known, j);
    }
    forall j1, j2 | 0 <= j1 < j2 < |source| && IsCandidate(source[j1]) && IsCandidate(source[j2])
                    && Signature(source[j1]) == Signature(source[j2])
      ensures j2 !in p.copied
    {
      IsNewMeans(source, known, j2);
    }
  }

  /** After a pass that was not aborted, the set is the old set plus the
      signature of every approved row, and the count is the number of
      signatures added. */
  lemma CompletedPassKeys(source: Sheet, failing: set<nat>, known: set<string>)
    requires Run(Views(source), |source|, failing, known).halted.None?
    ensures var p := Run(Views(source), |source|, failing, known);
            && (forall k :: k in p.keys <==>
                  (k in known || exists j :: 0 <= j < |source| && IsCandidate(source[j]) && Signature(source[j]) == k))
            && |p.copied| == |p.keys - known|
  {
    RunInvariants(Views(source), |source|, failing, known);
    ApprovedKeysMeans(source, |source|);
  }

  /** An aborted pass stopped at a row that is not blank, approved, new
      and too short to project; every new row before it was copied, and
      the set holds the signatures of the approved rows before it. */
  lemma AbortedPass(source: Sheet, failing: set<nat>, known: set<string>)
    requires Run(Views(source), |source|, failing, known).halted.Some?
    ensures var p := Run(Views(source), |source|, failing, known);
            var h := p.halted.value;
            && h < |source| && IsCandidate(source[h]) && Signature(source[h]) !in p.keys
            && |source[h]| < ProjectedWidth
            && (forall j :: 0 <= j < h && IsNew(Views(source), known, j) ==> j in p.copied && |source[j]| >= ProjectedWidth)
            && (forall k :: k in p.keys <==>
                  (k in known || exists j :: 0 <= j < h && IsCandidate(source[j]) && Signature(source[j]) == k))
  {
    var p := Run(Views(source), |source|, failing, known);
    var h := p.halted.value;
    RunInvariants(Views(source), |source|, failing, known);
    NewRowsMembers(Views(source), known, h);
    ViewMeans(source, h);
    ApprovedKeysMeans(source, h);
    forall j | 0 <= j < h && IsNew(Views(source), known, j) ensures j in p.copied && |source[j]| >= ProjectedWidth {
      assert j in p.copied;
      var k :| 0 <= k < |p.copied| && p.copied[k] == j;
      ViewMeans(source, j);
    }
  }

  /** The rows a pass writes: the destination rows of the copied rows in
      order, minus the ones whose write failed. A failed write still
      records the signature and counts the row. */
  lemma AppendedRows(source: Sheet, failing: set<nat>, known: set<string>)
    ensures var p := Run(Views(source), |source|, failing, known);
            && (forall k :: 0 <= k < |p.copied| ==>
                  p.copied[k] < |source| && |source[p.copied[k]]| >= ProjectedWidth
                  && Signature(source[p.copied[k]]) in p.keys)
            && |p.appended| <= |p.copied|
            && ((forall k :: 0 <= k < |p.copied| ==> p.copied[k] !in failing) ==>
                  |p.appended| == |p.copied|
                  && forall k :: 0 <= k < |p.copied| ==> p.appended[k] == DestinationRow(source[p.copied[k]]))
  {
    var p := Run(Views(source), |source|, failing, known);
    var stop := Stop(p, |source|);
    RunInvariants(Views(source), |source|, failing, known);
    NewRowsMembers(Views(source), known, stop);
    forall k | 0 <= k < |p.copied|
      ensures |source[p.copied[k]]| >= ProjectedWidth && Signature(source[p.copied[k]]) in p.keys
    {
      var j := p.copied[k];
      assert j in p.copied;
      ViewMeans(source, j);
      ApprovedKeysContains(Views(source), j, stop);
    }
    DestinationsBound(Views(source), p.copied, failing);
    if forall k :: 0 <= k < |p.copied| ==> p.copied[k] !in failing {
      DestinationsAll(Views(source), p.copied, failing);
      forall k | 0 <= k < |p.copied| ensures p.appended[k] == DestinationRow(source[p.copied[k]]) {
        ViewMeans(source, p.copied[k]);
      }
    }
  }

  // ---------------------------------------------------------------------
  // The processed-rows file.
  // ---------------------------------------------------------------------

  predicate NoDuplicates(xs: seq<string>) {
    forall i, j :: 0 <= i < j < |xs| ==> xs[i] != xs[j]
  }

  /** xs lists the elements of s, each once, in some order. */
  ghost predicate IsListing(xs: seq<string>, s: set<string>) {
    NoDuplicates(xs) && forall x :: x in xs <==> x in s
  }

  /** list(some_set): the elements of s in an order the set chooses. */
  method ListOf(s: set<string>) returns (xs: seq<string>)
    ensures IsListing(xs, s) && |xs| == |s|
  {
    xs := [];
    var rest := s;
    while rest != {}
      invariant rest <= s
      invariant NoDuplicates(xs)
      invariant forall x :: x in xs <==> x in s && x !in rest
      invariant |xs| + |rest| == |s|
      decreases |rest|
    {
      var x :| x in rest;
      xs := xs + [x];
      rest := rest - {x};
    }
  }

  /** load_processed_rows: the set of the file's list, and the empty set
      when the file is absent or cannot be read as such a list. */
  function LoadProcessedRows(f: StoredFile): set<string> {
    if f.Json? then set x | x in f.entries else {}
  }

  /** Loading what was saved gives the saved set back, whatever order the
      list was written in. */
  lemma SaveThenLoad(xs: seq<string>, s: set<string>)
    requires IsListing(xs, s)
    ensures LoadProcessedRows(Json(xs)) == s
  {
  }

  // ---------------------------------------------------------------------
  // Reconciliation: pruning the file against the source sheet.
  // ---------------------------------------------------------------------

  /** The stripped cell 1 of every non-empty source row, in order; None
      when a non-empty row has no cell 1, so that indexing it fails. */
  function LiveKeys(source: Sheet): Option<seq<string>> {
    if source == [] then Some([])
    else
      var rest := LiveKeys(source[1..]);
      if |source[0]| == 1 then None
      else if rest.None? then None
      else if |source[0]| == 0 then rest
      else Some([Strip(source[0][1])] + rest.value)
  }

  /** LiveKeys fails exactly on a sheet with a one-cell row, and otherwise
      lists the stripped cell 1 of each row that has one. */
  lemma {:induction false} LiveKeysMeans(source: Sheet)
    ensures LiveKeys(source).None? <==> exists i :: 0 <= i < |source| && |source[i]| == 1
    ensures LiveKeys(source).Some? ==> forall k :: k in LiveKeys(source).value <==>
              exists i :: 0 <= i < |source| && |source[i]| > 1 && Strip(source[i][1]) == k
  {
    if source != [] {
      LiveKeysMeans(source[1..]);
      assert forall i :: 1 <= i < |source| ==> source[i] == source[1..][i - 1];
      if LiveKeys(source).Some? {
        forall k | exists i :: 0 <= i < |source| && |source[i]| > 1 && Strip(source[i][1]) == k
          ensures k in LiveKeys(source).value
        {
          var i :| 0 <= i < |source| && |source[i]| > 1 && Strip(source[i][1]) == k;
          if i > 0 {
            assert source[1..][i - 1] == source[i];
          }
        }
      }
    }
  }

  /** The entries of a list whose stripped form is one of the live keys, in
      their original order and spelling. */
  function Kept(lines: seq<string>, live: seq<string>): seq<string> {
    if lines == [] then []
    else
      var last := lines[|lines| - 1];
      Kept(lines[..|lines| - 1], live) + (if Strip(last) in live then [last] else [])
  }

  /** xs is ys with some entries deleted. */
  predicate IsSubsequence(xs: seq<string>, ys: seq<string>)
    decreases |ys|
  {
    if ys == [] then xs == []
    else
      || (xs != [] && xs[|xs| - 1] == ys[|ys| - 1] && IsSubsequence(xs[..|xs| - 1], ys[..|ys| - 1]))
      || IsSubsequence(xs, ys[..|ys| - 1])
  }

  lemma {:induction false} SubsequenceOfItself(xs: seq<string>)
    ensures IsSubsequence(xs, xs)
  {
    if xs != [] {
      SubsequenceOfItself(xs[..|xs| - 1]);
    }
  }

  /** Kept keeps the order of the entries it keeps. */
  lemma {:induction false} KeptSubsequence(lines: seq<string>, live: seq<string>)
    ensures IsSubsequence(Kept(lines, live), lines)
  {
    if lines != [] {
      var init, last := lines[..|lines| - 1], lines[|lines| - 1];
      KeptSubsequence(init, live);
      var k := Kept(lines, live);
      if Strip(last) in live {
        assert k == Kept(init, live) + [last];
        assert k[..|k| - 1] == Kept(init, live) && k[|k| - 1] == last;
      } else {
        assert k == Kept(init, live);
      }
    }
  }

  /** Kept keeps each live entry as often as it occurs and drops every
      other one. */
  lemma {:induction false} KeptMultiplicity(lines: seq<string>, live: seq<string>)
    ensures forall x :: multiset(Kept(lines, live))[x] == if Strip(x) in live then multiset(lines)[x] else 0
  {
    if lines != [] {
      var init, last := lines[..|lines| - 1], lines[|lines| - 1];
      KeptMultiplicity(init, live);
      assert lines == init + [last];
      assert multiset(lines) == multiset(init) + multiset{last};
      var k := Kept(lines, live);
      if Strip(last) in live {
        assert multiset(k) == multiset(Kept(init, live)) + multiset{last};
      } else {
        assert k == Kept(init, live);
      }
    }
  }

  lemma KeptMembers(lines: seq<string>, live: seq<string>)
    ensures forall x :: x in Kept(lines, live) <==> x in lines && Strip(x) in live
  {
    KeptMultiplicity(lines, live);
    forall x ensures x in Kept(lines, live) <==> x in lines && Strip(x) in live {
      assert x in Kept(lines, live) <==> multiset(Kept(lines, live))[x] > 0;
      assert x in lines <==> multiset(lines)[x] > 0;
    }
  }

  /** Pruning twice is pruning once. */
  lemma {:induction false} KeptIdempotent(lines: seq<string>, live: seq<string>)
    ensures Kept(Kept(lines, live), live) == Kept(lines, live)
  {
    if lines != [] {
      var init, last := lines[..|lines| - 1], lines[|lines| - 1];
      KeptIdempotent(init, live);
      var k := Kept(lines, live);
      if Strip(last) in live {
        assert k == Kept(init, live) + [last];
        assert k[..|k| - 1] == Kept(init, live) && k[|k| - 1] == last;
        assert Kept(k, live) == Kept(Kept(init, live), live) + [last];
      } else {
        assert k == Kept(init, live);
      }
    }
  }

  /** delete_row_from_file on the file's state: a missing file becomes an
      empty list, a zero-length or unreadable file stays, and a list is
      pruned to its live entries unless reading the sheet's keys fails. */
  function Reconciled(f: StoredFile, source: Sheet): StoredFile {
    match f
    case Missing => Json([])
    case ZeroLength => ZeroLength
    case Malformed => Malformed
    case Json(lines) =>
      match LiveKeys(source)
      case None => f
      case Some(live) => Json(Kept(lines, live))
  }

  /** Reconciling against the same sheet a second time changes nothing. */
  lemma ReconcileIdempotent(f: StoredFile, source: Sheet)
    ensures Reconciled(Reconciled(f, source), source) == Reconciled(f, source)
  {
    if f.Json? && LiveKeys(source).Some? {
      KeptIdempotent(f.entries, LiveKeys(source).value);
    }
  }

  /** The entries a reconciliation keeps are the old entries, in their
      order, whose stripped form is the stripped cell 1 of some source row;
      a sheet with a one-cell row leaves the list as it was. */
  lemma ReconciledEntries(lines: seq<string>, source: Sheet)
    ensures (exists i :: 0 <= i < |source| && |source[i]| == 1) ==> Reconciled(Json(lines), source) == Json(lines)
    ensures Reconciled(Json(lines), source).Json?
    ensures var kept := Reconciled(Json(lines), source).entries;
            && IsSubsequence(kept, lines)
            && ((forall i :: 0 <= i < |source| ==> |source[i]| != 1) ==> forall x :: x in kept <==>
                 (x in lines && exists i :: 0 <= i < |source| && |source[i]| > 1 && Strip(source[i][1]) == Strip(x)))
  {
    LiveKeysMeans(source);
    if LiveKeys(source).Some? {
      KeptSubsequence(lines, LiveKeys(source).value);
      KeptMembers(lines, LiveKeys(source).value);
    } else {
      SubsequenceOfItself(lines);
    }
  }

  lemma LiveKeysExample(source: Sheet)
    requires source == [["1", "A"]]
    ensures LiveKeys(source) == Some(["A"])
  {
    var key := source[0][1];
    StripUnchanged(key);
    assert source[1..] == [] && LiveKeys(source[1..]) == Some([]);
    assert LiveKeys(source) == Some([key] + []);
    assert [key] + [] == ["A"];
  }

  lemma KeptExample(lines: seq<string>)
    requires lines == ["A", "B"]
    ensures Kept(lines, ["A"]) == ["A"]
  {
    var a, b := lines[0], lines[1];
    StripUnchanged(a);
    StripUnchanged(b);
    assert lines[..1] == [a] && [a][..0] == [];
  }

  /** The file lists "A" and "B" and the sheet still has a row keyed "A":
      reconciliation leaves the file listing just "A". */
  lemma ReconcileExample(source: Sheet)
    requires source == [["1", "A"]]
    ensures Reconciled(Json(["A", "B"]), source) == Json(["A"])
  {
    LiveKeysExample(source);
    KeptExample(["A", "B"]);
  }

  // ---------------------------------------------------------------------
  // The service object.
  // ---------------------------------------------------------------------

  class GoogleSheetsSync {
    /** self.processed_rows: the signatures of rows already copied. */
    var processed: set<string>
    /** The processed-rows file. */
    var file: StoredFile
    /** The destination sheet, as its rows read back. */
    var target: Sheet

    /** The service starts with the set loaded from the file. */
    constructor (stored: StoredFile, destination: Sheet)
      ensures processed == LoadProcessedRows(stored)
      ensures file == stored && target == destination
    {
      processed := LoadProcessedRows(stored);
      file := stored;
      target := destination;
    }

    /** save_processed_rows: the file becomes a list of the set. */
    method SaveProcessedRows()
      modifies this`file
      ensures file.Json? && IsListing(file.entries, processed)
      ensures LoadProcessedRows(file) == processed
    {
      var entries := ListOf(processed);
      file := Json(entries);
      SaveThenLoad(entries, processed);
    }

    /** insert_row_from_column_a: write the row at row number len + 1 of
        the destination, just past its current extent; a failed write
        (`fails`) is swallowed and leaves the sheet as it was. */
    method InsertRowFromColumnA(rowData: Row, fails: bool) returns (rowNumber: nat)
      modifies this`target
      ensures rowNumber == |old(target)| + 1
      ensures target == if fails then old(target) else old(target) + [rowData]
      ensures !fails ==> target[rowNumber - 1] == rowData
    {
      rowNumber := |target| + 1;
      if !fails {
        target := target + [rowData];
      }
    }

    /** The body of the loop in check_and_copy_rows, on source row i of a
        pass that is still running: skip the row, or record and write it.
        `stop` is the IndexError raised while building the destination
        row of a new row that is too short, which ends the pass. */
    method CopyRow(source: Sheet, i: nat, failing: set<nat>, ghost known: set<string>, ghost base: Sheet)
      returns (stop: bool, copied: bool)
      requires i < |source| && Run(Views(source), i, failing, known).halted.None?
      requires processed == Run(Views(source), i, failing, known).keys
      requires target == base + Run(Views(source), i, failing, known).appended
      modifies this`processed, this`target
      ensures var p, next := Run(Views(source), i, failing, known), Run(Views(source), i + 1, failing, known);
              && processed == next.keys
              && target == base + next.appended
              && next.halted == (if stop then Some(i) else None)
              && |next.copied| == |p.copied| + (if copied then 1 else 0)
    {
      var row := source[i];
      RunNextRow(source, i, failing, known);
      stop, copied := false, false;
      if IsBlank(row) {
        return;
      }
      if IsApproved(row) {
        var rowSignature := Signature(row);
        if rowSignature !in processed {
          if |row| < ProjectedWidth {
            return true, false;
          }
          var newRow := DestinationRow(row);
          var _ := InsertRowFromColumnA(newRow, i in failing);
          processed := processed + {rowSignature};
          copied := true;
        }
      }
    }

    /** check_and_copy_rows: one polling pass over the source sheet; the
        writes of the rows in `failing` fail. */
    method CheckAndCopyRows(source: Sheet, failing: set<nat>) returns (outcome: PassOutcome)
      modifies this`processed, this`target, this`file
      ensures var p := Run(Views(source), |source|, failing, old(processed));
              && processed == p.keys
              && target == old(target) + p.appended
              && outcome == (if p.halted.Some? then Aborted(p.halted.value) else Completed(|p.copied|))
              && if p.halted.None? && |p.copied| > 0
                 then file.Json? && IsListing(file.entries, processed)
                 else file == old(file)
    {
      ghost var known := old(processed);
      ghost var progress := Start(known);
      var newRowsCopied := 0;
      for i := 0 to |source|
        invariant progress == Run(Views(source), i, failing, known) && progress.halted.None?
        invariant processed == progress.keys
        invariant target == old(target) + progress.appended
        invariant newRowsCopied == |progress.copied|
        invariant file == old(file)
      {
        var stop, copied := CopyRow(source, i, failing, known, old(target));
        progress := Run(Views(source), i + 1, failing, known);
        if stop {
          HaltedRunStays(Views(source), i + 1, |source|, failing, known);
          return Aborted(i);
        }
        if copied {
          newRowsCopied := newRowsCopied + 1;
        }
      }
      if newRowsCopied > 0 {
        SaveProcessedRows();
      }
      outcome := Completed(newRowsCopied);
    }

    /** delete_row_from_file: prune the file against the source sheet. The
        in-memory set is not touched. */
    method DeleteRowFromFile(source: Sheet)
      modifies this`file
      ensures file == Reconciled(old(file), source)
      ensures processed == old(processed)
    {
      match file
      case Missing =>
        file := Json([]);
      case ZeroLength =>
      case Malformed =>
      case Json(lines) =>
        var dataTable := LiveKeys(source);
        if dataTable.Some? {
          var newLines := [];
          for k := 0 to |lines|
            invariant newLines == Kept(lines[..k], dataTable.value)
          {
            var line := lines[k];
            var cleanLine := Strip(line);
            assert lines[..k + 1][..k] == lines[..k];
            if cleanLine in dataTable.value {
              newLines := newLines + [line];
            }
          }
          assert lines[..|lines|] == lines;
          file := Json(newLines);
        }
    }

    /** One round of the monitoring loop: reconcile the file, then run a
        pass. A pass that copies rewrites the file from the in-memory set,
        so the entries reconciliation dropped come back. */
    method MonitorIteration(source: Sheet, failing: set<nat>) returns (outcome: PassOutcome)
      modifies this`processed, this`target, this`file
      ensures var p := Run(Views(source), |source|, failing, old(processed));
              && processed == p.keys
              && target == old(target) + p.appended
              && outcome == (if p.halted.Some? then Aborted(p.halted.value) else Completed(|p.copied|))
              && if p.halted.None? && |p.copied| > 0
                 then file.Json? && IsListing(file.entries, processed) && old(processed) <= LoadProcessedRows(file)
                 else file == Reconciled(old(file), source)
    {
      DeleteRowFromFile(source);
      outcome := CheckAndCopyRows(source, failing);
      RunInvariants(Views(source), |source|, failing, old(processed));
    }
  }
}
