/** One polling pass of the sync service, over the views of the source
    rows: which rows it copies, the signature set it keeps, the rows it
    writes, and where its exception handler stops it. Nothing here looks
    inside a row; the meaning of a view is given where views are built. */
module Pass {
  import opened Calendar
  import opened Rows

  /** What a pass uses of one row: whether it is a candidate, its signature,
      its width, and its destination row when it is wide enough to have one. */
  datatype RowView = RowView(candidate: bool, key: string, width: nat, projected: Row)

  // ---------------------------------------------------------------------
  // Reference definitions of what a pass selects, with no state in them.
  // ---------------------------------------------------------------------

  /** The signatures of the candidate rows among the first n rows. */
  function ApprovedKeys(vs: seq<RowView>, n: nat): set<string>
    requires n <= |vs|
  {
    if n == 0 then {}
    else
      var v := vs[n - 1];
      ApprovedKeys(vs, n - 1) + (if v.candidate then {v.key} else {})
  }

  /** Row j is one to copy: a candidate whose signature was neither known
      before the pass nor carried by an earlier candidate row. */
  predicate IsNew(vs: seq<RowView>, known: set<string>, j: nat)
    requires j < |vs|
  {
    var v := vs[j];
    v.candidate && v.key !in known + ApprovedKeys(vs, j)
  }

  /** The rows to copy among the first n, in sheet order. */
  function NewRows(vs: seq<RowView>, known: set<string>, n: nat): seq<nat>
    requires n <= |vs|
  {
    if n == 0 then []
    else NewRows(vs, known, n - 1) + (if IsNew(vs, known, n - 1) then [n - 1] else [])
  }

  /** Every listed index is a row of the sheet. */
  predicate InRange(vs: seq<RowView>, rows: seq<nat>) {
    forall k :: 0 <= k < |rows| ==> rows[k] < |vs|
  }

  /** The destination rows that the given rows produce, leaving out
      the rows whose write fails. */
  function Destinations(vs: seq<RowView>, rows: seq<nat>, failing: set<nat>): seq<Row>
    requires InRange(vs, rows)
  {
    if rows == [] then []
    else
      var init, last := rows[..|rows| - 1], rows[|rows| - 1];
      assert forall k :: 0 <= k < |init| ==> init[k] == rows[k];
      Destinations(vs, init, failing)
        + (if last in failing then [] else [vs[last].projected])
  }

  // ---------------------------------------------------------------------
  // One pass, row by row.
  // ---------------------------------------------------------------------

  /** What a pass has done so far: the signature set, the rows whose key it
      recorded (in order), the rows it wrote, and the row its exception
      handler stopped it at, if any. */
  datatype Progress = Progress(keys: set<string>, copied: seq<nat>, appended: seq<Row>, halted: Option<nat>)

  function Start(known: set<string>): Progress {
    Progress(known, [], [], None)
  }

  /** The effect of row i on a pass: skip it, stop at it because it
      is too short to project, or record its signature and write it. */
  function Step(p: Progress, vs: seq<RowView>, i: nat, failing: set<nat>): Progress
    requires i < |vs|
  {
    var v := vs[i];
    if p.halted.Some? || !v.candidate || v.key in p.keys then p
    else if v.width < ProjectedWidth then p.(halted := Some(i))
    else
      Progress(p.keys + {v.key}, p.copied + [i],
               if i in failing then p.appended else p.appended + [v.projected],
               None)
  }

  /** The pass after its first n rows. */
  function Run(vs: seq<RowView>, n: nat, failing: set<nat>, known: set<string>): (p: Progress)
    requires n <= |vs|
    ensures p.halted.Some? ==> p.halted.value < n
    ensures forall k :: 0 <= k < |p.copied| ==> p.copied[k] < n
  {
    if n == 0 then Start(known)
    else
      var q := Run(vs, n - 1, failing, known);
      var p := Step(q, vs, n - 1, failing);
      assert forall k :: 0 <= k < |q.copied| ==> p.copied[k] == q.copied[k];
      p
  }

  /** The number of rows the pass got through. */
  function Stop(p: Progress, n: nat): nat {
    if p.halted.Some? then p.halted.value else n
  }

  // Each fact about Run is proved for one Step first.

  /** Where a pass stopped and why, the set it holds and the rows it
      copied, stated against the reference definitions. */
  predicate MatchesReference(p: Progress, vs: seq<RowView>, n: nat, known: set<string>)
    requires n <= |vs|
  {
    var stop := Stop(p, n);
    && stop <= n
    && (p.halted.Some? ==> stop < n && IsNew(vs, known, stop) && vs[stop].width < ProjectedWidth)
    && p.keys == known + ApprovedKeys(vs, stop)
    && p.copied == NewRows(vs, known, stop)
  }

  lemma StepMatches(q: Progress, vs: seq<RowView>, i: nat, failing: set<nat>, known: set<string>)
    requires i < |vs| && MatchesReference(q, vs, i, known)
    ensures MatchesReference(Step(q, vs, i, failing), vs, i + 1, known)
  {
    if q.halted.None? {
      var v := vs[i];
      if v.candidate {
        assert ApprovedKeys(vs, i + 1) == ApprovedKeys(vs, i) + {v.key};
      } else {
        assert ApprovedKeys(vs, i + 1) == ApprovedKeys(vs, i);
      }
      if IsNew(vs, known, i) {
        assert NewRows(vs, known, i + 1) == NewRows(vs, known, i) + [i];
      } else {
        assert NewRows(vs, known, i + 1) == NewRows(vs, known, i);
      }
    }
  }

  /** Every copied row is wide enough to project. */
  predicate AllWide(vs: seq<RowView>, rows: seq<nat>) {
    forall k :: 0 <= k < |rows| ==> rows[k] < |vs| && vs[rows[k]].width >= ProjectedWidth
  }

  lemma StepWide(q: Progress, vs: seq<RowView>, i: nat, failing: set<nat>)
    requires i < |vs| && AllWide(vs, q.copied)
    ensures AllWide(vs, Step(q, vs, i, failing).copied)
  {
    var p := Step(q, vs, i, failing);
    if p.copied != q.copied {
      assert p.copied == q.copied + [i];
    }
  }

  lemma DestinationsSnoc(vs: seq<RowView>, rows: seq<nat>, i: nat, failing: set<nat>)
    requires InRange(vs, rows) && i < |vs|
    ensures InRange(vs, rows + [i])
    ensures Destinations(vs, rows + [i], failing)
            == Destinations(vs, rows, failing) + (if i in failing then [] else [vs[i].projected])
  {
    assert (rows + [i])[..|rows|] == rows;
    assert (rows + [i])[|rows|] == i;
  }

  lemma StepAppended(q: Progress, vs: seq<RowView>, i: nat, failing: set<nat>)
    requires i < |vs| && InRange(vs, q.copied)
    requires q.appended == Destinations(vs, q.copied, failing)
    ensures InRange(vs, Step(q, vs, i, failing).copied)
    ensures Step(q, vs, i, failing).appended == Destinations(vs, Step(q, vs, i, failing).copied, failing)
  {
    var p := Step(q, vs, i, failing);
    DestinationsSnoc(vs, q.copied, i, failing);
    if p.copied != q.copied {
      assert p.copied == q.copied + [i];
      assert p.appended == q.appended + (if i in failing then [] else [vs[i].projected]);
    } else {
      assert p.appended == q.appended;
    }
  }

  /** Adding a key that is not yet in a set adds one to what it holds
      beyond a subset. */
  lemma AddedKey(keys: set<string>, known: set<string>, key: string)
    requires known <= keys && key !in keys
    ensures known <= keys + {key}
    ensures |(keys + {key}) - known| == |keys - known| + 1
  {
    assert (keys + {key}) - known == (keys - known) + {key};
  }

  lemma StepCount(q: Progress, vs: seq<RowView>, i: nat, failing: set<nat>, known: set<string>)
    requires i < |vs| && known <= q.keys && |q.copied| == |q.keys - known|
    ensures var p := Step(q, vs, i, failing);
            known <= p.keys && |p.copied| == |p.keys - known|
  {
    var p := Step(q, vs, i, failing);
    if p.copied != q.copied {
      AddedKey(q.keys, known, vs[i].key);
    }
  }

  lemma {:induction false} RunInvariants(vs: seq<RowView>, n: nat, failing: set<nat>, known: set<string>)
    requires n <= |vs|
    ensures var p := Run(vs, n, failing, known);
            && MatchesReference(p, vs, n, known)
            && AllWide(vs, p.copied)
            && InRange(vs, p.copied)
            && p.appended == Destinations(vs, p.copied, failing)
            && known <= p.keys && |p.copied| == |p.keys - known|
  {
    if n > 0 {
      RunInvariants(vs, n - 1, failing, known);
      var q := Run(vs, n - 1, failing, known);
      StepMatches(q, vs, n - 1, failing, known);
      StepWide(q, vs, n - 1, failing);
      StepAppended(q, vs, n - 1, failing);
      StepCount(q, vs, n - 1, failing, known);
    }
  }

  lemma StepHalted(q: Progress, vs: seq<RowView>, i: nat, failing: set<nat>)
    requires i < |vs| && q.halted.Some?
    ensures Step(q, vs, i, failing) == q
  {
  }

  /** Once the handler has ended a pass, later rows change nothing. */
  lemma {:induction false} HaltedRunStays(vs: seq<RowView>, m: nat, n: nat, failing: set<nat>, known: set<string>)
    requires m <= n <= |vs| && Run(vs, m, failing, known).halted.Some?
    ensures Run(vs, n, failing, known) == Run(vs, m, failing, known)
    decreases n - m
  {
    if m < n {
      HaltedRunStays(vs, m, n - 1, failing, known);
      StepHalted(Run(vs, n - 1, failing, known), vs, n - 1, failing);
    }
  }

  // ---------------------------------------------------------------------
  // Properties of the reference definitions.
  // ---------------------------------------------------------------------

  lemma {:induction false} ApprovedKeysContains(vs: seq<RowView>, j: nat, n: nat)
    requires j < n <= |vs| && vs[j].candidate
    ensures vs[j].key in ApprovedKeys(vs, n)
    decreases n
  {
    if j < n - 1 {
      ApprovedKeysContains(vs, j, n - 1);
    }
  }

  lemma {:induction false} ApprovedKeysFrom(vs: seq<RowView>, k: string, n: nat)
    requires n <= |vs| && k in ApprovedKeys(vs, n)
    ensures exists j :: 0 <= j < n && vs[j].candidate && vs[j].key == k
  {
    var v := vs[n - 1];
    if k !in ApprovedKeys(vs, n - 1) {
      assert v.candidate && v.key == k;
    } else {
      ApprovedKeysFrom(vs, k, n - 1);
    }
  }

  lemma {:induction false} NewRowsMembers(vs: seq<RowView>, known: set<string>, n: nat)
    requires n <= |vs|
    ensures forall j: nat :: j in NewRows(vs, known, n) <==> j < n && IsNew(vs, known, j)
  {
    if n > 0 {
      NewRowsMembers(vs, known, n - 1);
      var r := NewRows(vs, known, n - 1);
      var t := NewRows(vs, known, n);
      assert t == r + if IsNew(vs, known, n - 1) then [n - 1] else [];
      forall j: nat ensures j in t <==> j < n && IsNew(vs, known, j) {
        if j < n - 1 {
          assert j in t <==> j in r;
        }
      }
    }
  }

  predicate Increasing(xs: seq<nat>) {
    forall a, b :: 0 <= a < b < |xs| ==> xs[a] < xs[b]
  }

  lemma {:induction false} NewRowsIncreasing(vs: seq<RowView>, known: set<string>, n: nat)
    requires n <= |vs|
    ensures Increasing(NewRows(vs, known, n))
    ensures forall k :: 0 <= k < |NewRows(vs, known, n)| ==> NewRows(vs, known, n)[k] < n
  {
    if n > 0 {
      NewRowsIncreasing(vs, known, n - 1);
      var r := NewRows(vs, known, n - 1);
      if IsNew(vs, known, n - 1) {
        assert NewRows(vs, known, n) == r + [n - 1];
      } else {
        assert NewRows(vs, known, n) == r;
      }
    }
  }

  lemma {:induction false} NoNewRows(vs: seq<RowView>, known: set<string>, n: nat)
    requires n <= |vs| && forall j :: 0 <= j < n ==> !IsNew(vs, known, j)
    ensures NewRows(vs, known, n) == []
  {
    if n > 0 {
      NoNewRows(vs, known, n - 1);
    }
  }

  /** No more rows are written than are counted. */
  lemma {:induction false} DestinationsBound(vs: seq<RowView>, rows: seq<nat>, failing: set<nat>)
    requires InRange(vs, rows)
    ensures |Destinations(vs, rows, failing)| <= |rows|
  {
    if rows != [] {
      var init := rows[..|rows| - 1];
      assert forall k :: 0 <= k < |init| ==> init[k] == rows[k];
      DestinationsBound(vs, init, failing);
    }
  }

  /** When no write fails, every counted row is written, in the order of
      the count. */
  lemma {:induction false} DestinationsAll(vs: seq<RowView>, rows: seq<nat>, failing: set<nat>)
    requires InRange(vs, rows) && forall k :: 0 <= k < |rows| ==> rows[k] !in failing
    ensures |Destinations(vs, rows, failing)| == |rows|
    ensures forall k :: 0 <= k < |rows| ==> Destinations(vs, rows, failing)[k] == vs[rows[k]].projected
  {
    if rows != [] {
      var init, last := rows[..|rows| - 1], rows[|rows| - 1];
      assert forall k :: 0 <= k < |init| ==> init[k] == rows[k];
      DestinationsAll(vs, init, failing);
      var d := Destinations(vs, init, failing);
      assert Destinations(vs, rows, failing) == d + [vs[last].projected];
    }
  }

  /** A second pass over the same sheet, started from the set the first
      pass left, copies nothing, writes nothing, keeps the set, and stops
      where the first one stopped. */
  lemma PassIdempotent(vs: seq<RowView>, failing1: set<nat>, failing2: set<nat>, known: set<string>)
    ensures var p := Run(vs, |vs|, failing1, known);
            var q := Run(vs, |vs|, failing2, p.keys);
            q.keys == p.keys && q.copied == [] && q.appended == [] && q.halted == p.halted
  {
    var n := |vs|;
    var p := Run(vs, n, failing1, known);
    var q := Run(vs, n, failing2, p.keys);
    RunInvariants(vs, n, failing1, known);
    RunInvariants(vs, n, failing2, p.keys);
    var sp := Stop(p, n);
    var sq := Stop(q, n);
    forall j | 0 <= j < sp ensures !IsNew(vs, p.keys, j) {
      if vs[j].candidate {
        ApprovedKeysContains(vs, j, sp);
      }
    }
    NewRowsMembers(vs, p.keys, sq);
    if p.halted.Some? {
      assert IsNew(vs, p.keys, sp);
      assert sp !in q.copied;
    }
    assert sq == sp;
    NoNewRows(vs, p.keys, sq);
  }
}
