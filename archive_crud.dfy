/** crud_table of airbase/archive/tools.py: the first-match reconciliation of
    the older engine. Each new record is posted, or updated against the first
    existing record that agrees on the match fields; afterwards the existing
    records nothing matched are deleted, in ascending position. */
module ArchiveCrud {
  import opened Values
  import opened Tools
  import opened Remote
  import opened ArchiveTools
  import opened CruderSync

  /** The calls made for one new record and the existing position it was
      matched with (recorded only when updating); None for an exception: a
      record without fields has no name, record_exists can raise a KeyError,
      and a compare_records that swallowed an exception returns None, which
      cannot be indexed. */
  function CrudStep(record: Record, existing: seq<Record>, matchFields: seq<string>, overrides: seq<Rule>,
                    update: bool): Option<(seq<Op>, seq<nat>)>
  {
    if record.fields == map[] then None
    else if existing == [] then Some(([PostRecord(record)], []))
    else match RecordExistsResult(record, existing, matchFields)
      case None => None
      case Some(None) => Some(([PostRecord(record)], []))
      case Some(Some(i)) =>
        if !update then Some(([], []))
        else if i >= |existing| then None
        else match Compared(record, existing[i], "overwrite", overrides, [], []).1
          case None => None
          case Some(r) => Some((if |r.fields| > 0 then [UpdateRecord(r)] else [], [i]))
  }

  /** The pass over the new records: the calls, the matched positions, and
      whether an exception ended it. */
  datatype Pass = Pass(ops: seq<Op>, matched: seq<nat>, raised: bool)

  function NewPass(records: seq<Record>, existing: seq<Record>, matchFields: seq<string>, overrides: seq<Rule>,
                   update: bool): Pass
    decreases |records|
  {
    if records == [] then Pass([], [], false)
    else
      var n := |records| - 1;
      var p := NewPass(records[..n], existing, matchFields, overrides, update);
      if p.raised then p
      else match CrudStep(records[n], existing, matchFields, overrides, update)
        case None => Pass(p.ops, p.matched, true)
        case Some(step) => Pass(p.ops + step.0, p.matched + step.1, false)
  }

  /** The pass over the dead positions: a dead record without fields has no
      name (an exception); the others are deleted when `delete` is set. */
  function DeadPass(existing: seq<Record>, dead: seq<nat>, delete: bool): Run
    requires forall j :: 0 <= j < |dead| ==> dead[j] < |existing|
    decreases |dead|
  {
    if dead == [] then Run([], false)
    else
      var n := |dead| - 1;
      var run := DeadPass(existing, dead[..n], delete);
      if run.raised then run
      else if existing[dead[n]].fields == map[] then Run(run.ops, true)
      else Run(run.ops + (if delete then [DeleteRecord(existing[dead[n]])] else []), false)
  }

  /** crud_table: the new-record pass, then, when the table had records, the
      dead-record pass over the positions nothing matched. */
  function CrudRun(existing: seq<Record>, records: seq<Record>, matchFields: seq<string>, overrides: seq<Rule>,
                   update: bool, delete: bool): Run
  {
    var p := NewPass(records, existing, matchFields, overrides, update);
    if p.raised then Run(p.ops, true)
    else if existing == [] then Run(p.ops, false)
    else
      var d := DeadPass(existing, DeadList(|existing|, p.matched), delete);
      Run(p.ops + d.ops, d.raised)
  }

  /** The body of the loop over the new records. */
  method CrudRecord(table: Table, record: Record, existing: seq<Record>, matchFields: seq<string>,
                    overrides: seq<Rule>, update: bool) returns (raised: bool, matched: seq<nat>)
    modifies table
    ensures var step := CrudStep(record, existing, matchFields, overrides, update);
      && (raised <==> step.None?)
      && (raised ==> table.trace == old(table.trace))
      && (!raised ==> table.trace == old(table.trace) + step.value.0 && matched == step.value.1)
  {
    matched := [];
    if record.fields == map[] {
      return true, matched;
    }
    if existing != [] {
      var found := RecordExists(record, existing, matchFields);
      if found.None? {
        return true, matched;
      }
      if found.value.Some? {
        var i := found.value.value;
        if update {
          if i >= |existing| {
            return true, matched;
          }
          matched := [i];
          var compared := Compared(record, existing[i], "overwrite", overrides, [], []).1;
          if compared.None? {
            return true, matched;
          }
          if |compared.value.fields| > 0 {
            table.Send(UpdateRecord(compared.value));
          }
        }
      } else {
        table.Send(PostRecord(record));
      }
    } else {
      table.Send(PostRecord(record));
    }
    raised := false;
  }

  /** crud_table against a table whose records `existing` were fetched
      before; the calls are appended to the table's trace. */
  method CrudTable(table: Table, existing: seq<Record>, records: seq<Record>, matchFields: seq<string>,
                   overrides: seq<Rule>, update: bool, delete: bool) returns (raised: bool)
    modifies table
    ensures var run := CrudRun(existing, records, matchFields, overrides, update, delete);
      table.trace == old(table.trace) + run.ops && raised == run.raised
  {
    ghost var start := table.trace;
    ghost var p := NewPass(records, existing, matchFields, overrides, update);
    var updatedIndices;
    raised, updatedIndices := CrudNewRecords(table, existing, records, matchFields, overrides, update);
    if raised || existing == [] {
      return;
    }
    var dead := DeadIndices(|existing|, updatedIndices);
    ghost var middle := table.trace;
    raised := CrudDeadRecords(table, existing, dead, delete);
    ghost var d := DeadPass(existing, dead, delete);
    assert CrudRun(existing, records, matchFields, overrides, update, delete) == Run(p.ops + d.ops, d.raised);
    assert table.trace == start + (p.ops + d.ops) by {
      assert table.trace == middle + d.ops && middle == start + p.ops;
    }
  }

  /** The loop over the new records. */
  method CrudNewRecords(table: Table, existing: seq<Record>, records: seq<Record>, matchFields: seq<string>,
                        overrides: seq<Rule>, update: bool) returns (raised: bool, updatedIndices: seq<nat>)
    modifies table
    ensures var p := NewPass(records, existing, matchFields, overrides, update);
      && table.trace == old(table.trace) + p.ops && raised == p.raised
      && (!raised ==> updatedIndices == p.matched)
  {
    ghost var start := table.trace;
    updatedIndices := [];
    for k := 0 to |records|
      invariant var p := NewPass(records[..k], existing, matchFields, overrides, update);
        !p.raised && table.trace == start + p.ops && updatedIndices == p.matched
    {
      assert records[..k + 1][..k] == records[..k];
      var stepRaised, stepMatched := CrudRecord(table, records[k], existing, matchFields, overrides, update);
      if stepRaised {
        NewPassRaisedStays(records, existing, matchFields, overrides, update, k + 1);
        return true, updatedIndices;
      }
      updatedIndices := updatedIndices + stepMatched;
    }
    assert records[..|records|] == records;
    raised := false;
  }

  /** The loop over the dead positions. */
  method CrudDeadRecords(table: Table, existing: seq<Record>, dead: seq<nat>, delete: bool) returns (raised: bool)
    requires forall j :: 0 <= j < |dead| ==> dead[j] < |existing|
    modifies table
    ensures var d := DeadPass(existing, dead, delete);
      table.trace == old(table.trace) + d.ops && raised == d.raised
  {
    ghost var start := table.trace;
    for j := 0 to |dead|
      invariant var d := DeadPass(existing, dead[..j], delete);
        !d.raised && table.trace == start + d.ops
    {
      assert dead[..j + 1][..j] == dead[..j];
      var deadRecord := existing[dead[j]];
      if deadRecord.fields == map[] {
        DeadPassRaisedStays(existing, dead, delete, j + 1);
        return true;
      }
      if delete {
        table.Send(DeleteRecord(deadRecord));
      }
    }
    assert dead[..|dead|] == dead;
    raised := false;
  }

  lemma {:induction false} NewPassRaisedStays(records: seq<Record>, existing: seq<Record>, matchFields: seq<string>,
                                              overrides: seq<Rule>, update: bool, k: nat)
    requires k <= |records| && NewPass(records[..k], existing, matchFields, overrides, update).raised
    ensures NewPass(records, existing, matchFields, overrides, update) == NewPass(records[..k], existing, matchFields, overrides, update)
    decreases |records| - k
  {
    if k < |records| {
      assert records[..k + 1][..k] == records[..k];
      NewPassRaisedStays(records, existing, matchFields, overrides, update, k + 1);
    } else {
      assert records[..k] == records;
    }
  }

  lemma {:induction false} DeadPassRaisedStays(existing: seq<Record>, dead: seq<nat>, delete: bool, k: nat)
    requires forall j :: 0 <= j < |dead| ==> dead[j] < |existing|
    requires k <= |dead| && DeadPass(existing, dead[..k], delete).raised
    ensures DeadPass(existing, dead, delete) == DeadPass(existing, dead[..k], delete)
    decreases |dead| - k
  {
    if k < |dead| {
      assert dead[..k + 1][..k] == dead[..k];
      DeadPassRaisedStays(existing, dead, delete, k + 1);
    } else {
      assert dead[..k] == dead;
    }
  }

  // ---------------------------------------------------------------------------
  // What crud_table promises

  /** Without `update`, no position is recorded as matched and no record is
      updated. */
  lemma {:induction false} NoUpdateMatchesNothing(records: seq<Record>, existing: seq<Record>, matchFields: seq<string>,
                                                  overrides: seq<Rule>)
    ensures var p := NewPass(records, existing, matchFields, overrides, false);
      p.matched == [] && forall j :: 0 <= j < |p.ops| ==> !p.ops[j].UpdateRecord?
    decreases |records|
  {
    if records != [] {
      NoUpdateMatchesNothing(records[..|records| - 1], existing, matchFields, overrides);
    }
  }

  /** The dead-record pass deletes exactly the dead records, in order, when
      none lacks fields and `delete` is set; it calls nothing otherwise. */
  lemma {:induction false} DeadPassDeletes(existing: seq<Record>, dead: seq<nat>, delete: bool)
    requires forall j :: 0 <= j < |dead| ==> dead[j] < |existing|
    requires forall j :: 0 <= j < |dead| ==> existing[dead[j]].fields != map[]
    ensures var d := DeadPass(existing, dead, delete);
      && !d.raised
      && (delete ==> |d.ops| == |dead| && forall j :: 0 <= j < |dead| ==> d.ops[j] == DeleteRecord(existing[dead[j]]))
      && (!delete ==> d.ops == [])
    decreases |dead|
  {
    if dead != [] {
      var n := |dead| - 1;
      assert forall j :: 0 <= j < n ==> dead[..n][j] == dead[j];
      DeadPassDeletes(existing, dead[..n], delete);
    }
  }

  /** With `update` off, every existing record counts as dead: with `delete`
      on, the whole table is deleted in order after the new-record calls. */
  lemma NoUpdateDeletesAll(records: seq<Record>, existing: seq<Record>, matchFields: seq<string>, overrides: seq<Rule>)
    requires existing != [] && !NewPass(records, existing, matchFields, overrides, false).raised
    requires forall j :: 0 <= j < |existing| ==> existing[j].fields != map[]
    ensures var p := NewPass(records, existing, matchFields, overrides, false);
      var run := CrudRun(existing, records, matchFields, overrides, false, true);
      && !run.raised
      && run.ops == p.ops + seq(|existing|, j requires 0 <= j < |existing| => DeleteRecord(existing[j]))
  {
    var p := NewPass(records, existing, matchFields, overrides, false);
    NoUpdateMatchesNothing(records, existing, matchFields, overrides);
    var dead := DeadList(|existing|, []);
    DeadListIsRange(|existing|);
    DeadPassDeletes(existing, dead, true);
    var d := DeadPass(existing, dead, true);
    assert d.ops == seq(|existing|, j requires 0 <= j < |existing| => DeleteRecord(existing[j]));
  }

  /** Nothing matched: every position is dead, in order. */
  lemma {:induction false} DeadListIsRange(n: nat)
    ensures |DeadList(n, [])| == n && forall j :: 0 <= j < n ==> DeadList(n, [])[j] == j
  {
    if n > 0 {
      DeadListIsRange(n - 1);
    }
  }

  /** No call in `ops` deletes a record. */
  predicate NoDeletes(ops: seq<Op>) {
    forall op :: op in ops ==> !op.DeleteRecord?
  }

  /** With `delete` off, no record is deleted. */
  lemma NoDeleteKeepsAll(records: seq<Record>, existing: seq<Record>, matchFields: seq<string>,
                         overrides: seq<Rule>, update: bool)
    ensures NoDeletes(CrudRun(existing, records, matchFields, overrides, update, false).ops)
  {
    NewPassNoDelete(records, existing, matchFields, overrides, update);
    var p := NewPass(records, existing, matchFields, overrides, update);
    if !p.raised && existing != [] {
      DeadPassNoDelete(existing, DeadList(|existing|, p.matched));
      assert p.ops + [] == p.ops;
    }
  }

  lemma {:induction false} NewPassNoDelete(records: seq<Record>, existing: seq<Record>, matchFields: seq<string>,
                                           overrides: seq<Rule>, update: bool)
    ensures NoDeletes(NewPass(records, existing, matchFields, overrides, update).ops)
    decreases |records|
  {
    if records != [] {
      var n := |records| - 1;
      NewPassNoDelete(records[..n], existing, matchFields, overrides, update);
      var step := CrudStep(records[n], existing, matchFields, overrides, update);
      if step.Some? {
        CrudStepNoDelete(records[n], existing, matchFields, overrides, update);
      }
    }
  }

  /** The calls for a new record are a post or an update. */
  lemma CrudStepNoDelete(record: Record, existing: seq<Record>, matchFields: seq<string>, overrides: seq<Rule>, update: bool)
    requires CrudStep(record, existing, matchFields, overrides, update).Some?
    ensures forall op :: op in CrudStep(record, existing, matchFields, overrides, update).value.0 ==>
      op.PostRecord? || op.UpdateRecord?
  {
  }

  lemma {:induction false} DeadPassNoDelete(existing: seq<Record>, dead: seq<nat>)
    requires forall j :: 0 <= j < |dead| ==> dead[j] < |existing|
    ensures DeadPass(existing, dead, false).ops == []
    decreases |dead|
  {
    if dead != [] {
      var n := |dead| - 1;
      assert forall j :: 0 <= j < n ==> dead[..n][j] == dead[j];
      DeadPassNoDelete(existing, dead[..n]);
    }
  }

  /** An empty table gets every new record posted, in order. */
  lemma {:induction false} EmptyTablePostsAll(records: seq<Record>, matchFields: seq<string>, overrides: seq<Rule>, update: bool)
    requires forall j :: 0 <= j < |records| ==> records[j].fields != map[]
    ensures var p := NewPass(records, [], matchFields, overrides, update);
      && !p.raised && |p.ops| == |records|
      && forall j :: 0 <= j < |records| ==> p.ops[j] == PostRecord(records[j])
    decreases |records|
  {
    if records != [] {
      var n := |records| - 1;
      assert forall j :: 0 <= j < n ==> records[..n][j] == records[j];
      EmptyTablePostsAll(records[..n], matchFields, overrides, update);
    }
  }

  /** With `update` and `delete` on, the records deleted are the existing
      records at positions no new record matched. */
  lemma DeletesExactlyUnmatched(records: seq<Record>, existing: seq<Record>, matchFields: seq<string>, overrides: seq<Rule>)
    requires existing != [] && !NewPass(records, existing, matchFields, overrides, true).raised
    requires forall j :: 0 <= j < |existing| ==> existing[j].fields != map[]
    ensures var p := NewPass(records, existing, matchFields, overrides, true);
      var dead := DeadList(|existing|, p.matched);
      var run := CrudRun(existing, records, matchFields, overrides, true, true);
      && !run.raised
      && run.ops == p.ops + seq(|dead|, j requires 0 <= j < |dead| => DeleteRecord(existing[dead[j]]))
      && forall i: int :: i in dead <==> 0 <= i < |existing| && i !in p.matched
  {
    var p := NewPass(records, existing, matchFields, overrides, true);
    var dead := DeadList(|existing|, p.matched);
    DeadListSpec(|existing|, p.matched);
    DeadPassDeletes(existing, dead, true);
    var d := DeadPass(existing, dead, true);
    assert CrudRun(existing, records, matchFields, overrides, true, true) == Run(p.ops + d.ops, false);
    assert d.ops == seq(|dead|, j requires 0 <= j < |dead| => DeleteRecord(existing[dead[j]]));
  }
}
