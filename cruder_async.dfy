/** The asynchronous cruder (cruder/cruder_async.py), run sequentially: the
    same matching as the synchronous pass, but each record is sorted into lists
    owned by the caller, link results are discarded, and dead records are sent
    in one batch. Its `_fmt_col_names` and index are those of CruderSync. */
module CruderAsync {
  import opened Values
  import opened Text
  import opened Tools
  import opened Remote
  import opened CruderSync

  /** `_fmt_col_names` here is the same loop as in the synchronous module; in
      particular the camel style appends no part, whatever the column. */
  lemma ColumnNameCamel(column: string, prefix: string, style: string, abbrs: seq<string>)
    requires Lower(style) == "camel"
    ensures ColumnName(column, prefix, style, abbrs) == Strip(prefix)
    ensures ColumnName(column, prefix, style, abbrs) == ColumnName("", prefix, style, [])
  {
  }

  /** The lists `_at_crud` owns and `_at_sort_record` appends to. */
  class Buckets {
    var posts: seq<Record>
    var updates: seq<Record>
    var matched: seq<nat>

    constructor ()
      ensures posts == [] && updates == [] && matched == []
    {
      posts := [];
      updates := [];
      matched := [];
    }

    function AsPlan(): Plan
      reads this
    {
      Plan(posts, updates, matched)
    }
  }

  /** `_at_sort_record`: appends the record to the posts, or records its match
      and appends the filtered record to the updates when it changes anything.
      On an exception the posts and updates are untouched; a match recorded
      before an override raised stays recorded. */
  method SortRecord(buckets: Buckets, record: Record, existing: seq<Record>, index: map<Value, nat>, cfg: Config)
    returns (raised: bool)
    requires ValidIndex(index, |existing|)
    modifies buckets
    ensures raised <==> Classify(record, existing, index, cfg).None?
    ensures !raised ==> buckets.AsPlan() == AddOutcome(old(buckets.AsPlan()), Classify(record, existing, index, cfg).value)
    ensures raised ==> buckets.posts == old(buckets.posts) && buckets.updates == old(buckets.updates)
    ensures raised ==> (|old(buckets.matched)| <= |buckets.matched| <= |old(buckets.matched)| + 1
                        && buckets.matched[..|old(buckets.matched)|] == old(buckets.matched))
  {
    var rec := new Rec(record);
    if cfg.arrays != [] {
      var grafted, graftRaised := GraftFields(rec, cfg.arrays, ",", true);
      if graftRaised {
        assert buckets.matched[..|buckets.matched|] == buckets.matched;
        return true;
      }
    }
    var hashableKeys := PrimaryKeysAsHashable(rec.Snapshot(), cfg.primaryKeys);
    var existingIndex: Option<nat> := None;
    if hashableKeys.Some? {
      if !Hashable(hashableKeys.value) {
        assert buckets.matched[..|buckets.matched|] == buckets.matched;
        return true;
      }
      if Canon(hashableKeys.value) in index {
        existingIndex := Some(index[Canon(hashableKeys.value)]);
      }
    }
    if existingIndex.Some? {
      raised := SortMatched(buckets, rec, existing, existingIndex.value, cfg);
      return;
    } else {
      buckets.posts := buckets.posts + [rec.Snapshot()];
    }
    raised := false;
  }

  /** The matched branch of `_at_sort_record`: the match is recorded, the
      record overridden and filtered against the existing one, and appended
      to the updates when it changes anything. */
  method SortMatched(buckets: Buckets, rec: Rec, existing: seq<Record>, i: nat, cfg: Config) returns (raised: bool)
    requires i < |existing|
    modifies buckets, rec
    ensures buckets.matched == old(buckets.matched) + [i] && buckets.posts == old(buckets.posts)
    ensures var o := Overridden(old(rec.fields), existing[i].fields, cfg.overrides);
      && (raised <==> o.Raised?)
      && (raised ==> buckets.updates == old(buckets.updates))
      && (!raised ==>
            var filtered := FilterResult(Record(old(rec.id), o.value), existing[i], []).value;
            buckets.updates == old(buckets.updates) + (if filtered.fields != map[] then [filtered] else []))
  {
    buckets.matched := buckets.matched + [i];
    var existingRecord := existing[i];
    if cfg.overrides != [] {
      var overridden, overrideRaised := OverrideRecord(rec, existingRecord, cfg.overrides);
      if overrideRaised {
        return true;
      }
    }
    var filtered := FilterRecord(rec.Snapshot(), existingRecord, []);
    if filtered.value.fields != map[] {
      buckets.updates := buckets.updates + [filtered.value];
    }
    raised := false;
  }

  /** Every record sorted in turn into fresh buckets (the gathered tasks, run
      one after the other). */
  method SortAll(records: seq<Record>, existing: seq<Record>, index: map<Value, nat>, cfg: Config)
    returns (buckets: Buckets, raised: bool)
    requires ValidIndex(index, |existing|)
    ensures raised <==> Planned(records, existing, index, cfg).None?
    ensures !raised ==> Planned(records, existing, index, cfg) == Some(buckets.AsPlan())
  {
    buckets := new Buckets();
    for i := 0 to |records|
      invariant Planned(records[..i], existing, index, cfg) == Some(buckets.AsPlan())
    {
      assert records[..i + 1][..i] == records[..i];
      var r := SortRecord(buckets, records[i], existing, index, cfg);
      if r {
        PlannedNoneStays(records, existing, index, cfg, i + 1);
        return buckets, true;
      }
    }
    assert records[..|records|] == records;
    raised := false;
  }

  /** Linking fails for some link. Each link is resolved against the incoming
      records as given and its result is dropped. */
  function LinksFail(records: seq<Record>, links: seq<Link>): bool
    decreases |links|
  {
    if links == [] then false
    else
      var n := |links| - 1;
      LinksFail(records, links[..n]) || LinkedTable(records, links[n].records, links[n].fields, links[n].primaryKey).None?
  }

  method CheckLinks(records: seq<Record>, links: seq<Link>) returns (raised: bool)
    ensures raised == LinksFail(records, links)
  {
    for i := 0 to |links|
      invariant !LinksFail(records, links[..i])
    {
      assert links[..i + 1][..i] == links[..i];
      var linked := LinkTables(records, links[i].records, links[i].fields, links[i].primaryKey);
      if linked.None? {
        LinksFailStays(records, links, i + 1);
        return true;
      }
    }
    assert links[..|links|] == links;
    raised := false;
  }

  lemma {:induction false} LinksFailStays(records: seq<Record>, links: seq<Link>, k: nat)
    requires k <= |links| && LinksFail(records, links[..k])
    ensures LinksFail(records, links)
    decreases |links| - k
  {
    if k < |links| {
      assert links[..k + 1][..k] == links[..k];
      LinksFailStays(records, links, k + 1);
    } else {
      assert links[..k] == links;
    }
  }

  // ---------------------------------------------------------------------------
  // Dead records, batched

  /** The `delete_records` list built for the dead positions; None for the
      KeyError of flagging a record without an id. "overwrite" collects the
      dead records, "update" the flags of those not yet flagged. */
  function DeadBatch(existing: seq<Record>, dead: seq<nat>, mode: string, delField: string): Option<seq<Record>>
    requires forall j :: 0 <= j < |dead| ==> dead[j] < |existing|
    decreases |dead|
  {
    if dead == [] then Some([])
    else
      var n := |dead| - 1;
      var d := existing[dead[n]];
      match DeadBatch(existing, dead[..n], mode, delField)
      case None => None
      case Some(rs) =>
        if mode == "overwrite" then Some(rs + [d])
        else if mode == "update" && !Truthy(Get(d.fields, delField)) then
          if d.id.None? then None else Some(rs + [Flag(d, delField)])
        else Some(rs)
  }

  /** The batch holds what the synchronous pass sends record by record: a
      delete of each dead record in "overwrite", a flag of each unflagged one
      in "update", nothing in any other mode. */
  lemma {:induction false} DeadBatchMatchesSync(existing: seq<Record>, dead: seq<nat>, mode: string, delField: string)
    requires forall j :: 0 <= j < |dead| ==> dead[j] < |existing| && Nameable(existing[dead[j]])
    requires mode == "update" ==> forall j :: 0 <= j < |dead| ==> existing[dead[j]].id.Some?
    ensures DeadBatch(existing, dead, mode, delField).Some?
    ensures var rs := DeadBatch(existing, dead, mode, delField).value;
      && (mode != "overwrite" && mode != "update" ==> rs == [])
      && DeadOps(existing, dead, mode, delField)
           == Run(seq(|rs|, j requires 0 <= j < |rs| => if mode == "overwrite" then DeleteRecord(rs[j]) else UpdateRecord(rs[j])), false)
  {
    if dead != [] {
      var n := |dead| - 1;
      DeadBatchMatchesSync(existing, dead[..n], mode, delField);
    }
  }

  method CollectDead(existing: seq<Record>, dead: seq<nat>, mode: string, prefix: string)
    returns (deleteRecords: Option<seq<Record>>)
    requires forall j :: 0 <= j < |dead| ==> dead[j] < |existing|
    ensures deleteRecords == DeadBatch(existing, dead, mode, DelField(prefix))
  {
    var delField := DelField(prefix);
    var rs: seq<Record> := [];
    for j := 0 to |dead|
      invariant DeadBatch(existing, dead[..j], mode, delField) == Some(rs)
    {
      assert dead[..j + 1][..j] == dead[..j];
      var deadRecord := existing[dead[j]];
      if mode == "overwrite" {
        rs := rs + [deadRecord];
        continue;
      }
      if mode == "update" {
        if !Truthy(Get(deadRecord.fields, delField)) {
          if deadRecord.id.None? {
            DeadBatchNoneStays(existing, dead, mode, delField, j + 1);
            return None;
          }
          rs := rs + [Flag(deadRecord, delField)];
        }
      }
    }
    assert dead[..|dead|] == dead;
    deleteRecords := Some(rs);
  }

  lemma {:induction false} DeadBatchNoneStays(existing: seq<Record>, dead: seq<nat>, mode: string, delField: string, k: nat)
    requires forall j :: 0 <= j < |dead| ==> dead[j] < |existing|
    requires k <= |dead| && DeadBatch(existing, dead[..k], mode, delField).None?
    ensures DeadBatch(existing, dead, mode, delField).None?
    decreases |dead| - k
  {
    if k < |dead| {
      assert dead[..k + 1][..k] == dead[..k];
      DeadBatchNoneStays(existing, dead, mode, delField, k + 1);
    } else {
      assert dead[..k] == dead;
    }
  }

  /** The batched call for a non-empty `delete_records`. */
  function BatchOps(rs: seq<Record>, mode: string): seq<Op>
  {
    if rs == [] then []
    else if mode == "overwrite" then [DeleteRecords(rs)]
    else if mode == "update" then [UpdateRecords(rs)]
    else []
  }

  // ---------------------------------------------------------------------------
  // The whole pass

  /** The calls the asynchronous `_at_crud` makes on the table. The incoming
      records are not linked: the linked copies are discarded. */
  function AsyncRun(records: seq<Record>, existing: seq<Record>, cfg: Config): Run
  {
    if LinksFail(records, cfg.links) then Run([], true)
    else if existing == [] then EmptyTableRun(records, cfg)
    else AsyncMatchRun(records, existing, cfg)
  }

  function AsyncMatchRun(records: seq<Record>, existing: seq<Record>, cfg: Config): Run
  {
    match Index(existing, cfg.primaryKeys)
    case None => Run([], true)
    case Some(index) =>
      match Planned(records, existing, index, cfg)
      case None => Run([], true)
      case Some(plan) =>
        var writes := [PostRecords(plan.posts), UpdateRecords(plan.updates)];
        match DeadBatch(existing, DeadList(|existing|, plan.matched), cfg.mode, DelField(cfg.prefix))
        case None => Run(writes, true)
        case Some(rs) => Run(writes + BatchOps(rs, cfg.mode), false)
  }

  /** Posts and updates are sent before anything happens to the dead records,
      and at most one more call follows them. */
  lemma AsyncWritesFirst(records: seq<Record>, existing: seq<Record>, cfg: Config)
    requires existing != [] && !LinksFail(records, cfg.links)
    requires Index(existing, cfg.primaryKeys).Some?
    requires Planned(records, existing, Index(existing, cfg.primaryKeys).value, cfg).Some?
    ensures var plan := Planned(records, existing, Index(existing, cfg.primaryKeys).value, cfg).value;
      var ops := AsyncRun(records, existing, cfg).ops;
      2 <= |ops| <= 3 && ops[0] == PostRecords(plan.posts) && ops[1] == UpdateRecords(plan.updates)
  {
    var index := Index(existing, cfg.primaryKeys).value;
    MatchRunWritesFirst(records, existing, cfg, index, Planned(records, existing, index, cfg).value);
  }

  lemma MatchRunWritesFirst(records: seq<Record>, existing: seq<Record>, cfg: Config, index: map<Value, nat>, plan: Plan)
    requires Index(existing, cfg.primaryKeys) == Some(index)
    requires Planned(records, existing, index, cfg) == Some(plan)
    ensures var ops := AsyncMatchRun(records, existing, cfg).ops;
      2 <= |ops| <= 3 && ops[0] == PostRecords(plan.posts) && ops[1] == UpdateRecords(plan.updates)
  {
    var batch := DeadBatch(existing, DeadList(|existing|, plan.matched), cfg.mode, DelField(cfg.prefix));
    if batch.Some? {
      assert |BatchOps(batch.value, cfg.mode)| <= 1;
    }
  }

  method AsyncCrud(table: Table, records: seq<Record>, existing: seq<Record>, cfg: Config) returns (raised: bool)
    modifies table
    ensures table.trace == old(table.trace) + AsyncRun(records, existing, cfg).ops
    ensures raised == AsyncRun(records, existing, cfg).raised
  {
    raised := CheckLinks(records, cfg.links);
    if raised {
      return;
    }
    if existing != [] {
      raised := AsyncMatched(table, records, existing, cfg);
    } else {
      raised := SyncEmptyTable(table, records, cfg);
    }
  }

  method AsyncMatched(table: Table, records: seq<Record>, existing: seq<Record>, cfg: Config) returns (raised: bool)
    modifies table
    ensures table.trace == old(table.trace) + AsyncMatchRun(records, existing, cfg).ops
    ensures raised == AsyncMatchRun(records, existing, cfg).raised
  {
    var index := BuildIndex(existing, cfg.primaryKeys);
    if index.None? {
      return true;
    }
    var buckets, sortRaised := SortAll(records, existing, index.value, cfg);
    if sortRaised {
      return true;
    }
    var plan := buckets.AsPlan();
    ghost var writes := [PostRecords(plan.posts), UpdateRecords(plan.updates)];
    table.Send(PostRecords(plan.posts));
    table.Send(UpdateRecords(plan.updates));
    assert table.trace == old(table.trace) + writes;
    var dead := DeadIndices(|existing|, plan.matched);
    var deleteRecords := CollectDead(existing, dead, cfg.mode, cfg.prefix);
    if deleteRecords.None? {
      return true;
    }
    ghost var more := BatchOps(deleteRecords.value, cfg.mode);
    if deleteRecords.value != [] {
      if cfg.mode == "overwrite" {
        table.Send(DeleteRecords(deleteRecords.value));
      } else if cfg.mode == "update" {
        table.Send(UpdateRecords(deleteRecords.value));
      }
    }
    assert table.trace == old(table.trace) + writes + more;
    raised := false;
  }
}
