/** The synchronous cruder (cruder/cruder_sync.py): column-name formatting and
    the reconciliation pass `_at_crud`, which matches incoming records against
    the existing records of a table, posts the new ones, updates the changed
    ones and deletes or flags the existing records nothing matched. */
module CruderSync {
  import opened Values
  import opened Text
  import opened Tools
  import opened Remote

  // ---------------------------------------------------------------------------
  // _fmt_col_names

  /** One "_"-separated part of a column name under a (lower-cased) style. */
  function FormatPart(part: string, style: string, abbrs: seq<string>): string
  {
    if style == "upper" || (abbrs != [] && Lower(part) in abbrs) then Upper(part)
    else if style == "camel" || style == "title" then Title(part)
    else part
  }

  function FormatParts(parts: seq<string>, style: string, abbrs: seq<string>): (r: seq<string>)
    ensures |r| == |parts| && forall i :: 0 <= i < |parts| ==> r[i] == FormatPart(parts[i], style, abbrs)
  {
    seq(|parts|, i requires 0 <= i < |parts| => FormatPart(parts[i], style, abbrs))
  }

  /** The formatted column name: the prefix and the formatted parts separated
      by single spaces, stripped. The camel style appends no part at all, so it
      leaves only the stripped prefix. A missing prefix is "". */
  function ColumnName(column: string, prefix: string, style: string, abbrs: seq<string>): string
  {
    var s := Lower(style);
    if s == "camel" then Strip(prefix)
    else Strip(prefix + Join(FormatParts(Split(column, '_'), s, abbrs), " ") + " ")
  }

  method FmtColNames(column: string, prefix: string, style: string, abbrs: seq<string>) returns (name: string)
    ensures name == ColumnName(column, prefix, style, abbrs)
  {
    var s := Lower(style);
    var colName := "";
    if prefix != "" {
      colName := colName + prefix;
    }
    assert colName == prefix;
    colName := AppendParts(colName, Split(column, '_'), s, abbrs);
    name := Strip(colName);
  }

  /** The loop of _fmt_col_names: each formatted part and a space are appended,
      except under the camel style. */
  method AppendParts(colName: string, parts: seq<string>, s: string, abbrs: seq<string>) returns (r: string)
    requires parts != []
    ensures s == "camel" ==> r == colName
    ensures s != "camel" ==> r == colName + Join(FormatParts(parts, s, abbrs), " ") + " "
  {
    r := colName;
    ghost var formatted := FormatParts(parts, s, abbrs);
    for i := 0 to |parts|
      invariant s == "camel" ==> r == colName
      invariant s != "camel" ==> r == colName + (if i == 0 then "" else Join(formatted[..i], " ") + " ")
    {
      var part := FormatOnePart(parts[i], s, abbrs);
      if s != "camel" {
        JoinSpacedStep(formatted, i);
        r := r + part + " ";
      }
    }
    assert formatted[..|parts|] == formatted;
  }

  /** The body of the loop of _fmt_col_names for one part. */
  method FormatOnePart(part: string, s: string, abbrs: seq<string>) returns (r: string)
    ensures r == FormatPart(part, s, abbrs)
  {
    r := part;
    if s == "upper" || (abbrs != [] && Lower(part) in abbrs) {
      r := Upper(part);
    } else if s == "camel" || s == "title" {
      r := Title(part);
    }
  }

  /** The text the loop has appended after `i` parts, one part further. */
  lemma JoinSpacedStep(xs: seq<string>, i: nat)
    requires i < |xs|
    ensures (if i == 0 then "" else Join(xs[..i], " ") + " ") + xs[i] + " " == Join(xs[..i + 1], " ") + " "
  {
    if i > 0 {
      JoinAppend(xs[..i], xs[i], " ");
      assert xs[..i + 1] == xs[..i] + [xs[i]];
    } else {
      assert xs[..1] == [xs[0]];
    }
  }

  /** With the "upper" style every part is upper-cased; with "lower" (or any
      style other than "camel" and "title") parts are kept except for
      abbreviations, which are upper-cased. */
  lemma FormatPartStyles(part: string, abbrs: seq<string>)
    ensures FormatPart(part, "upper", abbrs) == Upper(part)
    ensures Lower(part) in abbrs ==> FormatPart(part, "lower", abbrs) == Upper(part)
    ensures Lower(part) !in abbrs ==> FormatPart(part, "lower", abbrs) == part
    ensures Lower(part) !in abbrs ==> FormatPart(part, "title", abbrs) == Title(part)
  {
  }

  /** Splitting a column name back at its spaces gives the formatted parts,
      when there is no prefix, the style is not camel and each formatted part
      is a non-empty word without whitespace. */
  lemma ColumnNameWords(column: string, style: string, abbrs: seq<string>)
    requires Lower(style) != "camel"
    requires Words(FormatParts(Split(column, '_'), Lower(style), abbrs))
    ensures Split(ColumnName(column, "", style, abbrs), ' ') == FormatParts(Split(column, '_'), Lower(style), abbrs)
  {
    var parts := FormatParts(Split(column, '_'), Lower(style), abbrs);
    assert "" + Join(parts, " ") + " " == Join(parts, " ") + " ";
    SpacedWordsSplit(parts);
  }

  /** Non-empty parts with no whitespace in them. */
  predicate Words(parts: seq<string>)
  {
    forall i :: 0 <= i < |parts| ==> parts[i] != "" && forall j :: 0 <= j < |parts[i]| ==> !IsSpace(parts[i][j])
  }

  /** Words joined by spaces, with the trailing space stripped again, split
      back into the same words. */
  lemma SpacedWordsSplit(parts: seq<string>)
    requires parts != [] && Words(parts)
    ensures Split(Strip(Join(parts, " ") + " "), ' ') == parts
  {
    JoinEnds(parts, " ");
    StripTrailingSpace(Join(parts, " "));
    forall i | 0 <= i < |parts| ensures ' ' !in parts[i] {
      assert forall j :: 0 <= j < |parts[i]| ==> parts[i][j] != ' ';
    }
    SplitJoin(parts, ' ');
  }

  /** The joined text starts with the first character of the first part and
      ends with the last character of the last part. */
  lemma {:induction false} JoinEnds(parts: seq<string>, sep: string)
    requires parts != [] && forall i :: 0 <= i < |parts| ==> parts[i] != ""
    ensures var j := Join(parts, sep);
      |j| > 0 && j[0] == parts[0][0] && j[|j| - 1] == parts[|parts| - 1][|parts[|parts| - 1]| - 1]
  {
    if |parts| > 1 {
      var rest := parts[1..];
      assert forall i :: 0 <= i < |rest| ==> rest[i] == parts[i + 1];
      JoinEnds(rest, sep);
      var tail := Join(rest, sep);
      var j := Join(parts, sep);
      assert j == parts[0] + sep + tail;
      assert j[0] == parts[0][0];
      assert j[|j| - 1] == tail[|tail| - 1];
      assert rest[|rest| - 1] == parts[|parts| - 1];
    }
  }

  // ---------------------------------------------------------------------------
  // Configuration of a pass

  /** A link: the fetched records of the table to link to, the fields of the
      incoming records to resolve, and the primary key of the linked table. */
  datatype Link = Link(records: seq<Record>, fields: seq<string>, primaryKey: string)

  /** The keyword arguments of `_at_crud` that drive the reconciliation. Absent
      optional lists are empty and an absent prefix is "". */
  datatype Config = Config(
    mode: string,
    primaryKeys: seq<string>,
    links: seq<Link>,
    arrays: seq<string>,
    prefix: string,
    overrides: seq<Rule>)

  // ---------------------------------------------------------------------------
  // The index of existing records by primary key

  /** The key of existing record `i`. */
  function KeyAt(existing: seq<Record>, i: nat, primaryKeys: seq<string>): Option<Value>
    requires i < |existing|
  {
    HashableKey(existing[i], primaryKeys)
  }

  /** The dict from key to position; None when a key cannot be hashed (a
      TypeError). Records without a key are skipped and a repeated key keeps the
      later position. Keys are stored by their dict identity. */
  function Index(existing: seq<Record>, primaryKeys: seq<string>): (r: Option<map<Value, nat>>)
    ensures r.Some? ==> ValidIndex(r.value, |existing|)
    decreases |existing|
  {
    if existing == [] then Some(map[])
    else
      var n := |existing| - 1;
      match Index(existing[..n], primaryKeys)
      case None => None
      case Some(m) =>
        match HashableKey(existing[n], primaryKeys)
        case None => Some(m)
        case Some(key) => if Hashable(key) then Some(m[Canon(key) := n]) else None
  }

  /** Every position the index holds is in range. */
  predicate ValidIndex(index: map<Value, nat>, n: nat)
  {
    forall c :: c in index ==> index[c] < n
  }

  /** Position `j` holds the last record whose key has identity `c`. */
  predicate LastWithKey(existing: seq<Record>, primaryKeys: seq<string>, c: Value, j: nat)
    requires j < |existing|
  {
    && KeyAt(existing, j, primaryKeys).Some? && Canon(KeyAt(existing, j, primaryKeys).value) == c
    && forall i :: j < i < |existing| && KeyAt(existing, i, primaryKeys).Some? ==>
         Canon(KeyAt(existing, i, primaryKeys).value) != c
  }

  /** Last wins: the index maps each defined key to the last record carrying
      it, and holds no entry for a record without a key. */
  lemma {:induction false} IndexLastWins(existing: seq<Record>, primaryKeys: seq<string>)
    requires Index(existing, primaryKeys).Some?
    ensures var m := Index(existing, primaryKeys).value;
      && ValidIndex(m, |existing|)
      && (forall c :: c in m ==> LastWithKey(existing, primaryKeys, c, m[c]))
      && (forall i :: 0 <= i < |existing| && KeyAt(existing, i, primaryKeys).Some? ==>
            Canon(KeyAt(existing, i, primaryKeys).value) in m)
  {
    if existing != [] {
      var n := |existing| - 1;
      var prefix := existing[..n];
      IndexLastWins(prefix, primaryKeys);
      KeysOfPrefix(existing, primaryKeys, n);
      var m0 := Index(prefix, primaryKeys).value;
      var m := Index(existing, primaryKeys).value;
      var last := KeyAt(existing, n, primaryKeys);
      assert last.None? ==> m == m0;
      assert last.Some? ==> m == m0[Canon(last.value) := n];
      forall c | c in m ensures LastWithKey(existing, primaryKeys, c, m[c]) {
        if last.Some? && Canon(last.value) == c {
          assert m[c] == n;
        } else {
          LastWithKeyExtends(existing, primaryKeys, c, m0[c]);
        }
      }
      forall i | 0 <= i < |existing| && KeyAt(existing, i, primaryKeys).Some?
        ensures Canon(KeyAt(existing, i, primaryKeys).value) in m
      {
        if i < n {
          assert KeyAt(prefix, i, primaryKeys) == KeyAt(existing, i, primaryKeys);
          assert Canon(KeyAt(existing, i, primaryKeys).value) in m0;
        }
      }
    }
  }

  lemma LastWithKeyExtends(existing: seq<Record>, primaryKeys: seq<string>, c: Value, j: nat)
    requires existing != [] && j < |existing| - 1
    requires LastWithKey(existing[..|existing| - 1], primaryKeys, c, j)
    requires var last := KeyAt(existing, |existing| - 1, primaryKeys); last.None? || Canon(last.value) != c
    ensures LastWithKey(existing, primaryKeys, c, j)
  {
    KeysOfPrefix(existing, primaryKeys, |existing| - 1);
  }

  /** The keys of a prefix are those of the whole list. */
  lemma KeysOfPrefix(existing: seq<Record>, primaryKeys: seq<string>, n: nat)
    requires n <= |existing|
    ensures forall i :: 0 <= i < n ==> KeyAt(existing[..n], i, primaryKeys) == KeyAt(existing, i, primaryKeys)
  {
  }

  /** Building the index fails exactly when some record's key cannot be hashed. */
  lemma {:induction false} IndexFailsIff(existing: seq<Record>, primaryKeys: seq<string>)
    ensures Index(existing, primaryKeys).None? <==>
      exists i :: 0 <= i < |existing| && KeyAt(existing, i, primaryKeys).Some? && !Hashable(KeyAt(existing, i, primaryKeys).value)
  {
    if existing != [] {
      var n := |existing| - 1;
      var prefix := existing[..n];
      IndexFailsIff(prefix, primaryKeys);
      KeysOfPrefix(existing, primaryKeys, n);
      if Index(prefix, primaryKeys).None? {
        var i :| 0 <= i < n && KeyAt(prefix, i, primaryKeys).Some? && !Hashable(KeyAt(prefix, i, primaryKeys).value);
        assert KeyAt(existing, i, primaryKeys).Some? && !Hashable(KeyAt(existing, i, primaryKeys).value);
      } else if Index(existing, primaryKeys).None? {
        assert KeyAt(existing, n, primaryKeys).Some? && !Hashable(KeyAt(existing, n, primaryKeys).value);
      } else {
        forall i | 0 <= i < |existing| && KeyAt(existing, i, primaryKeys).Some?
          ensures Hashable(KeyAt(existing, i, primaryKeys).value)
        {
          if i < n {
            assert KeyAt(prefix, i, primaryKeys) == KeyAt(existing, i, primaryKeys);
          }
        }
      }
    }
  }

  method BuildIndex(existing: seq<Record>, primaryKeys: seq<string>) returns (index: Option<map<Value, nat>>)
    ensures index == Index(existing, primaryKeys)
  {
    var m: map<Value, nat> := map[];
    for i := 0 to |existing|
      invariant Index(existing[..i], primaryKeys) == Some(m)
    {
      assert existing[..i + 1][..i] == existing[..i];
      var hashableKeys := PrimaryKeysAsHashable(existing[i], primaryKeys);
      if hashableKeys.Some? {
        if !Hashable(hashableKeys.value) {
          IndexNoneStays(existing, primaryKeys, i + 1);
          return None;
        }
        m := m[Canon(hashableKeys.value) := i];
      }
    }
    assert existing[..|existing|] == existing;
    index := Some(m);
  }

  lemma {:induction false} IndexNoneStays(existing: seq<Record>, primaryKeys: seq<string>, k: nat)
    requires k <= |existing| && Index(existing[..k], primaryKeys).None?
    ensures Index(existing, primaryKeys).None?
    decreases |existing| - k
  {
    if k < |existing| {
      assert existing[..k + 1][..k] == existing[..k];
      IndexNoneStays(existing, primaryKeys, k + 1);
    } else {
      assert existing[..k] == existing;
    }
  }

  // ---------------------------------------------------------------------------
  // Sorting the incoming records

  /** Where one incoming record goes: posted as new, queued as an update of the
      existing record at `index`, or matched with nothing to update. */
  datatype Outcome = ToPost(record: Record) | ToUpdate(index: nat, record: Record) | Unchanged(index: nat)

  /** The fate of one incoming record; None when grafting, hashing its key or
      overriding raises. The record is grafted first, then matched by key; a
      matched record has the locked fields overridden and is filtered against
      the existing record. */
  function Classify(record: Record, existing: seq<Record>, index: map<Value, nat>, cfg: Config): Option<Outcome>
    requires ValidIndex(index, |existing|)
  {
    match Grafted(record.fields, cfg.arrays, ",", true)
    case Raised(_) => None
    case Done(fields) =>
      var grafted := Record(record.id, fields);
      match HashableKey(grafted, cfg.primaryKeys)
      case None => Some(ToPost(grafted))
      case Some(key) =>
        if !Hashable(key) then None
        else if Canon(key) !in index then Some(ToPost(grafted))
        else
          var i := index[Canon(key)];
          match Overridden(fields, existing[i].fields, cfg.overrides)
          case Raised(_) => None
          case Done(kept) =>
            var filtered := FilterResult(Record(record.id, kept), existing[i], []).value;
            if filtered.fields != map[] then Some(ToUpdate(i, filtered)) else Some(Unchanged(i))
  }

  /** A record is posted exactly when it has no key or its key is not indexed,
      and it is then posted as grafted. */
  lemma ClassifyPostsUnmatched(record: Record, existing: seq<Record>, index: map<Value, nat>, cfg: Config)
    requires ValidIndex(index, |existing|)
    requires Grafted(record.fields, cfg.arrays, ",", true).Done?
    ensures var grafted := Record(record.id, Grafted(record.fields, cfg.arrays, ",", true).value);
      var key := HashableKey(grafted, cfg.primaryKeys);
      && (key.None? || (Hashable(key.value) && Canon(key.value) !in index) <==>
            Classify(record, existing, index, cfg) == Some(ToPost(grafted)))
      && (Classify(record, existing, index, cfg).Some? && !Classify(record, existing, index, cfg).value.ToPost? ==>
            key.Some? && Canon(key.value) in index && Classify(record, existing, index, cfg).value.index == index[Canon(key.value)])
  {
  }

  /** A queued update carries the matched record's id and exactly the fields
      that would change it, leaving out every field the user has locked. */
  lemma ClassifyUpdateIsDelta(record: Record, existing: seq<Record>, index: map<Value, nat>, cfg: Config)
    requires ValidIndex(index, |existing|)
    requires Classify(record, existing, index, cfg).Some? && Classify(record, existing, index, cfg).value.ToUpdate?
    ensures var o := Classify(record, existing, index, cfg).value;
      var fields := Grafted(record.fields, cfg.arrays, ",", true).value;
      var locked := Locked(existing[o.index].fields, cfg.overrides);
      && o.record.fields != map[]
      && (existing[o.index].id.Some? ==>
            o.record.id == existing[o.index].id
            && o.record.fields == Delta(fields, existing[o.index].fields, fields.Keys - locked)
            && forall k :: k in locked ==> k !in o.record.fields)
  {
    var o := Classify(record, existing, index, cfg).value;
    var fields := Grafted(record.fields, cfg.arrays, ",", true).value;
    OverrideThenFilter(fields, existing[o.index].fields, cfg.overrides);
  }

  /** The lists `_at_crud` fills while sorting: records to post, records to
      update and the positions of the matched existing records. */
  datatype Plan = Plan(posts: seq<Record>, updates: seq<Record>, matched: seq<nat>)

  function AddOutcome(plan: Plan, outcome: Outcome): Plan
  {
    match outcome
    case ToPost(r) => plan.(posts := plan.posts + [r])
    case ToUpdate(i, r) => plan.(updates := plan.updates + [r], matched := plan.matched + [i])
    case Unchanged(i) => plan.(matched := plan.matched + [i])
  }

  /** The lists after sorting `records` in order; None when one of them raises. */
  function Planned(records: seq<Record>, existing: seq<Record>, index: map<Value, nat>, cfg: Config): Option<Plan>
    requires ValidIndex(index, |existing|)
    decreases |records|
  {
    if records == [] then Some(Plan([], [], []))
    else
      var n := |records| - 1;
      match Planned(records[..n], existing, index, cfg)
      case None => None
      case Some(plan) =>
        match Classify(records[n], existing, index, cfg)
        case None => None
        case Some(o) => Some(AddOutcome(plan, o))
  }

  /** Every incoming record lands in exactly one outcome: it is posted or its
      match is recorded, and only matched records can be updated. */
  lemma {:induction false} PlannedAccounts(records: seq<Record>, existing: seq<Record>, index: map<Value, nat>, cfg: Config)
    requires ValidIndex(index, |existing|)
    requires Planned(records, existing, index, cfg).Some?
    ensures var plan := Planned(records, existing, index, cfg).value;
      && |plan.posts| + |plan.matched| == |records|
      && |plan.updates| <= |plan.matched|
      && (forall j :: 0 <= j < |plan.matched| ==> plan.matched[j] < |existing|)
      && (forall j :: 0 <= j < |plan.updates| ==> plan.updates[j].fields != map[])
  {
    if records != [] {
      var n := |records| - 1;
      PlannedAccounts(records[..n], existing, index, cfg);
    }
  }

  method ClassifyRecord(record: Record, existing: seq<Record>, index: map<Value, nat>, cfg: Config)
    returns (outcome: Option<Outcome>)
    requires ValidIndex(index, |existing|)
    ensures outcome == Classify(record, existing, index, cfg)
  {
    var rec := new Rec(record);
    if cfg.arrays != [] {
      var grafted, raised := GraftFields(rec, cfg.arrays, ",", true);
      if raised {
        return None;
      }
    }
    var hashableKeys := PrimaryKeysAsHashable(rec.Snapshot(), cfg.primaryKeys);
    if hashableKeys.None? {
      return Some(ToPost(rec.Snapshot()));
    }
    if !Hashable(hashableKeys.value) {
      return None;
    }
    if Canon(hashableKeys.value) !in index {
      return Some(ToPost(rec.Snapshot()));
    }
    var existingIndex := index[Canon(hashableKeys.value)];
    var existingRecord := existing[existingIndex];
    if cfg.overrides != [] {
      var overridden, raised := OverrideRecord(rec, existingRecord, cfg.overrides);
      if raised {
        return None;
      }
    }
    var filtered := FilterRecord(rec.Snapshot(), existingRecord, []);
    if filtered.value.fields != map[] {
      return Some(ToUpdate(existingIndex, filtered.value));
    }
    return Some(Unchanged(existingIndex));
  }

  method PlanRecords(records: seq<Record>, existing: seq<Record>, index: map<Value, nat>, cfg: Config)
    returns (plan: Option<Plan>)
    requires ValidIndex(index, |existing|)
    ensures plan == Planned(records, existing, index, cfg)
  {
    var postRecords: seq<Record> := [];
    var updateRecords: seq<Record> := [];
    var existingIndices: seq<nat> := [];
    for i := 0 to |records|
      invariant Planned(records[..i], existing, index, cfg) == Some(Plan(postRecords, updateRecords, existingIndices))
    {
      assert records[..i + 1][..i] == records[..i];
      var outcome := ClassifyRecord(records[i], existing, index, cfg);
      if outcome.None? {
        PlannedNoneStays(records, existing, index, cfg, i + 1);
        return None;
      }
      match outcome.value
      case ToPost(r) =>
        postRecords := postRecords + [r];
      case ToUpdate(j, r) =>
        existingIndices := existingIndices + [j];
        updateRecords := updateRecords + [r];
      case Unchanged(j) =>
        existingIndices := existingIndices + [j];
    }
    assert records[..|records|] == records;
    plan := Some(Plan(postRecords, updateRecords, existingIndices));
  }

  lemma {:induction false} PlannedNoneStays(records: seq<Record>, existing: seq<Record>, index: map<Value, nat>, cfg: Config, k: nat)
    requires ValidIndex(index, |existing|)
    requires k <= |records| && Planned(records[..k], existing, index, cfg).None?
    ensures Planned(records, existing, index, cfg).None?
    decreases |records| - k
  {
    if k < |records| {
      assert records[..k + 1][..k] == records[..k];
      PlannedNoneStays(records, existing, index, cfg, k + 1);
    } else {
      assert records[..k] == records;
    }
  }

  // ---------------------------------------------------------------------------
  // Dead records

  /** The existing positions no incoming record matched, taken in ascending
      order. Python iterates the set difference in its hash-table order,
      which can differ; the model fixes ascending order as its choice. */
  function DeadList(n: nat, matched: seq<nat>): (dead: seq<nat>)
    ensures forall j :: 0 <= j < |dead| ==> dead[j] < n
  {
    if n == 0 then [] else DeadList(n - 1, matched) + (if n - 1 in matched then [] else [n - 1])
  }

  /** Dead = all positions minus the matched ones, each listed once. */
  lemma {:induction false} DeadListSpec(n: nat, matched: seq<nat>)
    ensures var dead := DeadList(n, matched);
      && (forall j, k :: 0 <= j < k < |dead| ==> dead[j] < dead[k])
      && (forall i: int :: i in dead <==> 0 <= i < n && i !in matched)
  {
    if n > 0 {
      DeadListSpec(n - 1, matched);
    }
  }

  method DeadIndices(n: nat, matched: seq<nat>) returns (dead: seq<nat>)
    ensures dead == DeadList(n, matched)
  {
    dead := [];
    for i := 0 to n
      invariant dead == DeadList(i, matched)
    {
      if i !in matched {
        dead := dead + [i];
      }
    }
  }

  /** The checkbox that flags a record for manual deletion. */
  function DelField(prefix: string): string
  {
    if prefix != "" then "AUTO_Delete" else "Delete"
  }

  /** `{"id": record["id"], "fields": {delField: True}}`. */
  function Flag(record: Record, delField: string): Record
  {
    Record(record.id, map[delField := VBool(true)])
  }

  /** The calls made on the table and whether an exception ended the pass. */
  datatype Run = Run(ops: seq<Op>, raised: bool)

  /** The calls made for one dead record; None for a KeyError. The name used in
      the log message falls back to the id when the record has no field, and
      the flag needs the id. */
  function DeadStep(record: Record, mode: string, delField: string): Option<seq<Op>>
  {
    if record.fields == map[] && record.id.None? then None
    else if mode == "overwrite" then Some([DeleteRecord(record)])
    else if mode == "update" && !Truthy(Get(record.fields, delField)) then
      if record.id.None? then None else Some([UpdateRecord(Flag(record, delField))])
    else Some([])
  }

  /** The calls made for the dead positions `dead`, one after the other. */
  function DeadOps(existing: seq<Record>, dead: seq<nat>, mode: string, delField: string): Run
    requires forall j :: 0 <= j < |dead| ==> dead[j] < |existing|
    decreases |dead|
  {
    if dead == [] then Run([], false)
    else
      var n := |dead| - 1;
      var run := DeadOps(existing, dead[..n], mode, delField);
      if run.raised then run
      else match DeadStep(existing[dead[n]], mode, delField)
        case None => Run(run.ops, true)
        case Some(ops) => Run(run.ops + ops, false)
  }

  /** A record the pass can name: it has a field or an id. */
  predicate Nameable(record: Record)
  {
    record.fields != map[] || record.id.Some?
  }

  /** "overwrite" deletes each dead record once, in order, and nothing else. */
  lemma {:induction false} DeadOpsOverwrite(existing: seq<Record>, dead: seq<nat>, delField: string)
    requires forall j :: 0 <= j < |dead| ==> dead[j] < |existing| && Nameable(existing[dead[j]])
    ensures DeadOps(existing, dead, "overwrite", delField)
      == Run(seq(|dead|, j requires 0 <= j < |dead| => DeleteRecord(existing[dead[j]])), false)
  {
    if dead != [] {
      var n := |dead| - 1;
      DeadOpsOverwrite(existing, dead[..n], delField);
    }
  }

  /** The positions in `dead`, ascending, of the records whose flag is not
      already truthy: the ones "update" mode flags. */
  function Unflagged(existing: seq<Record>, dead: seq<nat>, delField: string): (u: seq<nat>)
    requires forall j :: 0 <= j < |dead| ==> dead[j] < |existing|
    ensures forall k :: 0 <= k < |u| ==> u[k] < |dead|
    decreases |dead|
  {
    if dead == [] then []
    else
      var n := |dead| - 1;
      var u0 := Unflagged(existing, dead[..n], delField);
      if !Truthy(Get(existing[dead[n]].fields, delField)) then u0 + [n] else u0
  }

  /** The unflagged positions are ascending, and they are exactly the dead
      records whose flag is not truthy. */
  lemma {:induction false} UnflaggedSpec(existing: seq<Record>, dead: seq<nat>, delField: string)
    requires forall j :: 0 <= j < |dead| ==> dead[j] < |existing|
    ensures var u := Unflagged(existing, dead, delField);
      && (forall k, l :: 0 <= k < l < |u| ==> u[k] < u[l])
      && (forall j :: 0 <= j < |dead| ==> (j in u <==> !Truthy(Get(existing[dead[j]].fields, delField))))
  {
    if dead != [] {
      var n := |dead| - 1;
      UnflaggedSpec(existing, dead[..n], delField);
      var u0 := Unflagged(existing, dead[..n], delField);
      var u := Unflagged(existing, dead, delField);
      forall j | 0 <= j < |dead|
        ensures j in u <==> !Truthy(Get(existing[dead[j]].fields, delField))
      {
        if j < n {
          assert dead[..n][j] == dead[j];
        }
      }
    }
  }

  /** One single-record flag update per position in `u`, in order. */
  function FlagOps(existing: seq<Record>, dead: seq<nat>, u: seq<nat>, delField: string): (ops: seq<Op>)
    requires forall j :: 0 <= j < |dead| ==> dead[j] < |existing|
    requires forall k :: 0 <= k < |u| ==> u[k] < |dead|
    ensures |ops| == |u|
    ensures forall k :: 0 <= k < |u| ==> ops[k] == UpdateRecord(Flag(existing[dead[u[k]]], delField))
  {
    seq(|u|, k requires 0 <= k < |u| => UpdateRecord(Flag(existing[dead[u[k]]], delField)))
  }

  /** Flag updates for positions before the last dead record are the same
      read through the shorter list, and one more position adds one update. */
  lemma FlagOpsStep(existing: seq<Record>, dead: seq<nat>, u0: seq<nat>, delField: string)
    requires dead != [] && forall j :: 0 <= j < |dead| ==> dead[j] < |existing|
    requires forall k :: 0 <= k < |u0| ==> u0[k] < |dead| - 1
    ensures var n := |dead| - 1;
      && FlagOps(existing, dead[..n], u0, delField) == FlagOps(existing, dead, u0, delField)
      && FlagOps(existing, dead, u0 + [n], delField)
           == FlagOps(existing, dead, u0, delField) + [UpdateRecord(Flag(existing[dead[n]], delField))]
  {
    var n := |dead| - 1;
    assert forall k :: 0 <= k < |u0| ==> dead[..n][u0[k]] == dead[u0[k]];
  }

  /** "update" sends one single-record update per unflagged dead record, in
      the order of `dead`, and nothing else. */
  lemma {:induction false} DeadOpsUpdateExact(existing: seq<Record>, dead: seq<nat>, delField: string)
    requires forall j :: 0 <= j < |dead| ==> dead[j] < |existing| && existing[dead[j]].id.Some?
    ensures DeadOps(existing, dead, "update", delField)
      == Run(FlagOps(existing, dead, Unflagged(existing, dead, delField), delField), false)
  {
    if dead != [] {
      var n := |dead| - 1;
      DeadOpsUpdateExact(existing, dead[..n], delField);
      FlagOpsStep(existing, dead, Unflagged(existing, dead[..n], delField), delField);
    }
  }

  /** "update" flags exactly the dead records whose flag is not already
      truthy, each with one single-record update. */
  lemma DeadOpsUpdate(existing: seq<Record>, dead: seq<nat>, delField: string)
    requires forall j :: 0 <= j < |dead| ==> dead[j] < |existing| && existing[dead[j]].id.Some?
    ensures var run := DeadOps(existing, dead, "update", delField);
      && !run.raised
      && |run.ops| <= |dead|
      && (forall j :: 0 <= j < |dead| && !Truthy(Get(existing[dead[j]].fields, delField)) ==>
            UpdateRecord(Flag(existing[dead[j]], delField)) in run.ops)
      && (forall op :: op in run.ops ==>
            exists j :: 0 <= j < |dead| && !Truthy(Get(existing[dead[j]].fields, delField))
              && op == UpdateRecord(Flag(existing[dead[j]], delField)))
  {
    DeadOpsUpdateExact(existing, dead, delField);
    UnflaggedSpec(existing, dead, delField);
    var u := Unflagged(existing, dead, delField);
    var run := DeadOps(existing, dead, "update", delField);
    IncreasingBounded(u, |dead|);
    forall j | 0 <= j < |dead| && !Truthy(Get(existing[dead[j]].fields, delField))
      ensures UpdateRecord(Flag(existing[dead[j]], delField)) in run.ops
    {
      var k :| 0 <= k < |u| && u[k] == j;
      assert run.ops[k] == UpdateRecord(Flag(existing[dead[j]], delField));
    }
    forall op | op in run.ops
      ensures exists j ::
        0 <= j < |dead| && !Truthy(Get(existing[dead[j]].fields, delField)) && op == UpdateRecord(Flag(existing[dead[j]], delField))
    {
      var k :| 0 <= k < |run.ops| && run.ops[k] == op;
      assert u[k] < |dead|;
    }
  }

  /** A strictly increasing sequence of numbers below `n` has at most `n`
      elements. */
  lemma {:induction false} IncreasingBounded(u: seq<nat>, n: nat)
    requires forall k :: 0 <= k < |u| ==> u[k] < n
    requires forall k, l :: 0 <= k < l < |u| ==> u[k] < u[l]
    ensures |u| <= n
  {
    if u != [] {
      var m := |u| - 1;
      IncreasingBounded(u[..m], u[m]);
    }
  }

  /** Any other mode touches nothing. */
  lemma {:induction false} DeadOpsOtherMode(existing: seq<Record>, dead: seq<nat>, mode: string, delField: string)
    requires mode != "overwrite" && mode != "update"
    requires forall j :: 0 <= j < |dead| ==> dead[j] < |existing| && Nameable(existing[dead[j]])
    ensures DeadOps(existing, dead, mode, delField) == Run([], false)
  {
    if dead != [] {
      DeadOpsOtherMode(existing, dead[..|dead| - 1], mode, delField);
    }
  }

  method IssueDeadOps(table: Table, existing: seq<Record>, dead: seq<nat>, mode: string, prefix: string)
    returns (raised: bool)
    requires forall j :: 0 <= j < |dead| ==> dead[j] < |existing|
    modifies table
    ensures table.trace == old(table.trace) + DeadOps(existing, dead, mode, DelField(prefix)).ops
    ensures raised == DeadOps(existing, dead, mode, DelField(prefix)).raised
  {
    var delField := DelField(prefix);
    for j := 0 to |dead|
      invariant table.trace == old(table.trace) + DeadOps(existing, dead[..j], mode, delField).ops
      invariant !DeadOps(existing, dead[..j], mode, delField).raised
    {
      assert dead[..j + 1][..j] == dead[..j];
      var deadRecord := existing[dead[j]];
      if deadRecord.fields == map[] && deadRecord.id.None? {
        DeadRaisedStays(existing, dead, mode, delField, j + 1);
        return true;
      }
      if mode == "overwrite" {
        table.Send(DeleteRecord(deadRecord));
      } else if mode == "update" {
        if !Truthy(Get(deadRecord.fields, delField)) {
          if deadRecord.id.None? {
            DeadRaisedStays(existing, dead, mode, delField, j + 1);
            return true;
          }
          table.Send(UpdateRecord(Flag(deadRecord, delField)));
        }
      }
    }
    assert dead[..|dead|] == dead;
    raised := false;
  }

  lemma {:induction false} DeadRaisedStays(existing: seq<Record>, dead: seq<nat>, mode: string, delField: string, k: nat)
    requires forall j :: 0 <= j < |dead| ==> dead[j] < |existing|
    requires k <= |dead| && DeadOps(existing, dead[..k], mode, delField).raised
    ensures DeadOps(existing, dead, mode, delField) == DeadOps(existing, dead[..k], mode, delField)
    decreases |dead| - k
  {
    if k < |dead| {
      assert dead[..k + 1][..k] == dead[..k];
      DeadRaisedStays(existing, dead, mode, delField, k + 1);
    } else {
      assert dead[..k] == dead;
    }
  }

  // ---------------------------------------------------------------------------
  // The whole pass

  /** The incoming records after each link in turn; None when linking raises. */
  function LinkedAll(records: seq<Record>, links: seq<Link>): Option<seq<Record>>
    decreases |links|
  {
    if links == [] then Some(records)
    else
      var n := |links| - 1;
      match LinkedAll(records, links[..n])
      case None => None
      case Some(rs) => LinkedTable(rs, links[n].records, links[n].fields, links[n].primaryKey)
  }

  /** Every record grafted; None when one of them raises. */
  function GraftAll(records: seq<Record>, arrays: seq<string>): (r: Option<seq<Record>>)
    ensures r.Some? ==> |r.value| == |records|
    decreases |records|
  {
    if records == [] then Some([])
    else
      var n := |records| - 1;
      match GraftAll(records[..n], arrays)
      case None => None
      case Some(rs) =>
        match Grafted(records[n].fields, arrays, ",", true)
        case Raised(_) => None
        case Done(fields) => Some(rs + [Record(records[n].id, fields)])
  }

  /** Grafting a list keeps each record's id and grafts its fields. */
  lemma {:induction false} GraftAllEach(records: seq<Record>, arrays: seq<string>)
    requires GraftAll(records, arrays).Some?
    ensures var rs := GraftAll(records, arrays).value;
      forall j :: 0 <= j < |records| ==>
        rs[j].id == records[j].id && Grafted(records[j].fields, arrays, ",", true) == Done(rs[j].fields)
  {
    if records != [] {
      var n := |records| - 1;
      GraftAllEach(records[..n], arrays);
      var rs := GraftAll(records, arrays).value;
      forall j | 0 <= j < n ensures rs[j].id == records[j].id && Grafted(records[j].fields, arrays, ",", true) == Done(rs[j].fields) {
        assert records[..n][j] == records[j];
      }
    }
  }

  /** The calls `_at_crud` makes on the table. */
  function SyncRun(records: seq<Record>, existing: seq<Record>, cfg: Config): Run
  {
    match LinkedAll(records, cfg.links)
    case None => Run([], true)
    case Some(linked) => if existing == [] then EmptyTableRun(linked, cfg) else MatchRun(linked, existing, cfg)
  }

  /** An empty table: every record, grafted, posted in one batch. */
  function EmptyTableRun(linked: seq<Record>, cfg: Config): Run
  {
    match GraftAll(linked, cfg.arrays)
    case None => Run([], true)
    case Some(rs) => Run([PostRecords(rs)], false)
  }

  /** A table with records: index, sort, post, update, then the dead records. */
  function MatchRun(linked: seq<Record>, existing: seq<Record>, cfg: Config): Run
  {
    match Index(existing, cfg.primaryKeys)
    case None => Run([], true)
    case Some(index) =>
      match Planned(linked, existing, index, cfg)
      case None => Run([], true)
      case Some(plan) =>
        var dead := DeadOps(existing, DeadList(|existing|, plan.matched), cfg.mode, DelField(cfg.prefix));
        Run([PostRecords(plan.posts), UpdateRecords(plan.updates)] + dead.ops, dead.raised)
  }

  /** With no existing record, one batch posts every (grafted) incoming record
      and nothing is updated or deleted. */
  lemma SyncEmptyTablePostsAll(records: seq<Record>, cfg: Config)
    requires LinkedAll(records, cfg.links).Some?
    requires GraftAll(LinkedAll(records, cfg.links).value, cfg.arrays).Some?
    ensures SyncRun(records, [], cfg) == Run([PostRecords(GraftAll(LinkedAll(records, cfg.links).value, cfg.arrays).value)], false)
    ensures |GraftAll(LinkedAll(records, cfg.links).value, cfg.arrays).value| == |LinkedAll(records, cfg.links).value|
  {
  }

  /** When nothing raises, an "overwrite" pass posts, updates, then deletes each
      unmatched existing record once; an "update" pass flags instead. */
  lemma SyncOverwriteDeletesDead(records: seq<Record>, existing: seq<Record>, cfg: Config)
    requires existing != [] && cfg.mode == "overwrite"
    requires forall i :: 0 <= i < |existing| ==> Nameable(existing[i])
    requires LinkedAll(records, cfg.links).Some? && Index(existing, cfg.primaryKeys).Some?
    requires Planned(LinkedAll(records, cfg.links).value, existing, Index(existing, cfg.primaryKeys).value, cfg).Some?
    ensures var plan := Planned(LinkedAll(records, cfg.links).value, existing, Index(existing, cfg.primaryKeys).value, cfg).value;
      var dead := DeadList(|existing|, plan.matched);
      SyncRun(records, existing, cfg) == Run([PostRecords(plan.posts), UpdateRecords(plan.updates)]
        + seq(|dead|, j requires 0 <= j < |dead| => DeleteRecord(existing[dead[j]])), false)
  {
    var plan := Planned(LinkedAll(records, cfg.links).value, existing, Index(existing, cfg.primaryKeys).value, cfg).value;
    DeadOpsOverwrite(existing, DeadList(|existing|, plan.matched), DelField(cfg.prefix));
  }

  method LinkAllTables(records: seq<Record>, links: seq<Link>) returns (linked: Option<seq<Record>>)
    ensures linked == LinkedAll(records, links)
  {
    var current := records;
    for i := 0 to |links|
      invariant LinkedAll(records, links[..i]) == Some(current)
    {
      LinkedAllStep(records, links, i, current);
      var next := LinkTables(current, links[i].records, links[i].fields, links[i].primaryKey);
      if next.None? {
        LinkedAllNoneStays(records, links, i + 1);
        return None;
      }
      current := next.value;
    }
    assert links[..|links|] == links;
    linked := Some(current);
  }

  lemma LinkedAllStep(records: seq<Record>, links: seq<Link>, i: nat, current: seq<Record>)
    requires i < |links| && LinkedAll(records, links[..i]) == Some(current)
    ensures LinkedAll(records, links[..i + 1]) == LinkedTable(current, links[i].records, links[i].fields, links[i].primaryKey)
  {
    assert links[..i + 1][..i] == links[..i];
  }

  lemma {:induction false} LinkedAllNoneStays(records: seq<Record>, links: seq<Link>, k: nat)
    requires k <= |links| && LinkedAll(records, links[..k]).None?
    ensures LinkedAll(records, links).None?
    decreases |links| - k
  {
    if k < |links| {
      assert links[..k + 1][..k] == links[..k];
      LinkedAllNoneStays(records, links, k + 1);
    } else {
      assert links[..k] == links;
    }
  }

  method GraftRecords(records: seq<Record>, arrays: seq<string>) returns (grafted: Option<seq<Record>>)
    ensures grafted == GraftAll(records, arrays)
  {
    var rs: seq<Record> := [];
    for i := 0 to |records|
      invariant GraftAll(records[..i], arrays) == Some(rs)
    {
      assert records[..i + 1][..i] == records[..i];
      var rec := new Rec(records[i]);
      var r, raised := GraftFields(rec, arrays, ",", true);
      if raised {
        GraftAllNoneStays(records, arrays, i + 1);
        return None;
      }
      rs := rs + [rec.Snapshot()];
    }
    assert records[..|records|] == records;
    grafted := Some(rs);
  }

  lemma {:induction false} GraftAllNoneStays(records: seq<Record>, arrays: seq<string>, k: nat)
    requires k <= |records| && GraftAll(records[..k], arrays).None?
    ensures GraftAll(records, arrays).None?
    decreases |records| - k
  {
    if k < |records| {
      assert records[..k + 1][..k] == records[..k];
      GraftAllNoneStays(records, arrays, k + 1);
    } else {
      assert records[..k] == records;
    }
  }

  /** `_at_crud` against a table whose records are `existing`: links, matches,
      posts, updates, then deletes or flags the dead records. `raised` reports
      an exception, which ends the pass after the calls already made. */
  method SyncCrud(table: Table, records: seq<Record>, existing: seq<Record>, cfg: Config) returns (raised: bool)
    modifies table
    ensures table.trace == old(table.trace) + SyncRun(records, existing, cfg).ops
    ensures raised == SyncRun(records, existing, cfg).raised
  {
    var linked := LinkAllTables(records, cfg.links);
    if linked.None? {
      return true;
    }
    if existing != [] {
      raised := SyncMatched(table, linked.value, existing, cfg);
    } else {
      raised := SyncEmptyTable(table, linked.value, cfg);
    }
  }

  method SyncMatched(table: Table, linked: seq<Record>, existing: seq<Record>, cfg: Config) returns (raised: bool)
    modifies table
    ensures table.trace == old(table.trace) + MatchRun(linked, existing, cfg).ops
    ensures raised == MatchRun(linked, existing, cfg).raised
  {
    var index := BuildIndex(existing, cfg.primaryKeys);
    if index.None? {
      return true;
    }
    var plan := PlanRecords(linked, existing, index.value, cfg);
    if plan.None? {
      return true;
    }
    table.Send(PostRecords(plan.value.posts));
    table.Send(UpdateRecords(plan.value.updates));
    var dead := DeadIndices(|existing|, plan.value.matched);
    raised := IssueDeadOps(table, existing, dead, cfg.mode, cfg.prefix);
  }

  method SyncEmptyTable(table: Table, linked: seq<Record>, cfg: Config) returns (raised: bool)
    modifies table
    ensures table.trace == old(table.trace) + EmptyTableRun(linked, cfg).ops
    ensures raised == EmptyTableRun(linked, cfg).raised
  {
    var posts := linked;
    if cfg.arrays != [] {
      var grafted := GraftRecords(linked, cfg.arrays);
      if grafted.None? {
        return true;
      }
      posts := grafted.value;
    } else {
      GraftAllNothing(linked, cfg.arrays);
    }
    table.Send(PostRecords(posts));
    raised := false;
  }

  /** With no array fields, grafting leaves the records as they are. */
  lemma {:induction false} GraftAllNothing(records: seq<Record>, arrays: seq<string>)
    requires arrays == []
    ensures GraftAll(records, arrays) == Some(records)
  {
    if records != [] {
      var n := |records| - 1;
      GraftAllNothing(records[..n], arrays);
      assert records[..n] + [records[n]] == records;
    }
  }
}
