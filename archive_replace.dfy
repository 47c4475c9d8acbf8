/** replace_fields and compose_link_data of airbase/archive/tools.py: copying
    fields between two linked tables as a link-data entry prescribes, and
    completing the link data from the extracted table information. */
module ArchiveReplace {
  import opened Values
  import opened Text
  import opened Show
  import opened Tools

  // ---------------------------------------------------------------------------
  // replace_fields

  /** One entry of `data["fields"]`: the trigger and target descriptions
      (dicts holding "Field", "Type", "Example", "Flatten" and "Custom Error
      Message") and the `type_match` flag, None when the key is absent. */
  datatype FieldPair = FieldPair(trigger: Fields, target: Fields, typeMatch: Option<Value>)

  /** The `data` argument: the value under "method" (None when absent), the
      entries of "fields", and their dict order. */
  datatype LinkSpec = LinkSpec(mode: Option<string>, fields: map<string, FieldPair>, order: seq<string>)

  /** The order lists entries of the dict. */
  predicate Listed(data: LinkSpec)
  {
    forall k :: k in data.order ==> k in data.fields
  }

  /** The strings of a list, in order. */
  function StrItems(items: seq<Value>): (r: seq<string>)
    ensures forall s :: s in r <==> VStr(s) in items
    decreases |items|
  {
    if items == [] then []
    else
      var n := |items| - 1;
      var prev := StrItems(items[..n]);
      assert items == items[..n] + [items[n]];
      if items[n].VStr? then prev + [items[n].s] else prev
  }

  /** A flattened list: its strings joined by ", ", or None when no item is
      truthy (`any`). */
  function Flattened(items: seq<Value>): Value
  {
    if exists i :: 0 <= i < |items| && Truthy(items[i]) then VStr(Join(StrItems(items), ", ")) else VNone
  }

  /** The value copied from one side: flattened when it is a list and that
      side's "Flatten" is truthy. */
  function Carried(value: Value, side: Fields): Value
  {
    if value.VList? && Truthy(Get(side, "Flatten")) then Flattened(value.items) else value
  }

  /** `name` set to the replaced value; None for the exception replace_values
      raises. */
  function Written(acc: Fields, name: string, value: Value): Option<Fields>
  {
    match ReplaceValues(name, value)
    case None => None
    case Some(v) => Some(acc[name := v])
  }

  /** The try block for one entry. A missing "method" or a missing record
      field is a KeyError, which is caught: nothing is written. Any other
      method leaves the field name unbound, which escapes (None). */
  function Copied(record: Record, mode: Option<string>, pair: FieldPair, triggerField: string,
                  targetField: string, acc: Fields): Option<Fields>
  {
    if mode.None? then Some(acc)
    else if mode.value == "push" then
      if triggerField in record.fields then Written(acc, targetField, Carried(record.fields[triggerField], pair.trigger))
      else Some(acc)
    else if mode.value == "pull" then
      if targetField in record.fields then Written(acc, triggerField, Carried(record.fields[targetField], pair.target))
      else Some(acc)
    else None
  }

  /** A custom error message that mentions a record id. */
  predicate HintsRecordId(message: Value)
  {
    Contains(Str(message), "record id")
  }

  /** The type-mismatch warning is skipped: the types match, or one of the
      custom error messages mentions a record id. */
  predicate Quiet(pair: FieldPair)
    requires pair.typeMatch.Some?
  {
    Truthy(pair.typeMatch.value)
    || HintsRecordId(Get(pair.trigger, "Custom Error Message"))
    || HintsRecordId(Get(pair.target, "Custom Error Message"))
  }

  /** The lookups of the warning succeed. */
  predicate WarningReadable(mode: Option<string>, pair: FieldPair)
  {
    || (mode == Some("push") && "Type" in pair.trigger && "Type" in pair.target && "Example" in pair.target)
    || (mode == Some("pull") && "Type" in pair.target && "Type" in pair.trigger && "Example" in pair.trigger)
  }

  /** The two field names of an entry, when both are strings and the trigger
      name is itself an entry; None for the exception otherwise. */
  function Names(data: LinkSpec, key: string): Option<(string, string)>
    requires key in data.fields
  {
    var entry := data.fields[key];
    if "Field" !in entry.trigger || "Field" !in entry.target then None
    else if !entry.trigger["Field"].VStr? || !entry.target["Field"].VStr? then None
    else if entry.trigger["Field"].s !in data.fields then None
    else Some((entry.trigger["Field"].s, entry.target["Field"].s))
  }

  /** One pass of the loop, for the entry under `key`: the new fields, or
      None for an exception that escapes. The descriptions used are those of
      the entry named by the trigger field. */
  function ReplaceStep(record: Record, data: LinkSpec, key: string, acc: Fields): Option<Fields>
    requires key in data.fields
  {
    match Names(data, key)
    case None => None
    case Some(names) =>
      var pair := data.fields[names.0];
      match Copied(record, data.mode, pair, names.0, names.1, acc)
      case None => None
      case Some(fields) =>
        if pair.typeMatch.None? then None
        else if Quiet(pair) || WarningReadable(data.mode, pair) then Some(fields)
        else None
  }

  /** The fields written by the entries `keys`, in order. */
  function Replaced(record: Record, data: LinkSpec, keys: seq<string>): Option<Fields>
    requires forall k :: k in keys ==> k in data.fields
    decreases |keys|
  {
    if keys == [] then Some(map[])
    else
      var n := |keys| - 1;
      match Replaced(record, data, keys[..n])
      case None => None
      case Some(acc) => ReplaceStep(record, data, keys[n], acc)
  }

  /** replace_fields: the record with the written fields, None (Python's None)
      when nothing was written, outer None for an exception. */
  function ReplaceFieldsResult(record: Record, data: LinkSpec): Option<Option<Record>>
    requires Listed(data)
  {
    if record.id.None? then None
    else match Replaced(record, data, data.order)
      case None => None
      case Some(fields) => Some(if |fields| > 0 then Some(Record(record.id, fields)) else None)
  }

  /** The body of the loop for one entry. */
  method ReplaceEntry(record: Record, data: LinkSpec, key: string, acc: Fields) returns (r: Option<Fields>)
    requires key in data.fields
    ensures r == ReplaceStep(record, data, key, acc)
  {
    var names := Names(data, key);
    if names.None? {
      return None;
    }
    var triggerField, targetField := names.value.0, names.value.1;
    var pair := data.fields[triggerField];
    var fields := acc;
    if data.mode.Some? {
      var fieldName: string;
      var fieldValue: Value;
      var found: bool;
      if data.mode.value == "push" {
        found := triggerField in record.fields;
        if found {
          fieldName := targetField;
          fieldValue := Carried(record.fields[triggerField], pair.trigger);
        } else {
          fieldName := "";
          fieldValue := VNone;
        }
      } else if data.mode.value == "pull" {
        found := targetField in record.fields;
        if found {
          fieldName := triggerField;
          fieldValue := Carried(record.fields[targetField], pair.target);
        } else {
          fieldName := "";
          fieldValue := VNone;
        }
      } else {
        return None;
      }
      if found {
        var replaced := ReplaceValues(fieldName, fieldValue);
        if replaced.None? {
          return None;
        }
        fields := fields[fieldName := replaced.value];
      }
    }
    if pair.typeMatch.None? {
      return None;
    }
    if !Quiet(pair) && !WarningReadable(data.mode, pair) {
      return None;
    }
    r := Some(fields);
  }

  /** replace_fields. */
  method ReplaceFields(record: Record, data: LinkSpec) returns (r: Option<Option<Record>>)
    requires Listed(data)
    ensures r == ReplaceFieldsResult(record, data)
  {
    if record.id.None? {
      return None;
    }
    var fields: Fields := map[];
    for i := 0 to |data.order|
      invariant Replaced(record, data, data.order[..i]) == Some(fields)
    {
      assert data.order[..i + 1][..i] == data.order[..i];
      var next := ReplaceEntry(record, data, data.order[i], fields);
      if next.None? {
        ReplacedNoneStays(record, data, data.order, i + 1);
        return None;
      }
      fields := next.value;
    }
    assert data.order[..|data.order|] == data.order;
    if |fields| > 0 {
      r := Some(Some(Record(record.id, fields)));
    } else {
      r := Some(None);
    }
  }

  lemma {:induction false} ReplacedNoneStays(record: Record, data: LinkSpec, keys: seq<string>, k: nat)
    requires forall x :: x in keys ==> x in data.fields
    requires k <= |keys| && Replaced(record, data, keys[..k]).None?
    ensures Replaced(record, data, keys).None?
    decreases |keys| - k
  {
    if k < |keys| {
      assert keys[..k + 1][..k] == keys[..k];
      ReplacedNoneStays(record, data, keys, k + 1);
    } else {
      assert keys[..k] == keys;
    }
  }

  /** The field an entry writes: the target field for a push, the trigger
      field for a pull. */
  function WrittenName(data: LinkSpec, key: string): Option<string>
    requires key in data.fields
  {
    match Names(data, key)
    case None => None
    case Some(names) =>
      if data.mode == Some("push") then Some(names.1)
      else if data.mode == Some("pull") then Some(names.0)
      else None
  }

  /** Only fields named by an entry are written. */
  lemma {:induction false} ReplacedWritesNamedFields(record: Record, data: LinkSpec, keys: seq<string>)
    requires forall k :: k in keys ==> k in data.fields
    requires Replaced(record, data, keys).Some?
    ensures forall x :: x in Replaced(record, data, keys).value ==>
      exists i :: 0 <= i < |keys| && WrittenName(data, keys[i]) == Some(x)
    decreases |keys|
  {
    if keys != [] {
      var n := |keys| - 1;
      var prefix := keys[..n];
      ReplacedWritesNamedFields(record, data, prefix);
      var acc := Replaced(record, data, prefix).value;
      forall x | x in Replaced(record, data, keys).value
        ensures exists i :: 0 <= i < |keys| && WrittenName(data, keys[i]) == Some(x)
      {
        if x in acc {
          var i :| 0 <= i < n && WrittenName(data, prefix[i]) == Some(x);
          assert prefix[i] == keys[i];
        } else {
          assert WrittenName(data, keys[n]) == Some(x);
        }
      }
    }
  }

  /** The entries read from the record: the trigger field for a push, the
      target field for a pull. */
  function ReadName(data: LinkSpec, key: string): Option<string>
    requires key in data.fields
  {
    match Names(data, key)
    case None => None
    case Some(names) =>
      if data.mode == Some("push") then Some(names.0)
      else if data.mode == Some("pull") then Some(names.1)
      else None
  }

  /** An entry whose names are strings and whose warning is skipped. */
  predicate Tame(data: LinkSpec, key: string)
    requires key in data.fields
  {
    Names(data, key).Some? && data.fields[Names(data, key).value.0].typeMatch.Some?
    && Quiet(data.fields[Names(data, key).value.0])
  }

  /** When the record holds none of the fields the entries read, nothing is
      written. */
  lemma {:induction false} ReplacedNothingRead(record: Record, data: LinkSpec, keys: seq<string>)
    requires forall k :: k in keys ==> k in data.fields
    requires data.mode == Some("push") || data.mode == Some("pull")
    requires forall i :: 0 <= i < |keys| ==> Tame(data, keys[i]) && ReadName(data, keys[i]).value !in record.fields
    ensures Replaced(record, data, keys) == Some(map[])
    decreases |keys|
  {
    if keys != [] {
      var n := |keys| - 1;
      assert forall i :: 0 <= i < n ==> keys[..n][i] == keys[i];
      ReplacedNothingRead(record, data, keys[..n]);
    }
  }

  /** replace_fields returns None when no field was written. */
  lemma ReplaceFieldsNothingMapped(record: Record, data: LinkSpec)
    requires Listed(data) && record.id.Some?
    requires data.mode == Some("push") || data.mode == Some("pull")
    requires forall i :: 0 <= i < |data.order| ==>
      Tame(data, data.order[i]) && ReadName(data, data.order[i]).value !in record.fields
    ensures ReplaceFieldsResult(record, data) == Some(None)
  {
    ReplacedNothingRead(record, data, data.order);
  }

  /** A one-entry spec whose trigger and target fields are `t` and `g`. */
  function SingleSpec(mode: string, t: string, g: string): LinkSpec
  {
    LinkSpec(Some(mode), map[t := FieldPair(map["Field" := VStr(t)], map["Field" := VStr(g)], Some(VBool(true)))], [t])
  }

  /** Pushing a field and pulling it back restores it: push copies the
      trigger field's value to the target field, and pull copies the target
      field's value back under the trigger field's name. */
  lemma PushThenPull(record: Record, t: string, g: string)
    requires record.id.Some? && t in record.fields && !record.fields[t].VList?
    ensures var pushed := ReplaceFieldsResult(record, SingleSpec("push", t, g));
      && pushed == Some(Some(Record(record.id, map[g := record.fields[t]])))
      && ReplaceFieldsResult(pushed.value.value, SingleSpec("pull", t, g))
        == Some(Some(Record(record.id, map[t := record.fields[t]])))
  {
    var push := SingleSpec("push", t, g);
    var pull := SingleSpec("pull", t, g);
    assert [t][..0] == [];
    assert Names(push, t) == Some((t, g));
    assert Names(pull, t) == Some((t, g));
    assert Replaced(record, push, [t]) == ReplaceStep(record, push, t, map[]);
    var pushedFields := map[g := record.fields[t]];
    assert Replaced(record, push, [t]) == Some(pushedFields);
    var pushed := Record(record.id, pushedFields);
    assert Replaced(pushed, pull, [t]) == ReplaceStep(pushed, pull, t, map[]);
    assert Replaced(pushed, pull, [t]) == Some(map[t := record.fields[t]]);
  }

  // ---------------------------------------------------------------------------
  // compose_link_data

  /** `name[4:]`: the name without its order prefix. */
  function DropOrder(name: string): (r: string)
    ensures |name| >= 4 ==> name == name[..4] + r
    ensures |name| < 4 ==> r == ""
  {
    if |name| >= 4 then name[4..] else ""
  }

  /** The try block for one entry: the entry completed from the trigger and
      target information, or None for the KeyError of a missing key (the
      "target_info" dict itself being absent is `targetInfo == None`). The
      trigger's "table_name" was already read before the loop. */
  function Completed(name: string, entry: Fields, triggerInfo: Fields, targetInfo: Option<map<string, Fields>>): Option<Fields>
    requires "table_name" in triggerInfo
  {
    if targetInfo.None? || DropOrder(name) !in targetInfo.value then None
    else
      var info := targetInfo.value[DropOrder(name)];
      if "base_id" !in triggerInfo || "trigger_record_id_field" !in info then None
      else if "base_id" !in info || "table_name" !in info then None
      else if "match_fields" !in info || "filter_time_fields" !in info || "filter_value_fields" !in info then None
      else Some(entry[
        "trigger" := VDict(map["base_id" := triggerInfo["base_id"], "table_name" := triggerInfo["table_name"],
                               "record_id_field" := info["trigger_record_id_field"]])][
        "target" := VDict(map["base_id" := info["base_id"], "table_name" := info["table_name"]])][
        "match_fields" := info["match_fields"]][
        "filter_time_fields" := info["filter_time_fields"]][
        "filter_value_fields" := info["filter_value_fields"]])
  }

  /** The link data afterwards: the entries that could be completed,
      completed; the others removed. */
  function Composed(entries: map<string, Fields>, triggerInfo: Fields, targetInfo: Option<map<string, Fields>>): map<string, Fields>
    requires "table_name" in triggerInfo
  {
    map name | name in entries && Completed(name, entries[name], triggerInfo, targetInfo).Some? ::
      Completed(name, entries[name], triggerInfo, targetInfo).value
  }

  /** The `link_data` dict, which compose_link_data completes and prunes in
      place. */
  class LinkData {
    var entries: map<string, Fields>

    constructor (entries: map<string, Fields>)
      ensures this.entries == entries
    {
      this.entries := entries;
    }
  }

  /** The try block, writing into a copy of the entry. */
  method CompleteEntry(name: string, entry: Fields, triggerInfo: Fields, targetInfo: Option<map<string, Fields>>)
    returns (r: Option<Fields>)
    requires "table_name" in triggerInfo
    ensures r == Completed(name, entry, triggerInfo, targetInfo)
  {
    if targetInfo.None? || DropOrder(name) !in targetInfo.value {
      return None;
    }
    var info := targetInfo.value[DropOrder(name)];
    if "base_id" !in triggerInfo || "trigger_record_id_field" !in info {
      return None;
    }
    var e := entry;
    e := e["trigger" := VDict(map["base_id" := triggerInfo["base_id"], "table_name" := triggerInfo["table_name"],
                                  "record_id_field" := info["trigger_record_id_field"]])];
    if "base_id" !in info || "table_name" !in info {
      return None;
    }
    e := e["target" := VDict(map["base_id" := info["base_id"], "table_name" := info["table_name"]])];
    if "match_fields" !in info {
      return None;
    }
    e := e["match_fields" := info["match_fields"]];
    if "filter_time_fields" !in info {
      return None;
    }
    e := e["filter_time_fields" := info["filter_time_fields"]];
    if "filter_value_fields" !in info {
      return None;
    }
    e := e["filter_value_fields" := info["filter_value_fields"]];
    r := Some(e);
  }

  /** compose_link_data: the KeyError of a trigger without "table_name",
      raised by the opening log call before any entry is touched; otherwise
      every entry it can complete is completed, the names of the others are
      collected, then those are popped. */
  method ComposeLinkData(linkData: LinkData, triggerInfo: Fields, targetInfo: Option<map<string, Fields>>)
    returns (raised: bool)
    modifies linkData
    ensures raised <==> "table_name" !in triggerInfo
    ensures raised ==> linkData.entries == old(linkData.entries)
    ensures !raised ==> linkData.entries == Composed(old(linkData.entries), triggerInfo, targetInfo)
  {
    if "table_name" !in triggerInfo {
      return true;
    }
    ghost var original := linkData.entries;
    var removeList := CompleteEntries(linkData, triggerInfo, targetInfo);
    PopEntries(linkData, removeList);
    ghost var composed := Composed(original, triggerInfo, targetInfo);
    assert linkData.entries.Keys == composed.Keys;
    assert linkData.entries == composed;
    raised := false;
  }

  /** The first loop: each entry completed in place, the names of those that
      cannot be completed collected. */
  method CompleteEntries(linkData: LinkData, triggerInfo: Fields, targetInfo: Option<map<string, Fields>>)
    returns (removeList: seq<string>)
    requires "table_name" in triggerInfo
    modifies linkData
    ensures linkData.entries.Keys == old(linkData.entries).Keys
    ensures forall n :: n in old(linkData.entries) ==>
      (n in removeList <==> Completed(n, old(linkData.entries)[n], triggerInfo, targetInfo).None?)
    ensures forall n :: n in old(linkData.entries) && Completed(n, old(linkData.entries)[n], triggerInfo, targetInfo).Some? ==>
      linkData.entries[n] == Completed(n, old(linkData.entries)[n], triggerInfo, targetInfo).value
  {
    ghost var original := linkData.entries;
    var names := linkData.entries.Keys;
    ghost var seen: set<string> := {};
    removeList := [];
    while names != {}
      decreases names
      invariant names !! seen && names + seen == original.Keys
      invariant linkData.entries.Keys == original.Keys
      invariant forall n :: n in names ==> linkData.entries[n] == original[n]
      invariant forall n :: n in seen ==>
        (n in removeList <==> Completed(n, original[n], triggerInfo, targetInfo).None?)
      invariant forall n :: n in seen && Completed(n, original[n], triggerInfo, targetInfo).Some? ==>
        linkData.entries[n] == Completed(n, original[n], triggerInfo, targetInfo).value
      invariant forall n :: n in removeList ==> n in seen
    {
      var name :| name in names;
      var completed := CompleteEntry(name, linkData.entries[name], triggerInfo, targetInfo);
      if completed.None? {
        removeList := removeList + [name];
      } else {
        linkData.entries := linkData.entries[name := completed.value];
      }
      names := names - {name};
      seen := seen + {name};
    }
  }

  /** The second loop: each collected name popped. */
  method PopEntries(linkData: LinkData, removeList: seq<string>)
    modifies linkData
    ensures forall n :: n in linkData.entries <==> n in old(linkData.entries) && n !in removeList
    ensures forall n :: n in linkData.entries ==> linkData.entries[n] == old(linkData.entries)[n]
  {
    ghost var original := linkData.entries;
    for i := 0 to |removeList|
      invariant forall n :: n in linkData.entries <==> n in original && n !in removeList[..i]
      invariant forall n :: n in linkData.entries ==> linkData.entries[n] == original[n]
    {
      linkData.entries := linkData.entries - {removeList[i]};
    }
    assert removeList[..|removeList|] == removeList;
  }

  /** An entry is kept exactly when its information can all be looked up. */
  lemma ComposedKeeps(entries: map<string, Fields>, triggerInfo: Fields, targetInfo: Option<map<string, Fields>>, name: string)
    requires name in entries && "table_name" in triggerInfo
    ensures name in Composed(entries, triggerInfo, targetInfo) <==>
      && targetInfo.Some? && DropOrder(name) in targetInfo.value
      && "base_id" in triggerInfo
      && (var info := targetInfo.value[DropOrder(name)];
          && "trigger_record_id_field" in info && "base_id" in info && "table_name" in info
          && "match_fields" in info && "filter_time_fields" in info && "filter_value_fields" in info)
  {
  }

  /** A kept entry names the trigger's record-id field given for its table,
      and keeps every key compose_link_data does not set. */
  lemma ComposedEntry(entries: map<string, Fields>, triggerInfo: Fields, targetInfo: Option<map<string, Fields>>, name: string)
    requires "table_name" in triggerInfo && name in Composed(entries, triggerInfo, targetInfo)
    ensures targetInfo.Some? && DropOrder(name) in targetInfo.value
    ensures var e := Composed(entries, triggerInfo, targetInfo)[name];
      var info := targetInfo.value[DropOrder(name)];
      && "trigger" in e && e["trigger"].VDict?
      && e["trigger"].entries.Keys == {"base_id", "table_name", "record_id_field"}
      && "trigger_record_id_field" in info
      && e["trigger"].entries["record_id_field"] == info["trigger_record_id_field"]
      && forall k :: k in entries[name] && k !in {"trigger", "target", "match_fields", "filter_time_fields", "filter_value_fields"}
           ==> k in e && e[k] == entries[name][k]
  {
  }

  /** Without the "target_info" dict every entry is removed. */
  lemma ComposedWithoutTargets(entries: map<string, Fields>, triggerInfo: Fields)
    requires "table_name" in triggerInfo
    ensures Composed(entries, triggerInfo, None) == map[]
  {
  }

  /** Composing twice changes nothing more: the lookups depend on the entry's
      name alone, and the values written are the same. */
  lemma ComposedIdempotent(entries: map<string, Fields>, triggerInfo: Fields, targetInfo: Option<map<string, Fields>>)
    requires "table_name" in triggerInfo
    ensures var once := Composed(entries, triggerInfo, targetInfo);
      Composed(once, triggerInfo, targetInfo) == once
  {
    var once := Composed(entries, triggerInfo, targetInfo);
    forall name | name in once
      ensures Completed(name, once[name], triggerInfo, targetInfo) == Some(once[name])
    {
      CompletedTwice(name, entries[name], triggerInfo, targetInfo);
    }
    var twice := Composed(once, triggerInfo, targetInfo);
    assert twice.Keys == once.Keys;
    assert twice == once;
  }

  /** Completing a completed entry writes the values it already holds. */
  lemma CompletedTwice(name: string, e: Fields, triggerInfo: Fields, targetInfo: Option<map<string, Fields>>)
    requires "table_name" in triggerInfo && Completed(name, e, triggerInfo, targetInfo).Some?
    ensures var c := Completed(name, e, triggerInfo, targetInfo).value;
      Completed(name, c, triggerInfo, targetInfo) == Some(c)
  {
    var c := Completed(name, e, triggerInfo, targetInfo).value;
    var info := targetInfo.value[DropOrder(name)];
    var t := VDict(map["base_id" := triggerInfo["base_id"], "table_name" := triggerInfo["table_name"],
                       "record_id_field" := info["trigger_record_id_field"]]);
    var g := VDict(map["base_id" := info["base_id"], "table_name" := info["table_name"]]);
    assert c["trigger" := t] == c;
    assert c["target" := g] == c;
    assert c["match_fields" := info["match_fields"]] == c;
    assert c["filter_time_fields" := info["filter_time_fields"]] == c;
    assert c["filter_value_fields" := info["filter_value_fields"]] == c;
  }

}
