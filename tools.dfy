/** The record-reconciliation helpers of airbase/tools.py: record-id
    recognition, the hashable primary key used for matching, array grafting,
    link resolution, merging, diffing and override protection. */
module Tools {
  import opened Values
  import opened Text
  import opened Show

  /** A record dict that the helpers update in place. */
  class Rec {
    var id: Option<string>
    var fields: Fields

    constructor (r: Record)
      ensures id == r.id && fields == r.fields
    {
      id := r.id;
      fields := r.fields;
    }

    function Snapshot(): Record
      reads this
    {
      Record(id, fields)
    }
  }

  // ---------------------------------------------------------------------------
  // is_record

  /** A record id: 17 characters beginning with "rec". */
  predicate IsRecordId(s: string)
  {
    |s| == 17 && s[..3] == "rec"
  }

  /** A value is a record id, or a list whose first element is one. */
  function IsRecord(v: Value): (r: bool)
    ensures v.VStr? ==> (r <==> IsRecordId(v.s))
    ensures v.VList? && v.items != [] ==> (r <==> v.items[0].VStr? && IsRecordId(v.items[0].s))
    ensures !v.VStr? && !(v.VList? && v.items != []) ==> !r
  {
    var x := if v.VList? && v.items != [] then v.items[0] else v;
    x.VStr? && (if |x.s| < 3 then x.s else x.s[..3]) == "rec" && |x.s| == 17
  }

  // ---------------------------------------------------------------------------
  // get_primary_keys_as_hashable

  /** A list value becomes a tuple so that it can be hashed. */
  function KeyPart(v: Value): Value
  {
    if v.VList? then VTuple(v.items) else v
  }

  /** The truthy key parts of `fields`, in `primaryKeys` order. */
  function KeyParts(fields: Fields, primaryKeys: seq<string>): seq<Value>
    decreases |primaryKeys|
  {
    if primaryKeys == [] then []
    else
      var n := |primaryKeys| - 1;
      var v := KeyPart(Get(fields, primaryKeys[n]));
      KeyParts(fields, primaryKeys[..n]) + (if Truthy(v) then [v] else [])
  }

  /** The matching key of a record: a tuple of its truthy primary-key values,
      or None when there is none. */
  function HashableKey(record: Record, primaryKeys: seq<string>): Option<Value>
  {
    var parts := KeyParts(record.fields, primaryKeys);
    if parts == [] then None else Some(VTuple(parts))
  }

  lemma {:induction false} KeyPartsEmptyIff(fields: Fields, primaryKeys: seq<string>)
    ensures KeyParts(fields, primaryKeys) == [] <==>
      forall j :: 0 <= j < |primaryKeys| ==> !Truthy(Get(fields, primaryKeys[j]))
  {
    if primaryKeys != [] {
      var n := |primaryKeys| - 1;
      KeyPartsEmptyIff(fields, primaryKeys[..n]);
      assert forall j :: 0 <= j < n ==> primaryKeys[..n][j] == primaryKeys[j];
    }
  }

  /** The key is undefined exactly when every primary-key field is missing or
      falsy; such a record can never be matched. */
  lemma HashableKeyUndefinedIff(record: Record, primaryKeys: seq<string>)
    ensures HashableKey(record, primaryKeys).None? <==>
      forall j :: 0 <= j < |primaryKeys| ==> !Truthy(Get(record.fields, primaryKeys[j]))
  {
    KeyPartsEmptyIff(record.fields, primaryKeys);
  }

  /** Each part of the key is the truthy value of some primary-key field, lists
      turned into tuples of the same elements. */
  lemma {:induction false} KeyPartsComeFromFields(fields: Fields, primaryKeys: seq<string>)
    ensures forall p :: p in KeyParts(fields, primaryKeys) ==>
      Truthy(p) && exists j :: 0 <= j < |primaryKeys| && p == KeyPart(Get(fields, primaryKeys[j]))
  {
    if primaryKeys != [] {
      var n := |primaryKeys| - 1;
      KeyPartsComeFromFields(fields, primaryKeys[..n]);
      forall p | p in KeyParts(fields, primaryKeys)
        ensures Truthy(p) && exists j :: 0 <= j < |primaryKeys| && p == KeyPart(Get(fields, primaryKeys[j]))
      {
        if p in KeyParts(fields, primaryKeys[..n]) {
          var j :| 0 <= j < n && p == KeyPart(Get(fields, primaryKeys[..n][j]));
          assert primaryKeys[..n][j] == primaryKeys[j];
        } else {
          assert p == KeyPart(Get(fields, primaryKeys[n]));
        }
      }
    }
  }

  method PrimaryKeysAsHashable(record: Record, primaryKeys: seq<string>) returns (key: Option<Value>)
    ensures key == HashableKey(record, primaryKeys)
  {
    var hashableKeys: seq<Value> := [];
    for i := 0 to |primaryKeys|
      invariant hashableKeys == KeyParts(record.fields, primaryKeys[..i])
    {
      var val := Get(record.fields, primaryKeys[i]);
      if val.VList? {
        val := VTuple(val.items);
      }
      if Truthy(val) {
        hashableKeys := hashableKeys + [val];
      }
      assert primaryKeys[..i + 1][..i] == primaryKeys[..i];
    }
    assert primaryKeys[..|primaryKeys|] == primaryKeys;
    key := if hashableKeys != [] then Some(VTuple(hashableKeys)) else None;
  }

  // ---------------------------------------------------------------------------
  // graft_fields

  function Strs(pieces: seq<string>): (r: seq<Value>)
    ensures |r| == |pieces| && forall i :: 0 <= i < |pieces| ==> r[i] == VStr(pieces[i])
  {
    seq(|pieces|, i requires 0 <= i < |pieces| => VStr(pieces[i]))
  }

  /** What grafting does to one truthy value; None when Python raises. A string
      holding the separator is split on "," (and the pieces sorted when `sort`
      is set); any other string is wrapped in a list. A list, tuple or dict that
      holds the separator has no `split`; `in` on a number raises. */
  function GraftValue(v: Value, separator: string, sort: bool): Option<Value>
  {
    match v
    case VStr(s) =>
      if Contains(s, separator) then
        Some(VList(Strs(if sort then SortStrs(Split(s, ',')) else Split(s, ','))))
      else Some(VList([v]))
    case VList(items) => if InSeq(VStr(separator), items) then None else Some(VList([v]))
    case VTuple(items) => if InSeq(VStr(separator), items) then None else Some(VList([v]))
    case VDict(entries) => if separator in entries then None else Some(VList([v]))
    case _ => None
  }

  /** A grafted string holding the separator becomes the list of its
      comma-separated pieces, which join back into the string. */
  lemma GraftValueSplitsInOrder(s: string, separator: string)
    requires Contains(s, separator)
    ensures var pieces := Split(s, ',');
      && GraftValue(VStr(s), separator, false) == Some(VList(Strs(pieces)))
      && Join(pieces, ",") == s
      && forall i :: 0 <= i < |pieces| ==> ',' !in pieces[i]
  {
    JoinSplit(s, ',');
    SplitPiecesLackSeparator(s, ',');
  }

  /** With sorting, the pieces come out ordered and each piece as often as in
      the string. */
  lemma GraftValueSorts(s: string, separator: string)
    requires Contains(s, separator)
    ensures var pieces := SortStrs(Split(s, ','));
      && GraftValue(VStr(s), separator, true) == Some(VList(Strs(pieces)))
      && SortedStrs(pieces) && multiset(pieces) == multiset(Split(s, ','))
  {
    SortStrsSpec(Split(s, ','));
  }

  /** graft_fields as written assigns the result of `list.sort()`, which is
      None: with `sort` set, a string holding the separator loses its text. */
  function GraftValueAsWritten(v: Value, separator: string, sort: bool): Option<Value>
  {
    if v.VStr? && Contains(v.s, separator) && sort then Some(VNone) else GraftValue(v, separator, sort)
  }

  /** For every string holding the separator, with sorting: as written the
      field becomes None, while the corrected graft stores a list whose
      pieces are those of the string, which join back into it. */
  lemma GraftAsWrittenStoresNone(s: string, separator: string)
    requires Contains(s, separator)
    ensures GraftValueAsWritten(VStr(s), separator, true) == Some(VNone)
    ensures var pieces := SortStrs(Split(s, ','));
      && GraftValue(VStr(s), separator, true) == Some(VList(Strs(pieces)))
      && multiset(pieces) == multiset(Split(s, ',')) && Join(Split(s, ','), ",") == s
  {
    GraftValueSorts(s, separator);
    JoinSplit(s, ',');
  }

  /** The value "b,a" grafted with the default separator and sorting: as written
      the field becomes None instead of the list ["a", "b"]. */
  lemma GraftSortDropsText()
    ensures GraftValueAsWritten(VStr("b,a"), ",", true) == Some(VNone)
    ensures GraftValue(VStr("b,a"), ",", true) == Some(VList([VStr("a"), VStr("b")]))
  {
    ContainsCommaBA();
    GraftBA();
    StrsAB();
  }

  lemma StrsAB()
    ensures Strs(["a", "b"]) == [VStr("a"), VStr("b")]
  {
    var r := Strs(["a", "b"]);
    assert |r| == 2 && r[0] == VStr("a") && r[1] == VStr("b");
  }

  lemma GraftBA()
    ensures GraftValue(VStr("b,a"), ",", true) == Some(VList(Strs(SortStrs(Split("b,a", ',')))))
    ensures Split("b,a", ',') == ["b", "a"] && SortStrs(["b", "a"]) == ["a", "b"]
  {
    ContainsCommaBA();
    SplitBA();
    SortBA();
  }

  lemma ContainsCommaBA()
    ensures Contains("b,a", ",")
  {
    assert "b,a"[1..] == ",a" && "," <= ",a";
  }

  lemma SplitBA()
    ensures Split("b,a", ',') == ["b", "a"]
  {
    var s1: string := "a";
    var e := Split(s1[1..], ',');
    assert s1[1..] == [] && e == [""] && e[1..] == [];
    assert [s1[0]] + e[0] == "a";
    assert Split(s1, ',') == [[s1[0]] + e[0]] + e[1..] == ["a"];
    var s2: string := ",a";
    assert s2[1..] == s1;
    assert Split(s2, ',') == ["", "a"];
    var s3: string := "b,a";
    assert s3[1..] == s2;
    var rest := Split(s2, ',');
    assert rest[0] == "" && rest[1..] == ["a"];
    assert [s3[0]] + rest[0] == "b";
  }

  lemma SortBA()
    ensures SortStrs(["b", "a"]) == ["a", "b"]
  {
    assert SortStrs(["a"]) == ["a"];
    assert !StrLe("b", "a");
    assert InsertStr("b", ["a"]) == ["a"] + InsertStr("b", []);
  }

  /** The fields after grafting `names` one after the other. */
  function Grafted(fields: Fields, names: seq<string>, separator: string, sort: bool): Attempt<Fields>
    decreases |names|
  {
    if names == [] then Done(fields)
    else
      var n := |names| - 1;
      match Grafted(fields, names[..n], separator, sort)
      case Raised(st) => Raised(st)
      case Done(st) =>
        var v := Get(st, names[n]);
        if !Truthy(v) then Done(st)
        else match GraftValue(v, separator, sort)
          case None => Raised(st)
          case Some(nv) => Done(st[names[n] := nv])
  }

  /** Grafting rewrites only listed fields that held truthy values, and each
      such field exactly once when the list names it once. */
  lemma {:induction false} GraftedEffect(fields: Fields, names: seq<string>, separator: string, sort: bool)
    requires forall i, j :: 0 <= i < j < |names| ==> names[i] != names[j]
    requires Grafted(fields, names, separator, sort).Done?
    ensures var m := Grafted(fields, names, separator, sort).value;
      && m.Keys == fields.Keys
      && forall k :: k in fields ==>
           if k in names && Truthy(fields[k]) then
             GraftValue(fields[k], separator, sort).Some? && m[k] == GraftValue(fields[k], separator, sort).value
           else m[k] == fields[k]
  {
    if names != [] {
      var n := |names| - 1;
      GraftedEffect(fields, names[..n], separator, sort);
      assert names[n] !in names[..n];
      forall k | k in names ensures k in names[..n] || k == names[n] {
        var i :| 0 <= i < |names| && names[i] == k;
        if i < n { assert names[..n][i] == k; }
      }
    }
  }

  /** Grafting raises exactly when some listed truthy field cannot be grafted. */
  lemma {:induction false} GraftedRaisesIff(fields: Fields, names: seq<string>, separator: string, sort: bool)
    requires forall i, j :: 0 <= i < j < |names| ==> names[i] != names[j]
    ensures Grafted(fields, names, separator, sort).Raised? <==>
      exists k :: k in names && Truthy(Get(fields, k)) && GraftValue(Get(fields, k), separator, sort).None?
  {
    if names != [] {
      var n := |names| - 1;
      GraftedRaisesIff(fields, names[..n], separator, sort);
      assert names[n] !in names[..n];
      forall k | k in names ensures k in names[..n] || k == names[n] {
        var i :| 0 <= i < |names| && names[i] == k;
        if i < n { assert names[..n][i] == k; }
      }
      if Grafted(fields, names[..n], separator, sort).Done? {
        GraftedEffect(fields, names[..n], separator, sort);
        var st := Grafted(fields, names[..n], separator, sort).value;
        assert Get(st, names[n]) == Get(fields, names[n]);
      }
    }
  }

  /** graft_fields: updates the record in place and returns the same record. */
  method GraftFields(record: Rec, names: seq<string>, separator: string, sort: bool)
    returns (r: Rec, raised: bool)
    modifies record
    ensures r == record && record.id == old(record.id)
    ensures Grafted(old(record.fields), names, separator, sort) ==
      if raised then Raised(record.fields) else Done(record.fields)
  {
    r := record;
    raised := false;
    for i := 0 to |names|
      invariant record.id == old(record.id)
      invariant Grafted(old(record.fields), names[..i], separator, sort) == Done(record.fields)
    {
      assert names[..i + 1][..i] == names[..i];
      var value := Get(record.fields, names[i]);
      if Truthy(value) {
        var grafted := GraftValue(value, separator, sort);
        if grafted.None? {
          raised := true;
          GraftedRaisedStays(old(record.fields), names, i + 1, separator, sort);
          return;
        }
        record.fields := record.fields[names[i] := grafted.value];
      }
    }
    assert names[..|names|] == names;
  }

  /** Once grafting a prefix has raised, grafting the whole list raises with the
      same state. */
  lemma {:induction false} GraftedRaisedStays(fields: Fields, names: seq<string>, k: nat, separator: string, sort: bool)
    requires k <= |names|
    requires Grafted(fields, names[..k], separator, sort).Raised?
    ensures Grafted(fields, names, separator, sort) == Grafted(fields, names[..k], separator, sort)
    decreases |names| - k
  {
    if k < |names| {
      assert names[..k + 1][..k] == names[..k];
      GraftedRaisedStays(fields, names, k + 1, separator, sort);
    } else {
      assert names[..k] == names;
    }
  }

  // ---------------------------------------------------------------------------
  // link_tables

  /** The key map of the linked table: each record's truthy key value (as a
      dict key) to its id, later records overwriting earlier ones. None when
      Python raises: a key that cannot be hashed, or a keyed record without id. */
  function LinkKeyMap(tableB: seq<Record>, primaryKey: string): Option<map<Value, string>>
    decreases |tableB|
  {
    if tableB == [] then Some(map[])
    else
      var n := |tableB| - 1;
      match LinkKeyMap(tableB[..n], primaryKey)
      case None => None
      case Some(m) =>
        var v := Get(tableB[n].fields, primaryKey);
        if !Truthy(v) then Some(m)
        else if tableB[n].id.None? || !Hashable(v) then None
        else Some(m[Canon(v) := tableB[n].id.value])
  }

  /** In the key map, an entry exists exactly for the truthy keys of the linked
      table, and holds the id of the last record with that key. */
  lemma {:induction false} LinkKeyMapLastWins(tableB: seq<Record>, primaryKey: string)
    requires LinkKeyMap(tableB, primaryKey).Some?
    ensures var m := LinkKeyMap(tableB, primaryKey).value;
      forall key :: key in m <==>
        exists j :: 0 <= j < |tableB| && Truthy(Get(tableB[j].fields, primaryKey))
                    && Canon(Get(tableB[j].fields, primaryKey)) == key
    ensures var m := LinkKeyMap(tableB, primaryKey).value;
      forall j :: 0 <= j < |tableB| && Truthy(Get(tableB[j].fields, primaryKey)) ==>
        var key := Canon(Get(tableB[j].fields, primaryKey));
        (forall l :: j < l < |tableB| && Truthy(Get(tableB[l].fields, primaryKey)) ==>
            Canon(Get(tableB[l].fields, primaryKey)) != key)
        ==> tableB[j].id.Some? && m[key] == tableB[j].id.value
  {
    if tableB != [] {
      var n := |tableB| - 1;
      LinkKeyMapLastWins(tableB[..n], primaryKey);
      assert forall j :: 0 <= j < n ==> tableB[..n][j] == tableB[j];
    }
  }

  /** The ids of the tokens found in the key map, in token order; a token with
      no entry (or an empty id) is dropped. */
  function ResolveTokens(tokens: seq<string>, keyMap: map<Value, string>): (ids: seq<Value>)
    ensures forall i :: 0 <= i < |ids| ==> ids[i].VStr? && ids[i].s != "" && ids[i].s in keyMap.Values
  {
    if tokens == [] then []
    else
      var rest := ResolveTokens(tokens[1..], keyMap);
      var key := VStr(tokens[0]);
      if key in keyMap && keyMap[key] != "" then [VStr(keyMap[key])] + rest else rest
  }

  /** A text value's comma-separated tokens, each stripped. */
  function Tokens(s: string): (r: seq<string>)
    ensures |r| == |Split(s, ',')|
    ensures forall i :: 0 <= i < |r| ==> r[i] == Strip(Split(s, ',')[i])
  {
    var pieces := Split(s, ',');
    seq(|pieces|, i requires 0 <= i < |pieces| => Strip(pieces[i]))
  }

  /** The new value of one link field, read from the original record; None when
      Python raises (missing field, or a truthy value that is not text). */
  function LinkedValue(original: Fields, field: string, keyMap: map<Value, string>): Option<Option<Value>>
  {
    if field !in original then None
    else if !Truthy(original[field]) then Some(None)
    else if !original[field].VStr? then None
    else Some(Some(VList(ResolveTokens(Tokens(original[field].s), keyMap))))
  }

  /** The deep copy of `original` with the first `fieldsToLink` resolved. */
  function LinkRecordFields(original: Fields, fieldsToLink: seq<string>, keyMap: map<Value, string>): Option<Fields>
    decreases |fieldsToLink|
  {
    if fieldsToLink == [] then Some(original)
    else
      var n := |fieldsToLink| - 1;
      var field := Strip(fieldsToLink[n]);
      match LinkRecordFields(original, fieldsToLink[..n], keyMap)
      case None => None
      case Some(acc) =>
        match LinkedValue(original, field, keyMap)
        case None => None
        case Some(None) => Some(acc)
        case Some(Some(v)) => Some(acc[field := v])
  }

  /** The linked copies of a table's records, in order; None when Python raises. */
  function LinkAll(tableA: seq<Record>, fieldsToLink: seq<string>, keyMap: map<Value, string>): Option<seq<Record>>
    decreases |tableA|
  {
    if tableA == [] then Some([])
    else
      var n := |tableA| - 1;
      match LinkAll(tableA[..n], fieldsToLink, keyMap)
      case None => None
      case Some(done) =>
        match LinkRecordFields(tableA[n].fields, fieldsToLink, keyMap)
        case None => None
        case Some(f) => Some(done + [Record(tableA[n].id, f)])
  }

  function LinkedTable(tableA: seq<Record>, tableB: seq<Record>, fieldsToLink: seq<string>, primaryKeyB: string)
    : Option<seq<Record>>
  {
    match LinkKeyMap(tableB, Strip(primaryKeyB))
    case None => None
    case Some(keyMap) => LinkAll(tableA, fieldsToLink, keyMap)
  }

  /** The names of the link fields, stripped. */
  function LinkFieldNames(fieldsToLink: seq<string>): set<string>
    decreases |fieldsToLink|
  {
    if fieldsToLink == [] then {}
    else LinkFieldNames(fieldsToLink[..|fieldsToLink| - 1]) + {Strip(fieldsToLink[|fieldsToLink| - 1])}
  }

  /** What link_tables leaves in field `k` of a copy: the resolved ids for a
      truthy text link field, the original value otherwise. */
  function LinkedFieldValue(original: Fields, k: string, linkNames: set<string>, keyMap: map<Value, string>): Value
    requires k in original
  {
    if k in linkNames && Truthy(original[k]) && original[k].VStr? then
      VList(ResolveTokens(Tokens(original[k].s), keyMap))
    else original[k]
  }

  /** One linked record: a field named among the link fields (after stripping)
      that is truthy is text and now holds the resolved ids; every other field
      is untouched. */
  lemma {:induction false} LinkRecordFieldsEffect(original: Fields, fieldsToLink: seq<string>, keyMap: map<Value, string>)
    requires LinkRecordFields(original, fieldsToLink, keyMap).Some?
    ensures var f := LinkRecordFields(original, fieldsToLink, keyMap).value;
      && f.Keys == original.Keys
      && forall k :: k in original ==> f[k] == LinkedFieldValue(original, k, LinkFieldNames(fieldsToLink), keyMap)
  {
    if fieldsToLink != [] {
      var n := |fieldsToLink| - 1;
      var field := Strip(fieldsToLink[n]);
      LinkRecordFieldsEffect(original, fieldsToLink[..n], keyMap);
      var names, prev := LinkFieldNames(fieldsToLink), LinkFieldNames(fieldsToLink[..n]);
      assert names == prev + {field};
      var acc := LinkRecordFields(original, fieldsToLink[..n], keyMap).value;
      assert field in original;
      var f := LinkRecordFields(original, fieldsToLink, keyMap).value;
      var lv := LinkedValue(original, field, keyMap).value;
      if lv.None? {
        assert f == acc;
        assert !Truthy(original[field]);
        assert f[field] == acc[field] == original[field];
      } else {
        assert f == acc[field := lv.value];
        assert Truthy(original[field]) && original[field].VStr?;
        assert f[field] == VList(ResolveTokens(Tokens(original[field].s), keyMap));
      }
      assert f.Keys == original.Keys;
      forall k | k in original
        ensures f[k] == LinkedFieldValue(original, k, names, keyMap)
      {
        if k != field {
          assert k in names <==> k in prev;
          assert f[k] == acc[k] == LinkedFieldValue(original, k, prev, keyMap);
        }
      }
    }
  }

  /** Linking succeeds only when every named field is present, and a truthy
      one holds a string. */
  lemma {:induction false} LinkRecordFieldsChecks(original: Fields, fieldsToLink: seq<string>, keyMap: map<Value, string>)
    requires LinkRecordFields(original, fieldsToLink, keyMap).Some?
    ensures forall k :: k in LinkFieldNames(fieldsToLink) ==> k in original
    ensures forall k :: k in LinkFieldNames(fieldsToLink) && Truthy(original[k]) ==> original[k].VStr?
  {
    if fieldsToLink != [] {
      var n := |fieldsToLink| - 1;
      LinkRecordFieldsChecks(original, fieldsToLink[..n], keyMap);
      assert LinkFieldNames(fieldsToLink) == LinkFieldNames(fieldsToLink[..n]) + {Strip(fieldsToLink[n])};
    }
  }

  lemma {:induction false} LinkAllShape(tableA: seq<Record>, fieldsToLink: seq<string>, keyMap: map<Value, string>)
    requires LinkAll(tableA, fieldsToLink, keyMap).Some?
    ensures var t := LinkAll(tableA, fieldsToLink, keyMap).value;
      && |t| == |tableA|
      && forall i :: 0 <= i < |tableA| ==>
           && LinkRecordFields(tableA[i].fields, fieldsToLink, keyMap).Some?
           && t[i] == Record(tableA[i].id, LinkRecordFields(tableA[i].fields, fieldsToLink, keyMap).value)
  {
    if tableA != [] {
      var n := |tableA| - 1;
      LinkAllShape(tableA[..n], fieldsToLink, keyMap);
      var prev := LinkAll(tableA[..n], fieldsToLink, keyMap).value;
      var f := LinkRecordFields(tableA[n].fields, fieldsToLink, keyMap).value;
      var t := LinkAll(tableA, fieldsToLink, keyMap).value;
      assert t == prev + [Record(tableA[n].id, f)];
      forall i | 0 <= i < |tableA|
        ensures LinkRecordFields(tableA[i].fields, fieldsToLink, keyMap).Some?
        ensures t[i] == Record(tableA[i].id, LinkRecordFields(tableA[i].fields, fieldsToLink, keyMap).value)
      {
        if i < n {
          assert tableA[..n][i] == tableA[i] && t[i] == prev[i];
        } else {
          assert i == n && t[i] == Record(tableA[n].id, f);
        }
      }
    }
  }


  /** link_tables: builds the key map of `tableB`, then a new list of linked
      deep copies of the records of `tableA`; `tableA` is left as it was. None
      stands for the exception Python would raise. */
  method LinkTables(tableA: seq<Record>, tableB: seq<Record>, fieldsToLinkInA: seq<string>, primaryKeyB: string)
    returns (newTable: Option<seq<Record>>)
    ensures newTable == LinkedTable(tableA, tableB, fieldsToLinkInA, primaryKeyB)
  {
    var keyMap := BuildLinkKeyMap(tableB, Strip(primaryKeyB));
    if keyMap.None? {
      return None;
    }
    var linked: seq<Record> := [];
    for i := 0 to |tableA|
      invariant LinkAll(tableA[..i], fieldsToLinkInA, keyMap.value) == Some(linked)
    {
      assert tableA[..i + 1][..i] == tableA[..i];
      var newFields := LinkRecord(tableA[i].fields, fieldsToLinkInA, keyMap.value);
      if newFields.None? {
        LinkAllPrefixNone(tableA, fieldsToLinkInA, i + 1, keyMap.value);
        return None;
      }
      linked := linked + [Record(tableA[i].id, newFields.value)];
    }
    assert tableA[..|tableA|] == tableA;
    newTable := Some(linked);
  }

  /** The dict comprehension of link_tables, as a loop. */
  method BuildLinkKeyMap(tableB: seq<Record>, primaryKey: string) returns (keyMap: Option<map<Value, string>>)
    ensures keyMap == LinkKeyMap(tableB, primaryKey)
  {
    var m: map<Value, string> := map[];
    for j := 0 to |tableB|
      invariant LinkKeyMap(tableB[..j], primaryKey) == Some(m)
    {
      assert tableB[..j + 1][..j] == tableB[..j];
      var v := Get(tableB[j].fields, primaryKey);
      if Truthy(v) {
        if tableB[j].id.None? || !Hashable(v) {
          LinkKeyMapNoneStays(tableB, primaryKey, j + 1);
          return None;
        }
        m := m[Canon(v) := tableB[j].id.value];
      }
    }
    assert tableB[..|tableB|] == tableB;
    keyMap := Some(m);
  }

  /** Linking one more field of the list. */
  lemma LinkRecordFieldsExtend(original: Fields, fieldsToLink: seq<string>, l: nat, keyMap: map<Value, string>, copy: Fields)
    requires l < |fieldsToLink| && LinkRecordFields(original, fieldsToLink[..l], keyMap) == Some(copy)
    ensures var field := Strip(fieldsToLink[l]);
      LinkRecordFields(original, fieldsToLink[..l + 1], keyMap) ==
        match LinkedValue(original, field, keyMap)
        case None => None
        case Some(None) => Some(copy)
        case Some(Some(v)) => Some(copy[field := v])
  {
    assert fieldsToLink[..l + 1][..l] == fieldsToLink[..l];
  }

  /** The inner loop of link_tables: resolves each link field of one record,
      reading the original and writing the copy. */
  method LinkRecord(original: Fields, fieldsToLink: seq<string>, keyMap: map<Value, string>)
    returns (newFields: Option<Fields>)
    ensures newFields == LinkRecordFields(original, fieldsToLink, keyMap)
  {
    var copy := original;
    for l := 0 to |fieldsToLink|
      invariant LinkRecordFields(original, fieldsToLink[..l], keyMap) == Some(copy)
    {
      LinkRecordFieldsExtend(original, fieldsToLink, l, keyMap, copy);
      var field := Strip(fieldsToLink[l]);
      if field !in original {
        LinkRecordFieldsNoneStays(original, fieldsToLink, l + 1, keyMap);
        return None;
      }
      var val := original[field];
      if Truthy(val) {
        if !val.VStr? {
          LinkRecordFieldsNoneStays(original, fieldsToLink, l + 1, keyMap);
          return None;
        }
        copy := copy[field := VList(ResolveTokens(Tokens(val.s), keyMap))];
      }
    }
    assert fieldsToLink[..|fieldsToLink|] == fieldsToLink;
    newFields := Some(copy);
  }

  lemma {:induction false} LinkKeyMapNoneStays(tableB: seq<Record>, primaryKey: string, k: nat)
    requires k <= |tableB| && LinkKeyMap(tableB[..k], primaryKey).None?
    ensures LinkKeyMap(tableB, primaryKey).None?
    decreases |tableB| - k
  {
    if k < |tableB| {
      assert tableB[..k + 1][..k] == tableB[..k];
      LinkKeyMapNoneStays(tableB, primaryKey, k + 1);
    } else {
      assert tableB[..k] == tableB;
    }
  }

  lemma {:induction false} LinkRecordFieldsNoneStays(original: Fields, fieldsToLink: seq<string>, k: nat, keyMap: map<Value, string>)
    requires k <= |fieldsToLink| && LinkRecordFields(original, fieldsToLink[..k], keyMap).None?
    ensures LinkRecordFields(original, fieldsToLink, keyMap).None?
    decreases |fieldsToLink| - k
  {
    if k < |fieldsToLink| {
      assert fieldsToLink[..k + 1][..k] == fieldsToLink[..k];
      LinkRecordFieldsNoneStays(original, fieldsToLink, k + 1, keyMap);
    } else {
      assert fieldsToLink[..k] == fieldsToLink;
    }
  }

  lemma {:induction false} LinkAllPrefixNone(tableA: seq<Record>, fieldsToLink: seq<string>, k: nat, keyMap: map<Value, string>)
    requires 0 < k <= |tableA|
    requires LinkAll(tableA[..k], fieldsToLink, keyMap).None?
    ensures LinkAll(tableA, fieldsToLink, keyMap).None?
    decreases |tableA| - k
  {
    if k < |tableA| {
      assert tableA[..k + 1][..k] == tableA[..k];
      LinkAllPrefixNone(tableA, fieldsToLink, k + 1, keyMap);
    } else {
      assert tableA[..k] == tableA;
    }
  }

  // ---------------------------------------------------------------------------
  // combine_records

  /** The items `for item in v` yields: a list's or tuple's elements, a string's
      characters, a dict's keys (taken in ascending order, since the model's
      dicts keep no insertion order). None when iterating raises (None,
      booleans, numbers). */
  function Iterated(v: Value): Option<seq<Value>>
  {
    match v
    case VList(items) => Some(items)
    case VTuple(items) => Some(items)
    case VStr(s) => Some(seq(|s|, i requires 0 <= i < |s| => VStr([s[i]])))
    case VDict(entries) => Some(Strs(SortedKeys(entries.Keys)))
    case _ => None
  }

  /** `xs` extended in place: each item of `ys` is appended unless an equal one
      is already present (checked against the growing list). */
  function AppendMissing(xs: seq<Value>, ys: seq<Value>): seq<Value>
    decreases |ys|
  {
    if ys == [] then xs
    else
      var acc := AppendMissing(xs, ys[..|ys| - 1]);
      if InSeq(ys[|ys| - 1], acc) then acc else acc + [ys[|ys| - 1]]
  }

  /** The union keeps the candidate's list as a prefix, holds every item of the
      existing list, and appends only items that were not yet present. */
  lemma {:induction false} AppendMissingUnion(xs: seq<Value>, ys: seq<Value>)
    ensures var r := AppendMissing(xs, ys);
      && |xs| <= |r| && r[..|xs|] == xs
      && (forall j :: 0 <= j < |ys| ==> InSeq(ys[j], r))
      && (forall i :: |xs| <= i < |r| ==> r[i] in ys && !InSeq(r[i], r[..i]))
  {
    if ys != [] {
      var n := |ys| - 1;
      AppendMissingUnion(xs, ys[..n]);
      var acc := AppendMissing(xs, ys[..n]);
      var r := AppendMissing(xs, ys);
      forall j | 0 <= j < |ys| ensures InSeq(ys[j], r) {
        if j < n {
          assert ys[..n][j] == ys[j];
          var i :| 0 <= i < |acc| && PyEq(acc[i], ys[j]);
          assert r[i] == acc[i];
        } else if !InSeq(ys[n], acc) {
          assert r[|acc|] == ys[n];
          PyEqReflexive(ys[n]);
        }
      }
      forall i | |xs| <= i < |r| ensures r[i] in ys && !InSeq(r[i], r[..i]) {
        if i < |acc| {
          assert r[..i] == acc[..i];
          assert r[i] in ys[..n];
        } else {
          assert r[..i] == acc;
        }
      }
    }
  }

  /** The combined value of one field, or None when Python raises: lists are
      unioned, strings joined with ", ", numbers (bools included) and tuples
      added; any other value is kept. */
  function CombineValue(a: Value, b: Option<Value>): Option<Value>
  {
    if a.VList? then
      if b.Some? && Iterated(b.value).Some? then Some(VList(AppendMissing(a.items, Iterated(b.value).value)))
      else None
    else if a.VStr? then
      if b.Some? && b.value.VStr? then Some(VStr(a.s + ", " + b.value.s)) else None
    else if IsNumber(a) then
      if b.Some? && IsNumber(b.value) then Some(VInt(NumberOf(a) + NumberOf(b.value))) else None
    else if a.VTuple? then
      if b.Some? && b.value.VTuple? then Some(VTuple(a.items + b.value.items)) else None
    else Some(a)
  }

  /** A list combined with a dict gets the dict's keys that it lacks, as
      `for item in dict` yields them; the list's own items stay in front. */
  lemma CombineListAppendsDictKeys(items: seq<Value>, entries: map<string, Value>)
    ensures CombineValue(VList(items), Some(VDict(entries))).Some?
    ensures var r := CombineValue(VList(items), Some(VDict(entries))).value;
      && r.VList? && |items| <= |r.items| && r.items[..|items|] == items
      && (forall k :: k in entries ==> InSeq(VStr(k), r.items))
      && (forall i :: |items| <= i < |r.items| ==> r.items[i].VStr? && r.items[i].s in entries)
  {
    CombineListDict(items, entries);
    AppendMissingKeys(items, entries.Keys);
  }

  lemma CombineListDict(items: seq<Value>, entries: map<string, Value>)
    ensures CombineValue(VList(items), Some(VDict(entries))) == Some(VList(AppendMissing(items, Strs(SortedKeys(entries.Keys)))))
  {
  }

  /** Appending the missing ones of a set of keys, in ascending order. */
  lemma AppendMissingKeys(items: seq<Value>, keySet: set<string>)
    ensures var r := AppendMissing(items, Strs(SortedKeys(keySet)));
      && |items| <= |r| && r[..|items|] == items
      && (forall k :: k in keySet ==> InSeq(VStr(k), r))
      && (forall i :: |items| <= i < |r| ==> r[i].VStr? && r[i].s in keySet)
  {
    var keys := SortedKeys(keySet);
    var ys := Strs(keys);
    AppendMissingUnion(items, ys);
    var r := AppendMissing(items, ys);
    forall k | k in keySet ensures InSeq(VStr(k), r) {
      assert k in keys;
      var j :| 0 <= j < |keys| && keys[j] == k;
      assert ys[j] == VStr(k);
    }
    forall i | |items| <= i < |r| ensures r[i].VStr? && r[i].s in keySet {
      assert r[i] in ys;
      var j :| 0 <= j < |ys| && ys[j] == r[i];
      assert keys[j] in keys;
    }
  }

  function Lookup(fields: Fields, key: string): Option<Value>
  {
    if key in fields then Some(fields[key]) else None
  }

  /** The state of a merge: the candidate's fields (whose lists grow in place)
      and the fields of the record being built. */
  datatype Merge = Merge(candidate: Fields, combined: Fields)

  /** The merge after `keys`, in order; Raised when a key is missing from the
      candidate or its value cannot be combined. */
  function Combining(candidate: Fields, existing: Fields, keys: seq<string>): Attempt<Merge>
    decreases |keys|
  {
    if keys == [] then Done(Merge(candidate, map[]))
    else
      var n := |keys| - 1;
      var k := keys[n];
      match Combining(candidate, existing, keys[..n])
      case Raised(st) => Raised(st)
      case Done(st) =>
        if k !in st.candidate then Raised(st)
        else match CombineValue(st.candidate[k], Lookup(existing, k))
          case None => Raised(st)
          case Some(v) =>
            Done(Merge(if st.candidate[k].VList? then st.candidate[k := v] else st.candidate, st.combined[k := v]))
  }

  /** The set of names in a list. */
  function SetOf(keys: seq<string>): set<string>
  {
    set k | k in keys
  }

  predicate Distinct(keys: seq<string>)
  {
    forall i, j :: 0 <= i < j < |keys| ==> keys[i] != keys[j]
  }

  /** What a finished merge over `keys` holds: each listed field of the result
      is CombineValue of that field alone, the candidate's list fields hold the
      same unions, and its other fields are unchanged. */
  predicate MergedPerKey(candidate: Fields, existing: Fields, keys: seq<string>, m: Merge)
  {
    && (forall k :: k in keys ==>
          k in candidate && k in m.combined && CombineValue(candidate[k], Lookup(existing, k)) == Some(m.combined[k]))
    && (forall k :: k in m.combined ==> k in keys)
    && m.candidate.Keys == candidate.Keys
    && (forall k :: k in candidate && !(k in keys && candidate[k].VList?) ==> m.candidate[k] == candidate[k])
    && (forall k :: k in keys && candidate[k].VList? ==> m.candidate[k] == m.combined[k])
  }

  /** Over distinct keys a merge does not depend on the order of the keys. */
  lemma {:induction false} CombiningPerKey(candidate: Fields, existing: Fields, keys: seq<string>)
    requires Distinct(keys)
    requires Combining(candidate, existing, keys).Done?
    ensures MergedPerKey(candidate, existing, keys, Combining(candidate, existing, keys).value)
  {
    if keys != [] {
      var n := |keys| - 1;
      var k := keys[n];
      var prefix := keys[..n];
      assert keys == prefix + [k];
      assert Combining(candidate, existing, prefix).Done?;
      CombiningPerKey(candidate, existing, prefix);
      var st := Combining(candidate, existing, prefix).value;
      assert k !in prefix;
      assert k in st.candidate;
      assert st.candidate[k] == candidate[k];
      var v := CombineValue(candidate[k], Lookup(existing, k)).value;
      var m := Combining(candidate, existing, keys).value;
      var mc := if candidate[k].VList? then st.candidate[k := v] else st.candidate;
      assert m == Merge(mc, st.combined[k := v]);
      forall x | x in keys
        ensures x in candidate && x in m.combined && CombineValue(candidate[x], Lookup(existing, x)) == Some(m.combined[x])
      {
        if x != k {
          assert x in prefix;
        }
      }
      forall x | x in m.combined ensures x in keys {
        if x != k {
          assert x in prefix;
        }
      }
      forall x | x in candidate && !(x in keys && candidate[x].VList?) ensures m.candidate[x] == candidate[x] {
        if x != k {
          assert !(x in prefix && candidate[x].VList?);
        }
      }
      forall x | x in keys && candidate[x].VList? ensures m.candidate[x] == m.combined[x] {
        if x != k {
          assert x in prefix;
        }
      }
    }
  }

  /** Over distinct keys a merge raises exactly when some key is missing from
      the candidate or its field cannot be combined. */
  lemma {:induction false} CombiningRaisesIff(candidate: Fields, existing: Fields, keys: seq<string>)
    requires Distinct(keys)
    ensures Combining(candidate, existing, keys).Raised? <==>
      exists k :: k in keys && (k !in candidate || CombineValue(candidate[k], Lookup(existing, k)).None?)
  {
    if keys != [] {
      var n := |keys| - 1;
      var k := keys[n];
      var prefix := keys[..n];
      assert keys == prefix + [k];
      CombiningRaisesIff(candidate, existing, prefix);
      if Combining(candidate, existing, prefix).Done? {
        CombiningPerKey(candidate, existing, prefix);
        var st := Combining(candidate, existing, prefix).value;
        assert k !in prefix;
        if k in candidate {
          assert st.candidate[k] == candidate[k];
        }
      } else {
        var x :| x in prefix && (x !in candidate || CombineValue(candidate[x], Lookup(existing, x)).None?);
        assert x in keys;
      }
    }
  }

  /** The keys of a dict, one by one, in some order. */
  method KeysOf(fields: Fields) returns (keys: seq<string>)
    ensures Distinct(keys) && SetOf(keys) == fields.Keys
  {
    keys := [];
    var rest := fields.Keys;
    while rest != {}
      invariant Distinct(keys)
      invariant rest !! SetOf(keys) && rest + SetOf(keys) == fields.Keys
      decreases rest
    {
      var k :| k in rest;
      keys := keys + [k];
      rest := rest - {k};
    }
  }

  /** combine_records: merges the candidate `recordA` into a new record with the
      id of `recordB`. List fields of `recordA` are extended in place. When
      `recordB` has no id or a field raises, `recordA` itself is returned. The
      existing record is only read, so it is passed by value. The ghost `keys`
      is the order in which the fields were visited. */
  method CombineRecords(recordA: Rec, recordB: Record, joinFields: seq<string>)
    returns (r: Rec, ghost keys: seq<string>)
    modifies recordA
    ensures recordA.id == old(recordA.id)
    ensures joinFields != [] ==> keys == joinFields
    ensures joinFields == [] ==> Distinct(keys) && SetOf(keys) == old(recordA.fields).Keys
    ensures recordB.id.None? ==> r == recordA && recordA.fields == old(recordA.fields)
    ensures recordB.id.Some? ==>
      var outcome := Combining(old(recordA.fields), recordB.fields, keys);
      && recordA.fields == (if outcome.Done? then outcome.value.candidate else outcome.state.candidate)
      && (outcome.Raised? ==> r == recordA)
      && (outcome.Done? ==> fresh(r) && r.id == recordB.id && r.fields == outcome.value.combined)
  {
    var order := joinFields;
    if joinFields == [] {
      order := KeysOf(recordA.fields);
    }
    keys := order;
    if recordB.id.None? {
      return recordA, keys;
    }
    var combined, raised := MergeFields(recordA, recordB.fields, order);
    if raised {
      return recordA, keys;
    }
    r := new Rec(Record(recordB.id, combined));
  }

  /** The loop of combine_records over `order`: the candidate's list fields
      grow in place and the merged fields are collected. */
  method MergeFields(recordA: Rec, existing: Fields, order: seq<string>)
    returns (combined: Fields, raised: bool)
    modifies recordA
    ensures recordA.id == old(recordA.id)
    ensures Combining(old(recordA.fields), existing, order)
      == (if raised then Raised(Merge(recordA.fields, combined)) else Done(Merge(recordA.fields, combined)))
  {
    ghost var candidate := recordA.fields;
    combined := map[];
    for i := 0 to |order|
      invariant recordA.id == old(recordA.id) && candidate == old(recordA.fields)
      invariant Combining(candidate, existing, order[..i]) == Done(Merge(recordA.fields, combined))
    {
      assert order[..i + 1][..i] == order[..i];
      var key := order[i];
      if key !in recordA.fields {
        CombiningRaisedStays(candidate, existing, order, i + 1);
        return combined, true;
      }
      var field := CombineValue(recordA.fields[key], Lookup(existing, key));
      if field.None? {
        CombiningRaisedStays(candidate, existing, order, i + 1);
        return combined, true;
      }
      if recordA.fields[key].VList? {
        recordA.fields := recordA.fields[key := field.value];
      }
      combined := combined[key := field.value];
    }
    assert order[..|order|] == order;
    raised := false;
  }

  lemma {:induction false} CombiningRaisedStays(candidate: Fields, existing: Fields, keys: seq<string>, k: nat)
    requires k <= |keys| && Combining(candidate, existing, keys[..k]).Raised?
    ensures Combining(candidate, existing, keys) == Combining(candidate, existing, keys[..k])
    decreases |keys| - k
  {
    if k < |keys| {
      assert keys[..k + 1][..k] == keys[..k];
      CombiningRaisedStays(candidate, existing, keys, k + 1);
    } else {
      assert keys[..k] == keys;
    }
  }

  // ---------------------------------------------------------------------------
  // filter_record

  /** Whether filter_record keeps field `k` of the candidate: it differs (`!=`)
      from the existing value, or the existing record lacks it and the
      candidate's value is truthy. */
  predicate Changed(candidate: Fields, existing: Fields, k: string)
    requires k in candidate
  {
    if k in existing then !PyEq(candidate[k], existing[k]) else Truthy(candidate[k])
  }

  /** The candidate's fields among `keys` that would change the existing record. */
  function Delta(candidate: Fields, existing: Fields, keys: set<string>): (d: Fields)
    requires keys <= candidate.Keys
    ensures forall k :: k in d <==> k in keys && Changed(candidate, existing, k)
    ensures forall k :: k in d ==> d[k] == candidate[k]
  {
    map k | k in keys && Changed(candidate, existing, k) :: candidate[k]
  }

  /** The fields filter_record visits: the filter list when it is not empty,
      else every field of the candidate. */
  function FilterKeys(candidate: Fields, filterFields: seq<string>): set<string>
  {
    if filterFields != [] then SetOf(filterFields) else candidate.Keys
  }

  /** filter_record: the existing record's id with only the candidate's fields
      that would change it; the candidate unchanged when the existing record has
      no id; None (a KeyError) when a filter field is missing from the candidate. */
  function FilterResult(recordA: Record, recordB: Record, filterFields: seq<string>): Option<Record>
  {
    if recordB.id.None? then Some(recordA)
    else
      var keys := FilterKeys(recordA.fields, filterFields);
      if keys <= recordA.fields.Keys then Some(Record(recordB.id, Delta(recordA.fields, recordB.fields, keys)))
      else None
  }

  method FilterRecord(recordA: Record, recordB: Record, filterFields: seq<string>) returns (r: Option<Record>)
    ensures r == FilterResult(recordA, recordB, filterFields)
  {
    if recordB.id.None? {
      return Some(recordA);
    }
    var keys := filterFields;
    if filterFields == [] {
      keys := KeysOf(recordA.fields);
    }
    assert SetOf(keys) == FilterKeys(recordA.fields, filterFields);
    var fields: Fields := map[];
    for i := 0 to |keys|
      invariant SetOf(keys[..i]) <= recordA.fields.Keys
      invariant fields == Delta(recordA.fields, recordB.fields, SetOf(keys[..i]))
    {
      var key := keys[i];
      SetOfStep(keys, i);
      if key !in recordA.fields {
        assert key in SetOf(keys) && key !in recordA.fields.Keys;
        return None;
      }
      DeltaStep(recordA.fields, recordB.fields, SetOf(keys[..i]), key);
      if Changed(recordA.fields, recordB.fields, key) {
        fields := fields[key := recordA.fields[key]];
      }
    }
    assert keys[..|keys|] == keys;
    r := Some(Record(recordB.id, fields));
  }

  /** The keys of a prefix one longer. */
  lemma SetOfStep(keys: seq<string>, i: nat)
    requires i < |keys|
    ensures SetOf(keys[..i + 1]) == SetOf(keys[..i]) + {keys[i]}
  {
    assert keys[..i + 1] == keys[..i] + [keys[i]];
  }

  /** The delta over one more key. */
  lemma DeltaStep(candidate: Fields, existing: Fields, keys: set<string>, key: string)
    requires keys <= candidate.Keys && key in candidate
    ensures Delta(candidate, existing, keys + {key}) ==
      if Changed(candidate, existing, key) then Delta(candidate, existing, keys)[key := candidate[key]]
      else Delta(candidate, existing, keys)
  {
    var d, e := Delta(candidate, existing, keys + {key}), Delta(candidate, existing, keys);
    if Changed(candidate, existing, key) {
      assert d.Keys == e.Keys + {key};
    } else {
      assert d.Keys == e.Keys;
    }
  }

  /** A candidate that differs from the existing record only in field `x`
      filters down to that one field. */
  lemma FilterKeepsOnlyDifference(recordA: Record, recordB: Record, x: string)
    requires recordB.id.Some?
    requires x in recordA.fields && Changed(recordA.fields, recordB.fields, x)
    requires forall k :: k in recordA.fields && k != x ==> k in recordB.fields && PyEq(recordA.fields[k], recordB.fields[k])
    ensures FilterResult(recordA, recordB, []) == Some(Record(recordB.id, map[x := recordA.fields[x]]))
  {
    var d := Delta(recordA.fields, recordB.fields, recordA.fields.Keys);
    assert d == map[x := recordA.fields[x]];
  }

  /** Nothing is sent for a candidate whose every field already matches. */
  lemma FilterEmptyIff(recordA: Record, recordB: Record)
    requires recordB.id.Some?
    ensures FilterResult(recordA, recordB, []).Some?
    ensures FilterResult(recordA, recordB, []).value.fields == map[] <==>
      forall k :: k in recordA.fields ==> !Changed(recordA.fields, recordB.fields, k)
  {
    var d := Delta(recordA.fields, recordB.fields, recordA.fields.Keys);
    if d == map[] {
      forall k | k in recordA.fields ensures !Changed(recordA.fields, recordB.fields, k) {
        assert k !in d;
      }
    }
  }

  /** No drift: once the filtered fields are written to the existing record, the
      same candidate filters down to nothing. */
  lemma FilterNoDrift(recordA: Record, recordB: Record)
    requires recordB.id.Some?
    ensures var d := FilterResult(recordA, recordB, []).value.fields;
      FilterResult(recordA, Record(recordB.id, recordB.fields + d), []).value.fields == map[]
  {
    var d := Delta(recordA.fields, recordB.fields, recordA.fields.Keys);
    var updated := recordB.fields + d;
    forall k | k in recordA.fields ensures !Changed(recordA.fields, updated, k) {
      if k in d {
        PyEqReflexive(recordA.fields[k]);
      }
    }
    FilterEmptyIff(recordA, Record(recordB.id, updated));
  }

  // ---------------------------------------------------------------------------
  // override_record

  /** `{"ref_field": ..., "override_field": ...}`: when the checkbox `refField`
      is ticked on the existing record, `overrideField` keeps its existing value. */
  datatype Rule = Rule(refField: string, overrideField: string)

  /** The fields after applying `rules` in order; Raised (a KeyError) when a
      ticked rule names a field the existing record lacks. */
  function Overridden(fields: Fields, existing: Fields, rules: seq<Rule>): Attempt<Fields>
    decreases |rules|
  {
    if rules == [] then Done(fields)
    else
      var n := |rules| - 1;
      var rule := rules[n];
      match Overridden(fields, existing, rules[..n])
      case Raised(st) => Raised(st)
      case Done(st) =>
        if !Truthy(Get(existing, rule.refField)) then Done(st)
        else if rule.overrideField in existing then Done(st[rule.overrideField := existing[rule.overrideField]])
        else Raised(st)
  }

  /** The fields the user has locked on the existing record. */
  function Locked(existing: Fields, rules: seq<Rule>): set<string>
    decreases |rules|
  {
    if rules == [] then {}
    else
      var n := |rules| - 1;
      Locked(existing, rules[..n]) + (if Truthy(Get(existing, rules[n].refField)) then {rules[n].overrideField} else {})
  }

  /** Applying the rules sets every locked field to its existing value and
      leaves every other field alone. */
  lemma {:induction false} OverriddenEffect(fields: Fields, existing: Fields, rules: seq<Rule>)
    requires Overridden(fields, existing, rules).Done?
    ensures var m := Overridden(fields, existing, rules).value;
      && Locked(existing, rules) <= existing.Keys
      && m.Keys == fields.Keys + Locked(existing, rules)
      && (forall k :: k in Locked(existing, rules) ==> m[k] == existing[k])
      && (forall k :: k in fields && k !in Locked(existing, rules) ==> m[k] == fields[k])
  {
    if rules != [] {
      OverriddenEffect(fields, existing, rules[..|rules| - 1]);
    }
  }

  /** Overriding raises exactly when a locked field is missing from the
      existing record. */
  lemma {:induction false} OverriddenRaisesIff(fields: Fields, existing: Fields, rules: seq<Rule>)
    ensures Overridden(fields, existing, rules).Raised? <==> !(Locked(existing, rules) <= existing.Keys)
  {
    if rules != [] {
      var n := |rules| - 1;
      OverriddenRaisesIff(fields, existing, rules[..n]);
    }
  }

  /** Override precedence: after the rules are applied, filtering against the
      existing record drops every locked field and keeps exactly what filtering
      the other fields would keep. */
  lemma OverrideThenFilter(fields: Fields, existing: Fields, rules: seq<Rule>)
    requires Overridden(fields, existing, rules).Done?
    ensures var m := Overridden(fields, existing, rules).value;
      Delta(m, existing, m.Keys) == Delta(fields, existing, fields.Keys - Locked(existing, rules))
  {
    var m := Overridden(fields, existing, rules).value;
    var locked := Locked(existing, rules);
    OverriddenEffect(fields, existing, rules);
    var a := Delta(m, existing, m.Keys);
    var b := Delta(fields, existing, fields.Keys - locked);
    forall k ensures (k in a <==> k in b) && (k in a ==> a[k] == b[k]) {
      if k in locked {
        PyEqReflexive(existing[k]);
        assert !Changed(m, existing, k);
      } else if k in fields {
        assert m[k] == fields[k];
        assert Changed(m, existing, k) == Changed(fields, existing, k);
      }
    }
    assert a == b;
  }

  /** override_record: `record` takes the existing value of every ticked rule's
      field, in place. `raised` reports the KeyError of a missing field, with
      the fields written up to that rule. The existing record is only read. */
  method OverrideRecord(record: Rec, existingRecord: Record, overrides: seq<Rule>)
    returns (r: Rec, raised: bool)
    modifies record
    ensures r == record && record.id == old(record.id)
    ensures Overridden(old(record.fields), existingRecord.fields, overrides)
      == (if raised then Raised(record.fields) else Done(record.fields))
  {
    ghost var fields := record.fields;
    var existing := existingRecord.fields;
    for i := 0 to |overrides|
      invariant record.id == old(record.id) && fields == old(record.fields)
      invariant Overridden(fields, existing, overrides[..i]) == Done(record.fields)
    {
      assert overrides[..i + 1][..i] == overrides[..i];
      var rule := overrides[i];
      if Truthy(Get(existing, rule.refField)) {
        if rule.overrideField !in existing {
          OverriddenRaisedStays(fields, existing, overrides, i + 1);
          return record, true;
        }
        record.fields := record.fields[rule.overrideField := existing[rule.overrideField]];
      }
    }
    assert overrides[..|overrides|] == overrides;
    return record, false;
  }

  lemma {:induction false} OverriddenRaisedStays(fields: Fields, existing: Fields, rules: seq<Rule>, k: nat)
    requires k <= |rules| && Overridden(fields, existing, rules[..k]).Raised?
    ensures Overridden(fields, existing, rules) == Overridden(fields, existing, rules[..k])
    decreases |rules| - k
  {
    if k < |rules| {
      assert rules[..k + 1][..k] == rules[..k];
      OverriddenRaisedStays(fields, existing, rules, k + 1);
    } else {
      assert rules[..k] == rules;
    }
  }

  // ---------------------------------------------------------------------------
  // compare_records

  /** compare_records on values: the candidate's fields afterwards and the
      record returned (None when an exception was swallowed, including the
      unbound result when no override ran and the mode is neither "overwrite"
      nor "combine"). `keys` is the order the combining pass visits. */
  function Compared(recordA: Record, recordB: Record, mode: string, overrides: seq<Rule>,
                    filterFields: seq<string>, keys: seq<string>): (Fields, Option<Record>)
  {
    match Overridden(recordA.fields, recordB.fields, overrides)
    case Raised(st) => (st, None)
    case Done(fields) =>
      var prepared := Record(recordA.id, fields);
      if mode == "overwrite" then (fields, FilterResult(prepared, recordB, filterFields))
      else if mode == "combine" then
        if recordB.id.None? then (fields, Some(prepared))
        else match Combining(fields, recordB.fields, keys)
          case Done(m) => (m.candidate, Some(Record(recordB.id, m.combined)))
          case Raised(m) => (m.candidate, Some(Record(recordA.id, m.candidate)))
      else (fields, if overrides == [] then None else Some(prepared))
  }

  /** In "overwrite" mode the update holds what filtering the unlocked fields
      gives: a locked field is never sent back to the service. */
  lemma CompareOverwriteSkipsLocked(recordA: Record, recordB: Record, overrides: seq<Rule>, keys: seq<string>)
    requires recordB.id.Some?
    requires Locked(recordB.fields, overrides) <= recordB.fields.Keys
    ensures var out := Compared(recordA, recordB, "overwrite", overrides, [], keys).1;
      out == Some(Record(recordB.id, Delta(recordA.fields, recordB.fields, recordA.fields.Keys - Locked(recordB.fields, overrides))))
  {
    OverriddenRaisesIff(recordA.fields, recordB.fields, overrides);
    OverrideThenFilter(recordA.fields, recordB.fields, overrides);
  }

  /** A mode that is neither "overwrite" nor "combine" leaves the result name
      unbound when no override ran, and the swallowed error gives None; with
      overrides the overridden candidate itself comes back. */
  lemma CompareUnknownMode(recordA: Record, recordB: Record, mode: string, overrides: seq<Rule>,
                           filterFields: seq<string>, keys: seq<string>)
    requires mode != "overwrite" && mode != "combine"
    ensures var out := Compared(recordA, recordB, mode, overrides, filterFields, keys).1;
      && (out.None? <==> overrides == [] || Overridden(recordA.fields, recordB.fields, overrides).Raised?)
      && (out.Some? ==> out.value == Record(recordA.id, Overridden(recordA.fields, recordB.fields, overrides).value))
  {
  }

  /** compare_records: overrides, then filters ("overwrite") or combines
      ("combine") the candidate against the existing record. */
  method CompareRecords(recordA: Rec, recordB: Record, mode: string, overrides: seq<Rule>, filterFields: seq<string>)
    returns (r: Option<Rec>, ghost keys: seq<string>)
    modifies recordA
    ensures recordA.id == old(recordA.id)
    ensures var outcome := Compared(old(recordA.Snapshot()), recordB, mode, overrides, filterFields, keys);
      && recordA.fields == outcome.0
      && (r.None? <==> outcome.1.None?)
      && (r.Some? ==> r.value.Snapshot() == outcome.1.value)
    ensures mode == "combine" && filterFields != [] ==> keys == filterFields
    ensures mode == "combine" && filterFields == [] && Overridden(old(recordA.fields), recordB.fields, overrides).Done? ==>
      Distinct(keys) && SetOf(keys) == Overridden(old(recordA.fields), recordB.fields, overrides).value.Keys
  {
    keys := filterFields;
    var o, raised := OverrideRecord(recordA, recordB, overrides);
    if raised {
      return None, keys;
    }
    if mode == "overwrite" {
      var f := FilterRecord(recordA.Snapshot(), recordB, filterFields);
      if f.None? {
        return None, keys;
      }
      if recordB.id.None? {
        r := Some(recordA);
      } else {
        var n := new Rec(f.value);
        r := Some(n);
      }
    } else if mode == "combine" {
      var c;
      c, keys := CombineRecords(recordA, recordB, filterFields);
      r := Some(c);
    } else if overrides != [] {
      r := Some(recordA);
    } else {
      r := None;
    }
  }

  // ---------------------------------------------------------------------------
  // replace_values

  /** `"url" in obj`; None when `in` raises (None, numbers). */
  function HasUrl(obj: Value): Option<bool>
  {
    match obj
    case VDict(m) => Some("url" in m)
    case VStr(s) => Some(Contains(s, "url"))
    case VList(items) => Some(InSeq(VStr("url"), items))
    case VTuple(items) => Some(InSeq(VStr("url"), items))
    case _ => None
  }

  /** `[{"url": obj["url"]} for obj in items if "url" in obj]`; None when an
      item raises (no `in`, or not a dict yet holding "url"). */
  function UrlObjects(items: seq<Value>): Option<seq<Value>>
  {
    if items == [] then Some([])
    else
      match HasUrl(items[0])
      case None => None
      case Some(has) =>
        if !has then UrlObjects(items[1..])
        else if !items[0].VDict? then None
        else match UrlObjects(items[1..])
          case None => None
          case Some(rest) => Some([VDict(map["url" := items[0].entries["url"]])] + rest)
  }

  /** replace_values: a list starting with a dict (an attachment list) is cut
      down to the url of each object; other values are kept. None is the
      IndexError on an empty list. */
  function ReplaceValues(field: string, value: Value): (r: Option<Value>)
    ensures !value.VList? ==> r == Some(value)
    ensures value == VList([]) ==> r.None?
  {
    if !value.VList? then Some(value)
    else if value.items == [] then None
    else if !value.items[0].VDict? then Some(value)
    else match UrlObjects(value.items)
      case None => None
      case Some(objects) => Some(VList(objects))
  }

  /** An attachment list becomes the list of `{"url": ...}` objects of the
      attachments that have a url, in order. */
  lemma {:induction false} UrlObjectsOfAttachments(items: seq<Value>)
    requires forall i :: 0 <= i < |items| ==> items[i].VDict?
    ensures UrlObjects(items).Some?
    ensures var ys := UrlObjects(items).value;
      && |ys| <= |items|
      && (forall j :: 0 <= j < |ys| ==> ys[j].VDict? && ys[j].entries.Keys == {"url"})
      && ((forall i :: 0 <= i < |items| ==> "url" in items[i].entries) ==>
            |ys| == |items| && forall i :: 0 <= i < |items| ==> ys[i].entries["url"] == items[i].entries["url"])
  {
    if items != [] {
      UrlObjectsOfAttachments(items[1..]);
      var rest := UrlObjects(items[1..]).value;
      var ys := UrlObjects(items).value;
      if "url" in items[0].entries {
        assert ys == [VDict(map["url" := items[0].entries["url"]])] + rest;
        if forall i :: 0 <= i < |items| ==> "url" in items[i].entries {
          forall i | 0 < i < |items| ensures ys[i].entries["url"] == items[i].entries["url"] {
            assert items[1..][i - 1] == items[i];
          }
        }
      }
    }
  }
}
