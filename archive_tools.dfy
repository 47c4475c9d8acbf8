/** The helpers of the older engine in airbase/archive/tools.py: filter
    formulas, the method order, value analysis, field discovery, the
    first-match record lookup, field replacement and link-data assembly. */
module ArchiveTools {
  import opened Values
  import opened Text
  import opened Show
  import opened Tools

  // ---------------------------------------------------------------------------
  // compose_formula

  /** `entry[0]` and `entry[1]` of one dict value. Outer None is the
      IndexError or TypeError that escapes; Some(None) is the KeyError of a
      dict entry, which is caught. */
  function EntryParts(v: Value): Option<Option<(Value, Value)>>
  {
    match v
    case VList(items) => if |items| >= 2 then Some(Some((items[0], items[1]))) else None
    case VTuple(items) => if |items| >= 2 then Some(Some((items[0], items[1]))) else None
    case VStr(s) => if |s| >= 2 then Some(Some((VStr([s[0]]), VStr([s[1]])))) else None
    case VDict(_) => Some(None)
    case _ => None
  }

  /** One condition: the braced field equal to the quoted value, negated when
      the flag is falsy. */
  function Clause(field: string, value: Value, equality: Value): string
  {
    var test := "{" + field + "} = '" + Str(value) + "'";
    if Truthy(equality) then test else "NOT(" + test + ")"
  }

  /** The conditions of the entries, in order; an exception at an entry ends
      the list there (None escapes, Some(None) is caught). */
  function Clauses(items: Items): Option<Option<seq<string>>>
    decreases |items|
  {
    if items == [] then Some(Some([]))
    else
      var n := |items| - 1;
      match Clauses(items[..n])
      case Some(Some(prev)) =>
        (match EntryParts(items[n].1)
         case Some(Some(p)) => Some(Some(prev + [Clause(items[n].0, p.0, p.1)]))
         case Some(None) => Some(None)
         case None => None)
      case other => other
  }

  /** The formula: "AND(" and the conditions separated by "," and ")". */
  function Formula(items: Items): Option<Option<string>>
  {
    match Clauses(items)
    case Some(Some(cs)) => Some(Some("AND(" + Join(cs, ",") + ")"))
    case Some(None) => Some(None)
    case None => None
  }

  /** One condition per entry, built from that entry alone. */
  lemma ClausesSpec(items: Items)
    requires Clauses(items).Some? && Clauses(items).value.Some?
    ensures var cs := Clauses(items).value.value;
      |cs| == |items| && forall i :: 0 <= i < |items| ==> ClauseOfEntry(items[i], cs[i])
  {
    var cs := Clauses(items).value.value;
    if items == [] {
    } else {
      ClauseAt(items, 0);
    }
    forall i | 0 <= i < |items|
      ensures ClauseOfEntry(items[i], cs[i])
    {
      ClauseAt(items, i);
    }
  }

  /** The condition at position `i` comes from entry `i`. */
  lemma {:induction false} ClauseAt(items: Items, i: nat)
    requires Clauses(items).Some? && Clauses(items).value.Some? && i < |items|
    ensures var cs := Clauses(items).value.value;
      |cs| == |items| && ClauseOfEntry(items[i], cs[i])
    decreases |items|
  {
    var n := |items| - 1;
    ClausesLast(items);
    if n == 0 {
    } else if i < n {
      ClauseAt(items[..n], i);
      assert items[..n][i] == items[i];
    } else {
      ClauseAt(items[..n], 0);
    }
  }

  /** The last condition comes from the last entry, after the others'. */
  lemma ClausesLast(items: Items)
    requires items != [] && Clauses(items).Some? && Clauses(items).value.Some?
    ensures var n := |items| - 1; var cs := Clauses(items).value.value;
      && Clauses(items[..n]).Some? && Clauses(items[..n]).value.Some?
      && cs == Clauses(items[..n]).value.value + [cs[|cs| - 1]]
      && ClauseOfEntry(items[n], cs[|cs| - 1])
  {
    var n := |items| - 1;
    var prev := Clauses(items[..n]);
    assert prev.Some? && prev.value.Some?;
    var parts := EntryParts(items[n].1);
    assert parts.Some? && parts.value.Some?;
  }

  /** `clause` is the condition of a well-formed entry. */
  predicate ClauseOfEntry(item: (string, Value), clause: string)
  {
    var parts := EntryParts(item.1);
    parts.Some? && parts.value.Some? && clause == Clause(item.0, parts.value.value.0, parts.value.value.1)
  }

  /** Splitting the text between "AND(" and ")" at "," gives back the
      conditions when none of them holds a ",". */
  lemma FormulaSplitsIntoClauses(items: Items)
    requires Clauses(items).Some? && Clauses(items).value.Some?
    requires items != []
    requires forall c :: c in Clauses(items).value.value ==> ',' !in c
    ensures var f := Formula(items).value.value;
      var cs := Clauses(items).value.value;
      f[..4] == "AND(" && f[|f| - 1] == ')' && Split(f[4..|f| - 1], ',') == cs
  {
    var cs := Clauses(items).value.value;
    ClausesSpec(items);
    var f := Formula(items).value.value;
    assert f[4..|f| - 1] == Join(cs, ",");
    SplitJoin(cs, ',');
  }

  lemma {:induction false} ClausesStay(items: Items, k: nat)
    requires k <= |items|
    requires !(Clauses(items[..k]).Some? && Clauses(items[..k]).value.Some?)
    ensures Clauses(items) == Clauses(items[..k])
    decreases |items| - k
  {
    if k < |items| {
      assert items[..k + 1][..k] == items[..k];
      ClausesStay(items, k + 1);
    } else {
      assert items[..k] == items;
    }
  }

  /** compose_formula. */
  method ComposeFormula(valueDict: Items) returns (r: Option<Option<string>>)
    ensures r == Formula(valueDict)
  {
    var filterFormula := "AND(";
    ghost var cs: seq<string> := [];
    for i := 0 to |valueDict|
      invariant |cs| == i
      invariant Clauses(valueDict[..i]) == Some(Some(cs))
      invariant filterFormula == "AND(" + Join(cs, ",") + (if 0 < i < |valueDict| then "," else "")
    {
      var parts := EntryParts(valueDict[i].1);
      if parts.None? {
        ClausesBreak(valueDict, i, cs);
        return None;
      }
      if parts.value.None? {
        ClausesBreak(valueDict, i, cs);
        return Some(None);
      }
      var filterField := FormatClause(valueDict[i].0, parts.value.value.0, parts.value.value.1);
      ClausesExtend(valueDict, i, cs, filterField);
      filterFormula := AppendClause(cs, filterFormula, filterField, i, |valueDict|);
      cs := cs + [filterField];
    }
    assert valueDict[..|valueDict|] == valueDict;
    assert filterFormula == "AND(" + Join(cs, ",");
    filterFormula := filterFormula + ")";
    r := Some(Some(filterFormula));
    assert Formula(valueDict) == Some(Some("AND(" + Join(cs, ",") + ")"));
  }

  lemma ClausesExtend(items: Items, i: nat, cs: seq<string>, clause: string)
    requires i < |items| && Clauses(items[..i]) == Some(Some(cs))
    requires ClauseOfEntry(items[i], clause)
    ensures Clauses(items[..i + 1]) == Some(Some(cs + [clause]))
  {
    assert items[..i + 1][..i] == items[..i];
  }

  lemma ClausesBreak(items: Items, i: nat, cs: seq<string>)
    requires i < |items| && Clauses(items[..i]) == Some(Some(cs))
    requires EntryParts(items[i].1).None? || EntryParts(items[i].1).value.None?
    ensures Clauses(items) == if EntryParts(items[i].1).None? then None else Some(None)
  {
    assert items[..i + 1][..i] == items[..i];
    ClausesStay(items, i + 1);
  }

  /** An empty dict gives "AND()". */
  lemma FormulaOfEmpty()
    ensures Formula([]) == Some(Some("AND()"))
  {
    assert Join([], ",") == "";
    assert "AND(" + "" + ")" == "AND()";
  }

  /** One condition, as the loop formats it. */
  method FormatClause(field: string, value: Value, equality: Value) returns (filterField: string)
    ensures filterField == Clause(field, value, equality)
  {
    filterField := "{" + field + "} = '" + Str(value) + "'";
    if !Truthy(equality) {
      filterField := "NOT(" + filterField + ")";
    }
  }

  /** One step of the loop: the condition, then "," unless it is the last. */
  method AppendClause(ghost cs: seq<string>, filterFormula: string, clause: string, i: nat, n: nat)
    returns (f: string)
    requires i < n && |cs| == i
    requires filterFormula == "AND(" + Join(cs, ",") + (if 0 < i then "," else "")
    ensures f == "AND(" + Join(cs + [clause], ",") + (if i + 1 < n then "," else "")
  {
    f := filterFormula + clause;
    if i > 0 {
      JoinAppend(cs, clause, ",");
      assert f == "AND(" + Join(cs + [clause], ",");
    } else {
      assert cs + [clause] == [clause];
      assert Join(cs + [clause], ",") == clause;
      assert Join(cs, ",") == "";
      assert f == "AND(" + Join(cs + [clause], ",");
    }
    if i + 1 < n {
      f := f + ",";
    }
  }

  // ---------------------------------------------------------------------------
  // compose_time_formula

  const TimePrefix: string := "DATETIME_DIFF(NOW(), {"
  const TimeMiddle: string := "}, 'seconds') < "

  /** compose_time_formula: None for an empty field name; otherwise the
      seconds elapsed since the braced field, compared with the interval. */
  function ComposeTimeFormula(filterTimeField: string, interval: Value): (r: Option<string>)
    ensures r.None? <==> filterTimeField == ""
    ensures r.Some? ==> var t := r.value;
      && |t| == |TimePrefix| + |filterTimeField| + |TimeMiddle| + |Str(interval)|
      && t[..|TimePrefix|] == TimePrefix
      && t[|TimePrefix|..|TimePrefix| + |filterTimeField|] == filterTimeField
      && t[|t| - |Str(interval)|..] == Str(interval)
  {
    if filterTimeField != "" then Some(TimePrefix + filterTimeField + TimeMiddle + Str(interval)) else None
  }

  // ---------------------------------------------------------------------------
  // get_method_order

  /** get_method_order. */
  function GetMethodOrder(methodName: string): Option<string>
  {
    if methodName == "pull" then Some("1")
    else if methodName == "grab" then Some("2")
    else if methodName == "push" then Some("3")
    else None
  }

  /** The three methods get distinct orders, pull first and push last, and
      the order names the method. */
  lemma MethodOrderNamesMethod(m1: string, m2: string)
    requires GetMethodOrder(m1).Some? && GetMethodOrder(m2).Some?
    ensures GetMethodOrder(m1) == GetMethodOrder(m2) <==> m1 == m2
    ensures m1 in ["pull", "grab", "push"]
    ensures StrLe(GetMethodOrder("pull").value, GetMethodOrder("grab").value) && StrLe(GetMethodOrder("grab").value, GetMethodOrder("push").value)
  {
  }

  // ---------------------------------------------------------------------------
  // analyse_value and get_fields

  const RecordIdHint: string := "If this field indicates the record id of the target record, please check 'Flatten' and identify the name of the target table in 'Target Table."
  const DateHint: string := "If this field is a date, input should be a string in YYYY-mm-DD format, i.e. 2019-06-19."

  /** analyse_value: whether to flatten the value, and the hint for its error
      message. */
  function AnalyseValue(value: Value): (r: (bool, Option<string>))
    ensures r.0 <==> value.VList? && |value.items| == 1
    ensures r.1 == Some(RecordIdHint) <==> IsRecord(value)
    ensures r.1 == Some(DateHint) <==> !IsRecord(value) && value.VStr? && |value.s| == 10 && ParsesAsInt(value.s[..4])
    ensures r.1.None? <==> r.1 != Some(RecordIdHint) && r.1 != Some(DateHint)
  {
    var hint :=
      if IsRecord(value) then Some(RecordIdHint)
      else if value.VStr? && |value.s| == 10 && ParsesAsInt(value.s[..4]) then Some(DateHint)
      else None;
    (value.VList? && |value.items| == 1, hint)
  }

  /** One row of the fields table. */
  datatype FieldRow = FieldRow(field: string, typeName: string, example: string, hint: Option<string>)

  /** `type(value).__name__`. */
  function TypeName(v: Value): string
  {
    match v
    case VNone => "NoneType"
    case VBool(_) => "bool"
    case VInt(_) => "int"
    case VStr(_) => "str"
    case VList(_) => "list"
    case VTuple(_) => "tuple"
    case VDict(_) => "dict"
  }

  /** The row of a field's first occurrence: a one-element list is unwrapped. */
  function RowOf(item: (string, Value)): FieldRow
  {
    var (flatten, hint) := AnalyseValue(item.1);
    var v := if flatten then item.1.items[0] else item.1;
    FieldRow(item.0, TypeName(v), Str(v), hint)
  }

  /** All the records' field items, record after record. */
  function Flat(table: seq<Items>): Items
    decreases |table|
  {
    if table == [] then [] else Flat(table[..|table| - 1]) + table[|table| - 1]
  }

  function NamesOf(rows: seq<FieldRow>): (r: seq<string>)
    ensures |r| == |rows|
  {
    seq(|rows|, i requires 0 <= i < |rows| => rows[i].field)
  }

  /** A row for each field name not seen before, in first-seen order. */
  function Rows(items: Items): seq<FieldRow>
    decreases |items|
  {
    if items == [] then []
    else
      var n := |items| - 1;
      var prev := Rows(items[..n]);
      if items[n].0 in NamesOf(prev) then prev else prev + [RowOf(items[n])]
  }

  lemma NamesOfAppend(rows: seq<FieldRow>, row: FieldRow)
    ensures NamesOf(rows + [row]) == NamesOf(rows) + [row.field]
  {
  }

  /** The rows after one more item. */
  lemma RowsStep(xs: Items, x: (string, Value))
    ensures Rows(xs + [x]) == if x.0 in NamesOf(Rows(xs)) then Rows(xs) else Rows(xs) + [RowOf(x)]
  {
    assert (xs + [x])[..|xs|] == xs;
  }

  /** A new name at the end adds its row's name. */
  lemma RowsNamesAppend(items: Items)
    requires items != [] && items[|items| - 1].0 !in NamesOf(Rows(items[..|items| - 1]))
    ensures NamesOf(Rows(items)) == NamesOf(Rows(items[..|items| - 1])) + [items[|items| - 1].0]
  {
    var n := |items| - 1;
    RowOfField(items[n]);
    NamesOfAppend(Rows(items[..n]), RowOf(items[n]));
  }

  lemma RowOfField(item: (string, Value))
    ensures RowOf(item).field == item.0
  {
  }

  /** Item `i` is the first with its field name. */
  predicate FirstOccurrence(items: Items, i: nat)
    requires i < |items|
  {
    forall i' :: 0 <= i' < i ==> items[i'].0 != items[i].0
  }

  /** `k` names some item. */
  predicate Occurs(items: Items, k: string)
  {
    exists i :: 0 <= i < |items| && items[i].0 == k
  }

  lemma OccursAppend(prefix: Items, x: (string, Value), k: string)
    ensures Occurs(prefix + [x], k) <==> Occurs(prefix, k) || x.0 == k
  {
    var items := prefix + [x];
    if Occurs(items, k) {
      var i :| 0 <= i < |items| && items[i].0 == k;
      if i < |prefix| {
        assert prefix[i].0 == k;
      }
    }
    if Occurs(prefix, k) {
      var i :| 0 <= i < |prefix| && prefix[i].0 == k;
      assert items[i].0 == k;
    }
    if x.0 == k {
      assert items[|prefix|].0 == k;
    }
  }

  /** A name has a row exactly when it occurs among the items. */
  lemma {:induction false} RowsCover(items: Items)
    ensures forall k :: k in NamesOf(Rows(items)) <==> Occurs(items, k)
    decreases |items|
  {
    if items != [] {
      var n := |items| - 1;
      var prefix := items[..n];
      RowsCover(prefix);
      assert items == prefix + [items[n]];
      RowsStep(prefix, items[n]);
      var prev := Rows(prefix);
      if items[n].0 !in NamesOf(prev) {
        NamesOfAppend(prev, RowOf(items[n]));
      }
      forall k
        ensures k in NamesOf(Rows(items)) <==> Occurs(items, k)
      {
        OccursAppend(prefix, items[n], k);
      }
    } else {
      assert Rows(items) == [];
    }
  }

  /** Each field name has a single row. */
  lemma {:induction false} RowsDistinct(items: Items)
    ensures Distinct(NamesOf(Rows(items)))
    decreases |items|
  {
    if items != [] {
      var n := |items| - 1;
      var prefix := items[..n];
      RowsDistinct(prefix);
      var prev := NamesOf(Rows(prefix));
      if items[n].0 !in prev {
        RowsNamesAppend(items);
        var names := prev + [items[n].0];
        forall i, j | 0 <= i < j < |names| ensures names[i] != names[j] {
          assert names[i] == prev[i];
          if j < |prev| {
            assert names[j] == prev[j];
          } else {
            assert prev[i] in prev;
          }
        }
      }
    }
  }

  lemma FirstOccurrenceExtends(prefix: Items, x: (string, Value), i: nat)
    requires i < |prefix| && FirstOccurrence(prefix, i)
    ensures FirstOccurrence(prefix + [x], i) && (prefix + [x])[i] == prefix[i]
  {
  }

  /** Each row is built from the first occurrence of its name. */
  lemma {:induction false} RowsFirstSeen(items: Items)
    ensures forall j :: 0 <= j < |Rows(items)| ==> exists i :: 0 <= i < |items| && FirstOccurrence(items, i) && Rows(items)[j] == RowOf(items[i])
    decreases |items|
  {
    if items != [] {
      var n := |items| - 1;
      var prefix := items[..n];
      RowsFirstSeen(prefix);
      RowsCover(prefix);
      assert items == prefix + [items[n]];
      RowsStep(prefix, items[n]);
      var prev := Rows(prefix);
      forall j | 0 <= j < |Rows(items)|
        ensures exists i :: 0 <= i < |items| && FirstOccurrence(items, i) && Rows(items)[j] == RowOf(items[i])
      {
        if j < |prev| {
          var i :| 0 <= i < |prefix| && FirstOccurrence(prefix, i) && prev[j] == RowOf(prefix[i]);
          FirstOccurrenceExtends(prefix, items[n], i);
          assert Rows(items)[j] == RowOf(items[i]);
        } else {
          assert FirstOccurrence(items, n);
          assert Rows(items)[j] == RowOf(items[n]);
        }
      }
    } else {
      assert Rows(items) == [];
    }
  }

  /** get_fields: one row per distinct field name of the table. */
  method GetFields(table: seq<Items>) returns (fieldsTable: seq<FieldRow>)
    ensures fieldsTable == Rows(Flat(table))
  {
    var retrievedFields: seq<string> := [];
    fieldsTable := [];
    for r := 0 to |table|
      invariant fieldsTable == Rows(Flat(table[..r]))
      invariant retrievedFields == NamesOf(fieldsTable)
    {
      assert table[..r + 1][..r] == table[..r];
      fieldsTable, retrievedFields := ScanRecord(table[r], Flat(table[..r]), fieldsTable, retrievedFields);
    }
    assert table[..|table|] == table;
  }

  lemma ConcatPrefixStep<T>(a: seq<T>, b: seq<T>, j: nat)
    requires j < |b|
    ensures a + b[..j + 1] == (a + b[..j]) + [b[j]]
  {
    assert b[..j + 1] == b[..j] + [b[j]];
  }

  /** The inner loop of get_fields over one record's items. */
  method ScanRecord(items: Items, ghost seen: Items, rowsIn: seq<FieldRow>, namesIn: seq<string>)
    returns (rows: seq<FieldRow>, names: seq<string>)
    requires rowsIn == Rows(seen) && namesIn == NamesOf(rowsIn)
    ensures rows == Rows(seen + items) && names == NamesOf(rows)
  {
    rows, names := rowsIn, namesIn;
    assert seen + items[..0] == seen;
    for j := 0 to |items|
      invariant rows == Rows(seen + items[..j])
      invariant names == NamesOf(rows)
    {
      ghost var before := seen + items[..j];
      ConcatPrefixStep(seen, items, j);
      RowsStep(before, items[j]);
      var field := items[j].0;
      if field !in names {
        NamesOfAppend(rows, RowOf(items[j]));
        names := names + [field];
        rows := rows + [RowOf(items[j])];
      }
    }
    assert items[..|items|] == items;
  }

  // ---------------------------------------------------------------------------
  // record_exists

  /** The dict comprehension's keys, in insertion order: first occurrences. */
  function Dedup(keys: seq<string>): seq<string>
    decreases |keys|
  {
    if keys == [] then []
    else
      var n := |keys| - 1;
      var prev := Dedup(keys[..n]);
      if keys[n] in prev then prev else prev + [keys[n]]
  }

  /** How many of `keys` hold equal values (`existing.get(key) == value`). */
  function MatchCount(keys: seq<string>, candidate: Fields, existing: Fields): nat
    decreases |keys|
  {
    if keys == [] then 0
    else
      var n := |keys| - 1;
      MatchCount(keys[..n], candidate, existing) + (if PyEq(Get(existing, keys[n]), Get(candidate, keys[n])) then 1 else 0)
  }

  /** The test of record_exists: as many equal fields as names listed. */
  predicate Found(candidate: Record, existing: Record, fields: seq<string>)
  {
    MatchCount(Dedup(fields), candidate.fields, existing.fields) == |fields|
  }

  /** The first position where Found holds. */
  function FirstFound(candidate: Record, table: seq<Record>, fields: seq<string>): Option<nat>
    decreases |table|
  {
    if table == [] then None
    else
      var n := |table| - 1;
      var prev := FirstFound(candidate, table[..n], fields);
      if prev.Some? then prev else if Found(candidate, table[n], fields) then Some(n) else None
  }

  /** record_exists: the position of the match (Some(None) for none), or None
      for the KeyError of a match field the candidate lacks. */
  function RecordExistsResult(record: Record, table: seq<Record>, fields: seq<string>): Option<Option<nat>>
  {
    if SetOf(fields) <= record.fields.Keys then Some(FirstFound(record, table, fields)) else None
  }

  lemma {:induction false} DedupSpec(keys: seq<string>)
    ensures Distinct(Dedup(keys)) && SetOf(Dedup(keys)) == SetOf(keys)
    ensures |Dedup(keys)| <= |keys|
    ensures |Dedup(keys)| == |keys| <==> Distinct(keys)
    decreases |keys|
  {
    if keys != [] {
      var n := |keys| - 1;
      DedupSpec(keys[..n]);
      assert SetOf(keys) == SetOf(keys[..n]) + {keys[n]} by {
        assert keys == keys[..n] + [keys[n]];
      }
      if keys[n] in Dedup(keys[..n]) {
        assert keys[n] in keys[..n];
        var i :| 0 <= i < n && keys[..n][i] == keys[n];
        assert keys[i] == keys[n];
      } else {
        assert keys[n] !in keys[..n];
        if Distinct(keys[..n]) {
          forall i, j | 0 <= i < j < |keys|
            ensures keys[i] != keys[j]
          {
            if j < n {
              assert keys[..n][i] == keys[i] && keys[..n][j] == keys[j];
            } else {
              assert keys[i] in keys[..n];
            }
          }
        }
        if Distinct(keys) {
          forall i, j | 0 <= i < j < n
            ensures keys[..n][i] != keys[..n][j]
          {
            assert keys[..n][i] == keys[i] && keys[..n][j] == keys[j];
          }
        }
      }
    }
  }

  lemma {:induction false} MatchCountSpec(keys: seq<string>, candidate: Fields, existing: Fields)
    ensures MatchCount(keys, candidate, existing) <= |keys|
    ensures MatchCount(keys, candidate, existing) == |keys| <==>
              forall k :: k in keys ==> PyEq(Get(existing, k), Get(candidate, k))
    decreases |keys|
  {
    if keys != [] {
      var n := |keys| - 1;
      MatchCountSpec(keys[..n], candidate, existing);
      assert keys == keys[..n] + [keys[n]];
      assert forall k :: k in keys <==> k in keys[..n] || k == keys[n];
    }
  }

  /** A record matches exactly when the match fields are listed once each and
      it agrees with the candidate on every one of them; a field listed twice
      means no record ever matches. */
  lemma FoundIff(candidate: Record, existing: Record, fields: seq<string>)
    ensures Found(candidate, existing, fields) <==>
              Distinct(fields) && forall k :: k in fields ==> PyEq(Get(existing.fields, k), Get(candidate.fields, k))
  {
    DedupSpec(fields);
    MatchCountSpec(Dedup(fields), candidate.fields, existing.fields);
    assert forall k :: k in Dedup(fields) <==> k in SetOf(Dedup(fields));
    assert forall k :: k in fields <==> k in SetOf(fields);
  }

  /** The first match in table order, and only it. */
  lemma {:induction false} FirstFoundSpec(candidate: Record, table: seq<Record>, fields: seq<string>)
    ensures var r := FirstFound(candidate, table, fields);
      && (r.Some? ==> r.value < |table| && Found(candidate, table[r.value], fields)
                       && forall j :: 0 <= j < r.value ==> !Found(candidate, table[j], fields))
      && (r.None? ==> forall j :: 0 <= j < |table| ==> !Found(candidate, table[j], fields))
    decreases |table|
  {
    if table != [] {
      var n := |table| - 1;
      FirstFoundSpec(candidate, table[..n], fields);
      assert forall j :: 0 <= j < n ==> table[..n][j] == table[j];
    }
  }

  /** With no match fields, the first record of a non-empty table matches. */
  lemma NoMatchFieldsFindsFirst(candidate: Record, table: seq<Record>)
    requires table != []
    ensures RecordExistsResult(candidate, table, []) == Some(Some(0))
  {
    FirstFoundSpec(candidate, table, []);
    FoundIff(candidate, table[0], []);
  }

  lemma {:induction false} FirstFoundStays(candidate: Record, table: seq<Record>, fields: seq<string>, k: nat)
    requires k <= |table| && FirstFound(candidate, table[..k], fields).Some?
    ensures FirstFound(candidate, table, fields) == FirstFound(candidate, table[..k], fields)
    decreases |table| - k
  {
    if k < |table| {
      assert table[..k + 1][..k] == table[..k];
      FirstFoundStays(candidate, table, fields, k + 1);
    } else {
      assert table[..k] == table;
    }
  }

  /** The counting loop of one existing record. */
  method CountMatches(keys: seq<string>, filterData: Fields, existing: Fields) returns (found: nat)
    requires SetOf(keys) <= filterData.Keys
    ensures found == MatchCount(keys, filterData, existing)
  {
    found := 0;
    for j := 0 to |keys|
      invariant found == MatchCount(keys[..j], filterData, existing)
    {
      assert keys[..j + 1][..j] == keys[..j];
      var otherValue := Get(existing, keys[j]);
      if PyEq(otherValue, filterData[keys[j]]) {
        found := found + 1;
      }
    }
    assert keys[..|keys|] == keys;
  }

  /** record_exists, as the loops run. */
  method RecordExists(record: Record, table: seq<Record>, fields: seq<string>) returns (r: Option<Option<nat>>)
    ensures r == RecordExistsResult(record, table, fields)
  {
    var ok, filterKeys, filterData := FilterData(record, fields);
    if !ok {
      return None;
    }
    var i := FirstMatch(record, table, fields, filterKeys, filterData);
    r := Some(i);
  }

  /** The first loop of record_exists: the candidate's values of the match
      fields, each field once; false for the KeyError of a missing one. */
  method FilterData(record: Record, fields: seq<string>) returns (ok: bool, filterKeys: seq<string>, filterData: Fields)
    ensures ok <==> SetOf(fields) <= record.fields.Keys
    ensures ok ==> filterKeys == Dedup(fields) && SetOf(filterKeys) == filterData.Keys
    ensures ok ==> forall k :: k in filterData ==> k in record.fields && filterData[k] == record.fields[k]
  {
    filterKeys, filterData := [], map[];
    for j := 0 to |fields|
      invariant SetOf(fields[..j]) <= record.fields.Keys
      invariant filterKeys == Dedup(fields[..j])
      invariant SetOf(filterKeys) == filterData.Keys
      invariant forall k :: k in filterData ==> k in record.fields && filterData[k] == record.fields[k]
    {
      SetOfStep(fields, j);
      DedupStep(fields, j);
      var key := fields[j];
      if key !in record.fields {
        assert key in SetOf(fields);
        return false, filterKeys, filterData;
      }
      if key !in filterKeys {
        SetOfAppend(filterKeys, key);
        filterKeys := filterKeys + [key];
      }
      filterData := filterData[key := record.fields[key]];
    }
    assert fields[..|fields|] == fields;
    ok := true;
  }

  /** The second loop of record_exists: the first record whose count of
      equal fields reaches the number of names listed. */
  method FirstMatch(record: Record, table: seq<Record>, fields: seq<string>, filterKeys: seq<string>, filterData: Fields)
    returns (r: Option<nat>)
    requires filterKeys == Dedup(fields) && SetOf(filterKeys) == filterData.Keys
    requires forall k :: k in filterData ==> k in record.fields && filterData[k] == record.fields[k]
    ensures r == FirstFound(record, table, fields)
  {
    for i := 0 to |table|
      invariant FirstFound(record, table[..i], fields).None?
    {
      FirstFoundStep(record, table, fields, i);
      var fieldsFound := CountMatches(filterKeys, filterData, table[i].fields);
      MatchCountSameValues(filterKeys, filterData, record.fields, table[i].fields);
      assert fieldsFound == |fields| <==> Found(record, table[i], fields);
      if fieldsFound == |fields| {
        FirstFoundStays(record, table, fields, i + 1);
        return Some(i);
      }
    }
    assert table[..|table|] == table;
    r := None;
  }

  lemma FirstFoundStep(candidate: Record, table: seq<Record>, fields: seq<string>, i: nat)
    requires i < |table| && FirstFound(candidate, table[..i], fields).None?
    ensures FirstFound(candidate, table[..i + 1], fields) == if Found(candidate, table[i], fields) then Some(i) else None
  {
    assert table[..i + 1][..i] == table[..i];
  }

  lemma DedupStep(keys: seq<string>, j: nat)
    requires j < |keys|
    ensures Dedup(keys[..j + 1]) ==
      if keys[j] in Dedup(keys[..j]) then Dedup(keys[..j]) else Dedup(keys[..j]) + [keys[j]]
  {
    assert keys[..j + 1][..j] == keys[..j];
  }

  lemma SetOfAppend(keys: seq<string>, key: string)
    ensures SetOf(keys + [key]) == SetOf(keys) + {key}
  {
    assert forall k :: k in keys + [key] <==> k in keys || k == key;
  }

  lemma {:induction false} MatchCountSameValues(keys: seq<string>, a: Fields, b: Fields, existing: Fields)
    requires forall k :: k in keys ==> k in a && k in b && a[k] == b[k]
    ensures MatchCount(keys, a, existing) == MatchCount(keys, b, existing)
    decreases |keys|
  {
    if keys != [] {
      var n := |keys| - 1;
      MatchCountSameValues(keys[..n], a, b, existing);
    }
  }
}
