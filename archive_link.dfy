/** link_record of airbase/archive/tools.py: a copy of a record whose link
    fields hold the sorted ids of the rows of another table that match the
    record's comma-separated values, compared case-insensitively. */
module ArchiveLink {
  import opened Values
  import opened Text
  import opened Tools

  // ---------------------------------------------------------------------------
  // One row of the other table

  /** How the `for filter_t` loop ends for one theta: a match, no match, or
      the KeyError of a missing field, which ends the whole row. */
  datatype Scan = Hit | Miss | Fail

  /** `theta == val`, both lower-cased first when both are strings; a string
      never equals a value of another type. */
  predicate Matches(theta: string, val: Value)
  {
    val.VStr? && Lower(theta) == Lower(val.s)
  }

  /** The `for filter_t` loop for one theta, over the fields still to try. */
  function ThetaScan(row: Record, theta: string, filtersT: seq<string>): Scan
    decreases |filtersT|
  {
    if filtersT == [] then Miss
    else if filtersT[0] !in row.fields then Fail
    else if Matches(theta, row.fields[filtersT[0]]) then Hit
    else ThetaScan(row, theta, filtersT[1..])
  }

  /** The ids one row appends: its id once per theta that matches, until a
      missing field, or a missing id at a match, ends the row. What was
      appended before the KeyError stays. */
  function RowIds(row: Record, thetas: seq<string>, filtersT: seq<string>): seq<string>
    decreases |thetas|
  {
    if thetas == [] then []
    else match ThetaScan(row, thetas[0], filtersT)
      case Fail => []
      case Miss => RowIds(row, thetas[1..], filtersT)
      case Hit => if row.id.None? then [] else [row.id.value] + RowIds(row, thetas[1..], filtersT)
  }

  /** Each of the strings, stripped. */
  function StripEach(xs: seq<string>): (r: seq<string>)
    ensures |r| == |xs| && forall i :: 0 <= i < |xs| ==> r[i] == Strip(xs[i])
  {
    seq(|xs|, i requires 0 <= i < |xs| => Strip(xs[i]))
  }

  /** The record's value under `filterR` split at "," and stripped; None is the
      KeyError of a missing field or the AttributeError of a value that is not
      a string, both of which skip the row. */
  function Thetas(source: Fields, filterR: string): Option<seq<string>>
  {
    if filterR in source && source[filterR].VStr? then Some(StripEach(Split(source[filterR].s, ','))) else None
  }

  /** The ids collected over the table for one record field, row by row. */
  function LinkIds(source: Fields, table: seq<Record>, filterR: string, filtersT: seq<string>): seq<string>
    decreases |table|
  {
    if table == [] then []
    else
      var n := |table| - 1;
      LinkIds(source, table[..n], filterR, filtersT)
        + (match Thetas(source, filterR)
           case None => []
           case Some(thetas) => RowIds(table[n], thetas, filtersT))
  }

  /** The inner `for filter_t` loop for one theta. */
  method ScanTheta(row: Record, theta: string, filtersT: seq<string>) returns (s: Scan)
    ensures s == ThetaScan(row, theta, filtersT)
  {
    var j := 0;
    while j < |filtersT|
      invariant 0 <= j <= |filtersT|
      invariant ThetaScan(row, theta, filtersT) == ThetaScan(row, theta, filtersT[j..])
    {
      assert filtersT[j..][1..] == filtersT[j + 1..];
      if filtersT[j] !in row.fields {
        return Fail;
      }
      if Matches(theta, row.fields[filtersT[j]]) {
        return Hit;
      }
      j := j + 1;
    }
    return Miss;
  }

  /** The `for theta` loop over one row. */
  method ScanRow(row: Record, thetas: seq<string>, filtersT: seq<string>) returns (ids: seq<string>)
    ensures ids == RowIds(row, thetas, filtersT)
  {
    ids := [];
    var i := 0;
    while i < |thetas|
      invariant 0 <= i <= |thetas|
      invariant RowIds(row, thetas, filtersT) == ids + RowIds(row, thetas[i..], filtersT)
    {
      assert thetas[i..][0] == thetas[i] && thetas[i..][1..] == thetas[i + 1..];
      var s := ScanTheta(row, thetas[i], filtersT);
      if s == Fail {
        return;
      }
      if s == Hit {
        if row.id.None? {
          return;
        }
        ids := ids + [row.id.value];
      }
      i := i + 1;
    }
  }

  /** The `for row in table` loop for one record field. */
  method CollectIds(source: Fields, table: seq<Record>, filterR: string, filtersT: seq<string>)
    returns (ids: seq<string>)
    ensures ids == LinkIds(source, table, filterR, filtersT)
  {
    ids := [];
    for i := 0 to |table|
      invariant ids == LinkIds(source, table[..i], filterR, filtersT)
    {
      assert table[..i + 1][..i] == table[..i];
      var thetas := Thetas(source, filterR);
      if thetas.Some? {
        var rowIds := ScanRow(table[i], thetas.value, filtersT);
        ids := ids + rowIds;
      }
    }
    assert table[..|table|] == table;
  }

  // ---------------------------------------------------------------------------
  // Which rows are linked

  /** A row only ever contributes its own id. */
  lemma {:induction false} RowIdsAreOwnId(row: Record, thetas: seq<string>, filtersT: seq<string>)
    ensures forall x :: x in RowIds(row, thetas, filtersT) ==> row.id == Some(x)
    decreases |thetas|
  {
    if thetas != [] {
      RowIdsAreOwnId(row, thetas[1..], filtersT);
    }
  }

  /** With every compared field present, a theta is found exactly when one
      of the compared fields equals it up to case. */
  lemma {:induction false} ThetaScanComplete(row: Record, theta: string, filtersT: seq<string>)
    requires forall k :: 0 <= k < |filtersT| ==> filtersT[k] in row.fields
    ensures ThetaScan(row, theta, filtersT) != Fail
    ensures ThetaScan(row, theta, filtersT) == Hit
      <==> exists k :: 0 <= k < |filtersT| && Matches(theta, row.fields[filtersT[k]])
    decreases |filtersT|
  {
    if filtersT != [] {
      ThetaScanComplete(row, theta, filtersT[1..]);
      if !Matches(theta, row.fields[filtersT[0]]) {
        if exists k :: 0 <= k < |filtersT| && Matches(theta, row.fields[filtersT[k]]) {
          var k :| 0 <= k < |filtersT| && Matches(theta, row.fields[filtersT[k]]);
          assert filtersT[1..][k - 1] == filtersT[k];
        }
      }
    }
  }

  /** A well-formed row (an id, every compared field present) is linked
      exactly when one of its thetas matches one of its compared fields. */
  lemma {:induction false} RowIdsComplete(row: Record, thetas: seq<string>, filtersT: seq<string>)
    requires row.id.Some?
    requires forall k :: 0 <= k < |filtersT| ==> filtersT[k] in row.fields
    ensures row.id.value in RowIds(row, thetas, filtersT)
      <==> exists t, k :: 0 <= t < |thetas| && 0 <= k < |filtersT| && Matches(thetas[t], row.fields[filtersT[k]])
    decreases |thetas|
  {
    if thetas != [] {
      RowIdsComplete(row, thetas[1..], filtersT);
      ThetaScanComplete(row, thetas[0], filtersT);
      if exists t, k :: 0 <= t < |thetas| && 0 <= k < |filtersT| && Matches(thetas[t], row.fields[filtersT[k]]) {
        var t, k :| 0 <= t < |thetas| && 0 <= k < |filtersT| && Matches(thetas[t], row.fields[filtersT[k]]);
        if t > 0 {
          assert thetas[1..][t - 1] == thetas[t];
        }
      }
    }
  }

  /** Every linked id is the id of a row of the table. */
  lemma {:induction false} LinkIdsFromTable(source: Fields, table: seq<Record>, filterR: string, filtersT: seq<string>)
    ensures forall x :: x in LinkIds(source, table, filterR, filtersT) ==>
      exists j :: 0 <= j < |table| && table[j].id == Some(x)
    decreases |table|
  {
    if table != [] {
      var n := |table| - 1;
      LinkIdsFromTable(source, table[..n], filterR, filtersT);
      if Thetas(source, filterR).Some? {
        RowIdsAreOwnId(table[n], Thetas(source, filterR).value, filtersT);
      }
      forall x | x in LinkIds(source, table, filterR, filtersT)
        ensures exists j :: 0 <= j < |table| && table[j].id == Some(x)
      {
        if x in LinkIds(source, table[..n], filterR, filtersT) {
          var j :| 0 <= j < n && table[..n][j].id == Some(x);
          assert table[j].id == Some(x);
        } else {
          assert table[n].id == Some(x);
        }
      }
    }
  }

  /** A row of a well-formed table is linked exactly when one of the record's
      thetas matches one of its compared fields up to case. */
  lemma {:induction false} LinkIdsMatchRows(source: Fields, table: seq<Record>, filterR: string, filtersT: seq<string>, j: nat)
    requires j < |table| && Thetas(source, filterR).Some?
    requires forall i :: 0 <= i < |table| ==> table[i].id.Some?
    requires forall i, k :: 0 <= i < |table| && 0 <= k < |filtersT| ==> filtersT[k] in table[i].fields
    ensures var thetas := Thetas(source, filterR).value;
      var row := table[j];
      (exists t, k :: 0 <= t < |thetas| && 0 <= k < |filtersT| && Matches(thetas[t], row.fields[filtersT[k]]))
        ==> row.id.value in LinkIds(source, table, filterR, filtersT)
    decreases |table|
  {
    var thetas := Thetas(source, filterR).value;
    var n := |table| - 1;
    var prefix := table[..n];
    var id := table[j].id.value;
    if !exists t, k :: 0 <= t < |thetas| && 0 <= k < |filtersT| && Matches(thetas[t], table[j].fields[filtersT[k]]) {
      return;
    }
    var t, k :| 0 <= t < |thetas| && 0 <= k < |filtersT| && Matches(thetas[t], table[j].fields[filtersT[k]]);
    if j < n {
      assert Matches(thetas[t], prefix[j].fields[filtersT[k]]);
      WellFormedPrefix(table, n, filtersT);
      LinkIdsMatchRows(source, prefix, filterR, filtersT, j);
      assert id in LinkIds(source, prefix, filterR, filtersT);
      assert id in LinkIds(source, table, filterR, filtersT);
    } else {
      assert j == n;
      RowIdsComplete(table[n], thetas, filtersT);
      assert id in RowIds(table[n], thetas, filtersT);
      assert id in LinkIds(source, table, filterR, filtersT);
    }
  }

  /** Rows with an id and every table filter field stay so in a prefix. */
  lemma WellFormedPrefix(table: seq<Record>, n: nat, filtersT: seq<string>)
    requires n <= |table|
    requires forall i :: 0 <= i < |table| ==> table[i].id.Some?
    requires forall i, k :: 0 <= i < |table| && 0 <= k < |filtersT| ==> filtersT[k] in table[i].fields
    ensures forall i :: 0 <= i < n ==> table[..n][i].id.Some?
    ensures forall i, k :: 0 <= i < n && 0 <= k < |filtersT| ==> filtersT[k] in table[..n][i].fields
  {
    forall i | 0 <= i < n
      ensures table[..n][i] == table[i]
    {
    }
  }




  // ---------------------------------------------------------------------------
  // The contains option

  /** The record fields, in order, whose lower-cased name contains the
      lower-cased filter. */
  function FieldsContaining(order: seq<string>, filter: string): seq<string>
    decreases |order|
  {
    if order == [] then []
    else
      var n := |order| - 1;
      FieldsContaining(order[..n], filter) + (if Contains(Lower(order[n]), Lower(filter)) then [order[n]] else [])
  }

  /** The new filter list: for each filter, the fields containing it. */
  function Contained(filters: seq<string>, order: seq<string>): seq<string>
    decreases |filters|
  {
    if filters == [] then []
    else
      var n := |filters| - 1;
      Contained(filters[..n], order) + FieldsContaining(order, filters[n])
  }

  /** A field is kept exactly when it contains one of the filters up to case. */
  lemma {:induction false} ContainedSpec(filters: seq<string>, order: seq<string>)
    ensures forall x :: x in Contained(filters, order) <==> x in order && ContainsSome(x, filters)
    decreases |filters|
  {
    if filters != [] {
      var n := |filters| - 1;
      ContainedSpec(filters[..n], order);
      FieldsContainingSpec(order, filters[n]);
      forall x ensures x in Contained(filters, order) <==> x in order && ContainsSome(x, filters)
      {
        ContainsSomeStep(x, filters);
      }
    }
  }

  /** Some filter occurs, ignoring case, in `x`. */
  predicate ContainsSome(x: string, filters: seq<string>)
  {
    exists i :: 0 <= i < |filters| && Contains(Lower(x), Lower(filters[i]))
  }

  lemma ContainsSomeStep(x: string, filters: seq<string>)
    requires filters != []
    ensures var n := |filters| - 1;
      ContainsSome(x, filters) <==> ContainsSome(x, filters[..n]) || Contains(Lower(x), Lower(filters[n]))
  {
    var n := |filters| - 1;
    if ContainsSome(x, filters) {
      var i :| 0 <= i < |filters| && Contains(Lower(x), Lower(filters[i]));
      if i < n {
        assert filters[..n][i] == filters[i];
      }
    }
    if ContainsSome(x, filters[..n]) {
      var i :| 0 <= i < n && Contains(Lower(x), Lower(filters[..n][i]));
      assert filters[..n][i] == filters[i];
    }
  }


  lemma {:induction false} FieldsContainingSpec(order: seq<string>, filter: string)
    ensures forall x :: x in FieldsContaining(order, filter) <==> x in order && Contains(Lower(x), Lower(filter))
    decreases |order|
  {
    if order != [] {
      var n := |order| - 1;
      FieldsContainingSpec(order[..n], filter);
      assert order == order[..n] + [order[n]];
    }
  }

  /** The nested `for filter_r` / `for field` loops of the contains option. */
  method ContainingFields(filters: seq<string>, order: seq<string>) returns (r: seq<string>)
    ensures r == Contained(filters, order)
  {
    r := [];
    for i := 0 to |filters|
      invariant r == Contained(filters[..i], order)
    {
      assert filters[..i + 1][..i] == filters[..i];
      ghost var before := r;
      for j := 0 to |order|
        invariant r == before + FieldsContaining(order[..j], filters[i])
      {
        assert order[..j + 1][..j] == order[..j];
        if Contains(Lower(order[j]), Lower(filters[i])) {
          r := r + [order[j]];
        }
      }
      assert order[..|order|] == order;
    }
    assert filters[..|filters|] == filters;
  }

  // ---------------------------------------------------------------------------
  // Writing the links

  /** Each string as a string value. */
  function AsValues(xs: seq<string>): (r: seq<Value>)
    ensures |r| == |xs| && forall i :: 0 <= i < |xs| ==> r[i] == VStr(xs[i])
  {
    seq(|xs|, i requires 0 <= i < |xs| => VStr(xs[i]))
  }

  /** What the target field is set to: the sorted ids, or None for none. */
  function LinkValue(ids: seq<string>): Value
  {
    if ids != [] then VList(AsValues(SortStrs(ids))) else VNone
  }

  /** The value written is None exactly when nothing matched, and otherwise
      lists every collected id, as often as collected, in ascending order. */
  lemma LinkValueSorted(ids: seq<string>)
    ensures LinkValue(ids).VNone? <==> ids == []
    ensures ids != [] ==> exists sorted ::
      && LinkValue(ids) == VList(AsValues(sorted))
      && SortedStrs(sorted) && multiset(sorted) == multiset(ids)
  {
    if ids != [] {
      SortStrsSpec(ids);
      assert LinkValue(ids) == VList(AsValues(SortStrs(ids)));
    }
  }

  /** `not field`. */
  predicate Falsy(field: Option<string>)
  {
    field.None? || field.value == ""
  }

  /** The field written for the k-th filter: the filter itself when no
      target field is given or there are several filters, else the target. */
  function Target(field: Option<string>, filters: seq<string>, k: nat): string
    requires k < |filters|
  {
    if Falsy(field) || |filters| > 1 then filters[k] else field.value
  }

  /** The copied fields after the first `k` filters have been written. */
  function LinkedUpTo(source: Fields, table: seq<Record>, filters: seq<string>, filtersT: seq<string>,
                      field: Option<string>, k: nat): Fields
    requires k <= |filters|
  {
    if k == 0 then source
    else LinkedUpTo(source, table, filters, filtersT, field, k - 1)[Target(field, filters, k - 1) :=
      LinkValue(LinkIds(source, table, filters[k - 1], filtersT))]
  }

  /** The filters link_record writes through: the stripped ones, or with the
      contains option the record fields containing one of them. */
  function Targets(order: seq<string>, filtersR: seq<string>, contains: bool): seq<string>
  {
    if contains then Contained(StripEach(filtersR), order) else StripEach(filtersR)
  }

  /** link_record with its target field taken from the caller: the copy of
      the record with each target written. */
  function Linked(record: Record, order: seq<string>, table: seq<Record>, filtersR: seq<string>,
                  filtersT: seq<string>, field: Option<string>, contains: bool): Record
  {
    var targets := Targets(order, filtersR, contains);
    Record(record.id, LinkedUpTo(record.fields, table, targets, StripEach(filtersT), field, |targets|))
  }

  /** link_record as written: with the contains option, the loop
      `for field in record["fields"]` rebinds the `field` argument, which is
      left on the record's last field and then read as the target. */
  function LinkedAsWritten(record: Record, order: seq<string>, table: seq<Record>, filtersR: seq<string>,
                           filtersT: seq<string>, field: Option<string>, contains: bool): Record
  {
    var rebound := if contains && filtersR != [] && order != [] then Some(order[|order| - 1]) else field;
    var targets := Targets(order, filtersR, contains);
    Record(record.id, LinkedUpTo(record.fields, table, targets, StripEach(filtersT), rebound, |targets|))
  }

  /** The dict order of `fields`: each key once. */
  ghost predicate IsOrder(order: seq<string>, fields: Fields)
  {
    (forall i, j :: 0 <= i < j < |order| ==> order[i] != order[j])
    && (forall x :: x in order <==> x in fields)
  }

  /** link_record: a new record; the input record is only read (it is not
      in a modifies clause), as the deep copy guarantees. */
  method LinkRecord(record: Rec, order: seq<string>, table: seq<Record>, filtersR: seq<string>,
                    filtersT: seq<string>, field: Option<string>, contains: bool)
    returns (newRecord: Rec)
    requires IsOrder(order, record.fields)
    ensures fresh(newRecord)
    ensures newRecord.Snapshot() == Linked(record.Snapshot(), order, table, filtersR, filtersT, field, contains)
  {
    var strippedR := StripEach(filtersR);
    var strippedT := StripEach(filtersT);
    var filters := strippedR;
    if contains {
      filters := ContainingFields(strippedR, order);
    }
    var source := record.fields;
    var fields := source;  // the deep copy's fields
    var target := field;
    for k := 0 to |filters|
      invariant fields == LinkedUpTo(source, table, filters, strippedT, field, k)
      invariant k == 0 ==> target == field
      invariant k > 0 ==> target == Some(Target(field, filters, k - 1))
    {
      fields, target := WriteLinks(source, table, filters, strippedT, field, k, fields, target);
    }
    newRecord := new Rec(Record(record.id, fields));
    assert filters == Targets(order, filtersR, contains);
  }

  /** One pass of the `for filter_r` loop: the ids found through the k-th
      filter, sorted, or None, written into the target field. */
  method WriteLinks(source: Fields, table: seq<Record>, filters: seq<string>, filtersT: seq<string>,
                    field: Option<string>, k: nat, fields: Fields, target: Option<string>)
    returns (newFields: Fields, newTarget: Option<string>)
    requires k < |filters| && fields == LinkedUpTo(source, table, filters, filtersT, field, k)
    requires k == 0 ==> target == field
    requires k > 0 ==> target == Some(Target(field, filters, k - 1))
    ensures newFields == LinkedUpTo(source, table, filters, filtersT, field, k + 1)
    ensures newTarget == Some(Target(field, filters, k))
  {
    var ids := CollectIds(source, table, filters[k], filtersT);
    newTarget := target;
    if Falsy(target) || |filters| > 1 {
      newTarget := Some(filters[k]);
    }
    var value := VNone;
    if |ids| > 0 {
      value := VList(AsValues(SortStrs(ids)));
    }
    LinkedStep(source, table, filters, filtersT, field, k, ids);
    newFields := fields[newTarget.value := value];
  }

  lemma LinkedStep(source: Fields, table: seq<Record>, filters: seq<string>, filtersT: seq<string>,
                   field: Option<string>, k: nat, ids: seq<string>)
    requires k < |filters| && ids == LinkIds(source, table, filters[k], filtersT)
    ensures LinkedUpTo(source, table, filters, filtersT, field, k + 1)
      == LinkedUpTo(source, table, filters, filtersT, field, k)[Target(field, filters, k) := LinkValue(ids)]
  {
  }

  // ---------------------------------------------------------------------------
  // What link_record promises

  /** The fields the first `k` filters write. */
  function WrittenUpTo(field: Option<string>, filters: seq<string>, k: nat): set<string>
    requires k <= |filters|
  {
    set i | 0 <= i < k :: Target(field, filters, i)
  }

  lemma WrittenStep(field: Option<string>, filters: seq<string>, k: nat)
    requires 0 < k <= |filters|
    ensures WrittenUpTo(field, filters, k) == WrittenUpTo(field, filters, k - 1) + {Target(field, filters, k - 1)}
  {
    var a, b := WrittenUpTo(field, filters, k), WrittenUpTo(field, filters, k - 1) + {Target(field, filters, k - 1)};
    forall x | x in a ensures x in b {
      var i :| 0 <= i < k && x == Target(field, filters, i);
      if i < k - 1 {
        assert x in WrittenUpTo(field, filters, k - 1);
      }
    }
  }

  /** Fields no filter writes keep their value, and the result has the
      record's fields plus the targets. */
  lemma {:induction false} LinkedKeepsOthers(source: Fields, table: seq<Record>, filters: seq<string>,
                                              filtersT: seq<string>, field: Option<string>, k: nat)
    requires k <= |filters|
    ensures var out := LinkedUpTo(source, table, filters, filtersT, field, k);
      && out.Keys == source.Keys + WrittenUpTo(field, filters, k)
      && (forall x :: x in source && x !in WrittenUpTo(field, filters, k) ==> out[x] == source[x])
  {
    if k > 0 {
      LinkedKeepsOthers(source, table, filters, filtersT, field, k - 1);
      var prev := LinkedUpTo(source, table, filters, filtersT, field, k - 1);
      var v := LinkValue(LinkIds(source, table, filters[k - 1], filtersT));
      UpdateKeeps(prev, source, WrittenUpTo(field, filters, k - 1), Target(field, filters, k - 1), v);
      WrittenStep(field, filters, k);
    }
  }

  lemma UpdateKeeps(prev: Fields, source: Fields, written: set<string>, t: string, v: Value)
    requires prev.Keys == source.Keys + written
    requires forall x :: x in source && x !in written ==> prev[x] == source[x]
    ensures prev[t := v].Keys == source.Keys + (written + {t})
    ensures forall x :: x in source && x !in written + {t} ==> prev[t := v][x] == source[x]
  {
  }

  /** `source` with `names[j]` set to `values[j]` for each j below k, in
      order. */
  function Overwrite(source: Fields, names: seq<string>, values: seq<Value>, k: nat): Fields
    requires k <= |names| && k <= |values|
  {
    if k == 0 then source else Overwrite(source, names, values, k - 1)[names[k - 1] := values[k - 1]]
  }

  /** A name written at i holds values[i] afterwards, when every later write
      of the same name writes the same value. */
  lemma {:induction false} OverwriteAt(source: Fields, names: seq<string>, values: seq<Value>, k: nat, i: nat)
    requires i < k <= |names| && k <= |values|
    requires forall j :: i < j < k && names[j] == names[i] ==> values[j] == values[i]
    ensures names[i] in Overwrite(source, names, values, k) && Overwrite(source, names, values, k)[names[i]] == values[i]
    decreases k
  {
    if k - 1 != i && names[k - 1] != names[i] {
      OverwriteAt(source, names, values, k - 1, i);
    }
  }

  /** The target written at each step, and the value written there. */
  function TargetSeq(field: Option<string>, filters: seq<string>): (r: seq<string>)
    ensures |r| == |filters|
  {
    seq(|filters|, j requires 0 <= j < |filters| => Target(field, filters, j))
  }

  function ValueSeq(source: Fields, table: seq<Record>, filters: seq<string>, filtersT: seq<string>): (r: seq<Value>)
    ensures |r| == |filters|
  {
    seq(|filters|, j requires 0 <= j < |filters| => LinkValue(LinkIds(source, table, filters[j], filtersT)))
  }

  lemma {:induction false} LinkedUpToOverwrite(source: Fields, table: seq<Record>, filters: seq<string>,
                                               filtersT: seq<string>, field: Option<string>, k: nat)
    requires k <= |filters|
    ensures LinkedUpTo(source, table, filters, filtersT, field, k)
      == Overwrite(source, TargetSeq(field, filters), ValueSeq(source, table, filters, filtersT), k)
  {
    if k > 0 {
      LinkedUpToOverwrite(source, table, filters, filtersT, field, k - 1);
      var names, values := TargetSeq(field, filters), ValueSeq(source, table, filters, filtersT);
      UpdateSame(LinkedUpTo(source, table, filters, filtersT, field, k - 1), Overwrite(source, names, values, k - 1),
                 Target(field, filters, k - 1), names[k - 1],
                 LinkValue(LinkIds(source, table, filters[k - 1], filtersT)), values[k - 1]);
    }
  }

  /** Equal maps updated at equal keys with equal values stay equal; stated
      apart so that the step above does not unfold the two sides. */
  lemma UpdateSame(m1: Fields, m2: Fields, t1: string, t2: string, v1: Value, v2: Value)
    requires m1 == m2 && t1 == t2 && v1 == v2
    ensures m1[t1 := v1] == m2[t2 := v2]
  {
  }

  /** With several filters, or no target field, every filter field ends up
      holding the links found through it. */
  lemma LinkedWritesEachFilter(source: Fields, table: seq<Record>, filters: seq<string>,
                               filtersT: seq<string>, field: Option<string>, k: nat, i: nat)
    requires i < k <= |filters| && (Falsy(field) || |filters| > 1)
    ensures var out := LinkedUpTo(source, table, filters, filtersT, field, k);
      filters[i] in out && out[filters[i]] == LinkValue(LinkIds(source, table, filters[i], filtersT))
  {
    LinkedUpToOverwrite(source, table, filters, filtersT, field, k);
    var names, values := TargetSeq(field, filters), ValueSeq(source, table, filters, filtersT);
    forall j | i < j < k && names[j] == names[i]
      ensures values[j] == values[i]
    {
      assert names[j] == filters[j] && names[i] == filters[i];
    }
    OverwriteAt(source, names, values, k, i);
    assert names[i] == filters[i];
  }



  /** With one filter and a target field, the links go to the target field. */
  lemma LinkedSingleTarget(record: Record, order: seq<string>, table: seq<Record>, filtersR: seq<string>,
                           filtersT: seq<string>, name: string, contains: bool)
    requires name != "" && |Targets(order, filtersR, contains)| == 1
    ensures var out := Linked(record, order, table, filtersR, filtersT, Some(name), contains);
      && name in out.fields
      && out.fields[name] == LinkValue(LinkIds(record.fields, table, Targets(order, filtersR, contains)[0], StripEach(filtersT)))
      && forall x :: x in record.fields && x != name ==> x in out.fields && out.fields[x] == record.fields[x]
  {
    var targets := Targets(order, filtersR, contains);
    var strippedT := StripEach(filtersT);
    assert Target(Some(name), targets, 0) == name;
    assert LinkedUpTo(record.fields, table, targets, strippedT, Some(name), 1)
      == record.fields[name := LinkValue(LinkIds(record.fields, table, targets[0], strippedT))];
  }

  /** As written, one contained field with a target-less call writes the
      links into the record's last field and leaves the matched field as it
      was; the model above writes them into the matched field. */
  lemma ContainsRetargetsLastField()
    ensures var record := Record(Some("rec1"), map["Project" := VStr("A"), "X" := VStr("b")]);
      var order := ["Project", "X"];
      var written := LinkedAsWritten(record, order, [], ["proj"], [], None, true);
      var intended := Linked(record, order, [], ["proj"], [], None, true);
      && "X" in written.fields && written.fields["X"] == VNone
      && "Project" in written.fields && written.fields["Project"] == VStr("A")
      && "Project" in intended.fields && intended.fields["Project"] == VNone
      && "X" in intended.fields && intended.fields["X"] == VStr("b")
  {
    var record := Record(Some("rec1"), map["Project" := VStr("A"), "X" := VStr("b")]);
    var order := ["Project", "X"];
    ProjFilterContained();
    assert Targets(order, ["proj"], true) == ["Project"];
    assert LinkIds(record.fields, [], "Project", StripEach([])) == [];
    assert Target(Some("X"), ["Project"], 0) == "X";
    assert Target(None, ["Project"], 0) == "Project";
    var written := LinkedAsWritten(record, order, [], ["proj"], [], None, true);
    assert written.fields == record.fields["X" := VNone];
    assert "Project" in record.fields && "Project" != "X";
    assert "Project" in written.fields;
    assert Linked(record, order, [], ["proj"], [], None, true).fields == record.fields["Project" := VNone];
  }

  /** Of the fields "Project" and "X", only "Project" contains "proj". */
  lemma ProjFilterContained()
    ensures StripEach(["proj"]) == ["proj"]
    ensures Contained(["proj"], ["Project", "X"]) == ["Project"]
  {
    StripProj();
    ProjectFieldContainsProj();
    assert ["proj"][..0] == [];
  }

  lemma StripProj()
    ensures StripEach(["proj"]) == ["proj"]
  {
    assert LStrip("proj") == "proj" && RStrip("proj") == "proj";
  }

  lemma ProjectFieldContainsProj()
    ensures FieldsContaining(["Project", "X"], "proj") == ["Project"]
  {
    var order := ["Project", "X"];
    ProjectContainsProj();
    XLacksProj();
    assert order[..1] == ["Project"] && order[..1][..0] == [];
    assert FieldsContaining(order[..1], "proj") == ["Project"];
  }


  lemma ProjectContainsProj()
    ensures Contains(Lower("Project"), Lower("proj"))
  {
    assert Lower("proj") == "proj";
    assert Lower("Project") == "project";
    assert "proj" <= "project";
  }

  lemma XLacksProj()
    ensures !Contains(Lower("X"), Lower("proj"))
  {
    assert Lower("proj") == "proj";
    assert Lower("X") == "x";
    assert !Contains("", "proj");
    assert !("proj" <= "x");
    assert "x"[1..] == "";
  }
}
