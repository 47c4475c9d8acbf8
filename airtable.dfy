/** The pure helpers of the table client (airbase/airtable.py): the success
    test, the retry loop of `_request`, log-message and url building, the
    primary-field lookups, and `_multiple`'s batches of ten. The HTTP session
    is a parameter: the outcome of the k-th attempt. */
module Airtable {
  import opened Values
  import opened Text
  import opened Show
  import opened Decorators

  /** The class attribute `retries`. */
  const Retries: nat := 5

  /** `_is_success`: a response exists and its status is in the 200s. */
  function IsSuccess(status: Option<int>): (r: bool)
    ensures r <==> status.Some? && 200 <= status.value < 300
  {
    match status
    case None => false
    case Some(code) => code >= 200 && code < 300
  }

  // ---------------------------------------------------------------------------
  // _request

  /** What one attempt meets: a connection error or timeout, or a response. */
  datatype Outcome = ConnectionError | Response(status: int)

  /** Outcomes worth another attempt. */
  predicate Retryable(o: Outcome)
  {
    o.ConnectionError? || o.status in [408, 429, 503, 504]
  }

  function Pow2(k: nat): nat
  {
    if k == 0 then 1 else 2 * Pow2(k - 1)
  }

  /** The pause before the next attempt, in hundredths of a second:
      `(2 ** count) * 0.51` seconds. */
  function Delay(count: nat): nat
  {
    Pow2(count) * 51
  }

  /** The status returned (None when the retries ran out) and the pauses taken,
      from attempt `count` on, when attempt k meets `server(k)`. */
  function RequestFrom(server: nat -> Outcome, count: nat): (Option<int>, seq<nat>)
    requires count <= Retries
    decreases Retries - count
  {
    var o := server(count);
    if !Retryable(o) then (Some(o.status), [])
    else if count + 1 > Retries then (None, [])
    else
      var rest := RequestFrom(server, count + 1);
      (rest.0, [Delay(count)] + rest.1)
  }

  /** `_request` returns the first outcome that is not retryable, after one
      pause of `Delay(j)` before attempt j + 1; it gives up with None once six
      attempts in a row were retryable. */
  lemma {:induction false} RequestFromSpec(server: nat -> Outcome, count: nat)
    requires count <= Retries
    ensures var (res, delays) := RequestFrom(server, count);
      && count + |delays| <= Retries
      && (forall j :: 0 <= j < |delays| ==> delays[j] == Delay(count + j) && Retryable(server(count + j)))
      && (res.None? ==> count + |delays| == Retries && Retryable(server(Retries)))
      && (res.Some? ==> !Retryable(server(count + |delays|)) && res.value == server(count + |delays|).status)
    decreases Retries - count
  {
    if Retryable(server(count)) && count + 1 <= Retries {
      var rest := RequestFrom(server, count + 1);
      RequestFromSpec(server, count + 1);
      var delays := [Delay(count)] + rest.1;
      assert RequestFrom(server, count) == (rest.0, delays);
      forall j | 0 <= j < |delays|
        ensures delays[j] == Delay(count + j) && Retryable(server(count + j))
      {
        if j > 0 {
          assert delays[j] == rest.1[j - 1] && count + j == (count + 1) + (j - 1);
        }
      }
      assert count + |delays| == (count + 1) + |rest.1|;
    }
  }

  /** At most `Retries + 1` (six) attempts; None exactly when all six were
      retryable. */
  lemma RequestGivesUp(server: nat -> Outcome)
    ensures |RequestFrom(server, 0).1| <= Retries
    ensures RequestFrom(server, 0).0.None? <==> forall k :: 0 <= k <= Retries ==> Retryable(server(k))
  {
    RequestFromSpec(server, 0);
    var (res, delays) := RequestFrom(server, 0);
    if res.None? {
      forall k | 0 <= k <= Retries
        ensures Retryable(server(k))
      {
        if k < Retries {
          assert Retryable(server(0 + k));
        }
      }
    }
  }

  /** The retry loop of `_request`: the status it returns and the pauses it
      takes. */
  method Request(server: nat -> Outcome) returns (res: Option<int>, delays: seq<nat>)
    ensures (res, delays) == RequestFrom(server, 0)
  {
    var count := 0;
    delays := [];
    while true
      invariant count <= Retries
      invariant RequestFrom(server, 0).0 == RequestFrom(server, count).0
      invariant RequestFrom(server, 0).1 == delays + RequestFrom(server, count).1
      decreases Retries - count
    {
      var o := server(count);
      if Retryable(o) {
        var delay := Delay(count);
        count := count + 1;
        if count > Retries {
          assert RequestFrom(server, count - 1) == (None, []);
          assert delays + [] == delays;
          return None, delays;
        } else {
          assert RequestFrom(server, count - 1).1 == [delay] + RequestFrom(server, count).1;
          delays := delays + [delay];
        }
      } else {
        assert RequestFrom(server, count) == (Some(o.status), []);
        assert delays + [] == delays;
        return Some(o.status), delays;
      }
    }
  }

  // ---------------------------------------------------------------------------
  // Log messages, urls and primary fields

  /** `_basic_log_msg`: the number of records and "record", plural when more
      than one. */
  function BasicLogMsg(content: Value): string
  {
    if content.VList? then IntStr(|content.items|) + " record" + (if |content.items| > 1 then "s" else "")
    else "1 record"
  }

  /** The message counts the records (one for anything but a list) and says
      "records" exactly when that count exceeds one. */
  lemma BasicLogMsgCounts(content: Value)
    ensures var n := if content.VList? then |content.items| else 1;
      var msg := BasicLogMsg(content);
      && IntOf(Split(msg, ' ')[0]) == Some(n)
      && (msg[|msg| - 1] == 's' <==> n > 1)
  {
    var n := if content.VList? then |content.items| else 1;
    var plural := if content.VList? && n > 1 then "s" else "";
    var msg := BasicLogMsg(content);
    assert msg == IntStr(n) + [' '] + ("record" + plural);
    assert ' ' !in IntStr(n);
    SplitAtSeparator(IntStr(n), "record" + plural, ' ');
    IntStrRoundTrip(n);
  }

  /** `_add_record_to_url`. */
  function AddRecordToUrl(url: string, recordId: string): string
  {
    url + "/" + recordId
  }

  /** The record id is the last "/"-separated piece of the url, and the table
      url is what comes before it. */
  lemma AddRecordToUrlRoundTrip(url: string, recordId: string)
    requires '/' !in recordId
    ensures var pieces := Split(AddRecordToUrl(url, recordId), '/');
      pieces[|pieces| - 1] == recordId && Join(pieces[..|pieces| - 1], "/") == url
  {
    SplitAtLastSeparator(url, recordId, '/');
    JoinSplit(url, '/');
    var pieces := Split(AddRecordToUrl(url, recordId), '/');
    assert pieces[..|pieces| - 1] == Split(url, '/');
  }

  /** The names of the fields whose "id" equals the primary field id, in
      order; None for a field that is not a dict with an "id", or a matching
      one without a "name" (the exception of the comprehension). */
  function MatchingNames(fields: seq<Value>, primaryFieldId: Value): Option<seq<Value>>
    decreases |fields|
  {
    if fields == [] then Some([])
    else
      var n := |fields| - 1;
      var f := fields[n];
      match MatchingNames(fields[..n], primaryFieldId)
      case None => None
      case Some(prev) =>
        if !f.VDict? || "id" !in f.entries then None
        else if !PyEq(f.entries["id"], primaryFieldId) then Some(prev)
        else if "name" !in f.entries then None
        else Some(prev + [f.entries["name"]])
  }

  /** `f` is a field dict with the primary field id and the name `name`. */
  predicate IsNamed(f: Value, primaryFieldId: Value, name: Value)
  {
    f.VDict? && "id" in f.entries && PyEq(f.entries["id"], primaryFieldId) && "name" in f.entries && name == f.entries["name"]
  }

  /** The `primary_field_name` attribute: the name of the first field with
      the primary field id when both are given, else None (VNone). The outer
      None is the exception raised when no field matches or a field is
      malformed. */
  function PrimaryFieldName(fields: seq<Value>, primaryFieldId: Value): (r: Option<Value>)
    ensures fields == [] || !Truthy(primaryFieldId) ==> r == Some(VNone)
    ensures fields != [] && Truthy(primaryFieldId) && r.Some? ==> exists j :: 0 <= j < |fields| && IsNamed(fields[j], primaryFieldId, r.value)
  {
    if fields != [] && Truthy(primaryFieldId) then
      match MatchingNames(fields, primaryFieldId)
      case None => None
      case Some(names) =>
        if names == [] then None
        else
          MatchingNamesFrom(fields, primaryFieldId);
          Some(names[0])
    else Some(VNone)
  }

  lemma {:induction false} MatchingNamesFrom(fields: seq<Value>, primaryFieldId: Value)
    requires MatchingNames(fields, primaryFieldId).Some?
    ensures var names := MatchingNames(fields, primaryFieldId).value;
      forall i :: 0 <= i < |names| ==> exists j :: 0 <= j < |fields| && IsNamed(fields[j], primaryFieldId, names[i])
    decreases |fields|
  {
    if fields != [] {
      var n := |fields| - 1;
      MatchingNamesFrom(fields[..n], primaryFieldId);
      var prev := MatchingNames(fields[..n], primaryFieldId).value;
      var names := MatchingNames(fields, primaryFieldId).value;
      forall i | 0 <= i < |names|
        ensures exists j :: 0 <= j < |fields| && IsNamed(fields[j], primaryFieldId, names[i])
      {
        if i < |prev| {
          assert names[i] == prev[i];
          var j :| 0 <= j < n && IsNamed(fields[..n][j], primaryFieldId, prev[i]);
          assert fields[j] == fields[..n][j];
        } else {
          assert IsNamed(fields[n], primaryFieldId, names[i]);
        }
      }
    }
  }

  /** `_get_record_primary_key_value_or_id`: the record's primary field value
      when the record has fields, the table knows its primary field and that
      value is truthy; otherwise `record.get("id")`. None is the exception of
      fields that are not a dict or a name that cannot be hashed. */
  function PrimaryKeyValueOrId(record: Fields, primaryFieldName: Value): (r: Option<Value>)
    ensures var fields := Get(record, "fields");
      (Truthy(fields) && fields.VDict? && primaryFieldName.VStr? && primaryFieldName.s != "" && Truthy(Get(fields.entries, primaryFieldName.s))) ==>
        r == Some(fields.entries[primaryFieldName.s])
    ensures !Truthy(Get(record, "fields")) || !Truthy(primaryFieldName) ==> r == Some(Get(record, "id"))
    ensures r.Some? && r.value != Get(record, "id") ==> Truthy(r.value)
  {
    var fields := Get(record, "fields");
    if Truthy(fields) && Truthy(primaryFieldName) then
      if !fields.VDict? || !Hashable(primaryFieldName) then None
      else
        var value := if primaryFieldName.VStr? then Get(fields.entries, primaryFieldName.s) else VNone;
        if Truthy(value) then Some(value) else Some(Get(record, "id"))
    else Some(Get(record, "id"))
  }

  // ---------------------------------------------------------------------------
  // _multiple

  /** `_multiple`: the wrapped call runs once per batch of ten, and the result
      is True exactly when every call's result is truthy. */
  method Multiple(records: seq<Value>, typecast: Value, func: (seq<Value>, Value) -> Value)
    returns (calls: seq<seq<Value>>, ok: bool)
    ensures calls == Chunks(records)
    ensures ok <==> forall k :: 0 <= k < |calls| ==> Truthy(func(calls[k], typecast))
  {
    calls := [];
    var results: seq<Value> := [];
    var i := 0;
    while i < |records|
      invariant i == |calls| * MaxChunkSize
      invariant |calls| <= ChunkCount(|records|)
      invariant calls == Chunks(records)[..|calls|]
      invariant |results| == |calls|
      invariant forall k :: 0 <= k < |calls| ==> results[k] == func(calls[k], typecast)
    {
      var subList := Slice(records, i, i + MaxChunkSize);
      calls := calls + [subList];
      results := results + [func(subList, typecast)];
      i := i + MaxChunkSize;
    }
    assert |calls| == ChunkCount(|records|);
    assert calls == Chunks(records);
    ok := !(exists k :: 0 <= k < |results| && !Truthy(results[k]));
  }
}
