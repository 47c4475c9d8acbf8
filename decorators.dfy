/** The `chunkify` decorator (airbase/decorators.py): the records are cut into
    consecutive batches of at most ten, the wrapped call is made once per
    batch, and the replies are unpacked into one list. The calls are made one
    after the other here; the wrapped call is a function parameter. */
module Decorators {
  import opened Values
  import opened Tools

  const MaxChunkSize: nat := 10

  function Min(a: int, b: int): int
  {
    if a < b then a else b
  }

  /** Python's `s[lo:hi]` for `0 <= lo <= hi`: both ends are clipped to the length. */
  function Slice<T>(s: seq<T>, lo: nat, hi: nat): (r: seq<T>)
    requires lo <= hi
    ensures |r| == Min(hi, |s|) - Min(lo, |s|)
  {
    s[Min(lo, |s|)..Min(hi, |s|)]
  }

  /** How many batches `range(0, n, 10)` starts. */
  function ChunkCount(n: nat): nat
  {
    (n + MaxChunkSize - 1) / MaxChunkSize
  }

  /** `records[i : i + 10] for i in range(0, len(records), 10)`. */
  function Chunks<T>(records: seq<T>): seq<seq<T>>
  {
    seq(ChunkCount(|records|), k requires 0 <= k => Slice(records, k * MaxChunkSize, k * MaxChunkSize + MaxChunkSize))
  }

  function Concat<T>(xss: seq<seq<T>>): seq<T>
    decreases |xss|
  {
    if xss == [] then [] else Concat(xss[..|xss| - 1]) + xss[|xss| - 1]
  }

  /** The batches put back together are the records, in order. */
  lemma ChunksConcat<T>(records: seq<T>)
    ensures Concat(Chunks(records)) == records
  {
    var cs := Chunks(records);
    var n := |records|;
    for k := 0 to |cs|
      invariant Concat(cs[..k]) == records[..Min(k * MaxChunkSize, n)]
    {
      assert cs[..k + 1][..k] == cs[..k];
      assert Concat(cs[..k + 1]) == Concat(cs[..k]) + cs[k];
    }
    assert cs[..|cs|] == cs;
    assert |cs| * MaxChunkSize >= n;
    assert records[..n] == records;
  }

  /** There are ceil(n/10) batches; each but the last holds exactly ten
      records, and the last one between one and ten. */
  lemma ChunkSizes<T>(records: seq<T>)
    ensures |Chunks(records)| == ChunkCount(|records|)
    ensures records == [] <==> Chunks(records) == []
    ensures forall k :: 0 <= k < |Chunks(records)| - 1 ==> |Chunks(records)[k]| == MaxChunkSize
    ensures records != [] ==> 1 <= |Chunks(records)[|Chunks(records)| - 1]| <= MaxChunkSize
  {
    var n := |records|;
    var c := ChunkCount(n);
    forall k | 0 <= k < c - 1
      ensures |Chunks(records)[k]| == MaxChunkSize
    {
      assert (k + 1) * MaxChunkSize + MaxChunkSize <= c * MaxChunkSize;
    }
    if n > 0 {
      assert (c - 1) * MaxChunkSize < n;
    }
  }

  /** The reply kept for one call, unpacked into the result: the records of a
      reply with a truthy "records" entry, or the reply itself. None is the
      exception of a reply that is not a dict or whose "records" cannot be
      iterated. */
  function UnpackOne(reply: Value): Option<seq<Value>>
  {
    if !reply.VDict? then None
    else if Truthy(Get(reply.entries, "records")) then Iterated(Get(reply.entries, "records"))
    else Some([reply])
  }

  /** The unpacked results of the replies, in order. */
  function Unpack(replies: seq<Value>): Option<seq<Value>>
    decreases |replies|
  {
    if replies == [] then Some([])
    else
      var n := |replies| - 1;
      match Unpack(replies[..n])
      case None => None
      case Some(prev) =>
        match UnpackOne(replies[n])
        case None => None
        case Some(more) => Some(prev + more)
  }

  /** When every reply carries a non-empty "records" list, the result is all
      those records, reply after reply. */
  lemma {:induction false} UnpackAllRecords(replies: seq<Value>, lists: seq<seq<Value>>)
    requires |lists| == |replies|
    requires forall j :: 0 <= j < |replies| ==> replies[j].VDict? && lists[j] != [] && Get(replies[j].entries, "records") == VList(lists[j])
    ensures Unpack(replies) == Some(Concat(lists))
    decreases |replies|
  {
    if replies != [] {
      var n := |replies| - 1;
      UnpackAllRecords(replies[..n], lists[..n]);
      assert lists[..n + 1][..n] == lists[..n];
      assert lists == lists[..n] + [lists[n]];
    }
  }

  /** When no reply carries records, the replies are returned as they are. */
  lemma {:induction false} UnpackNoRecords(replies: seq<Value>)
    requires forall j :: 0 <= j < |replies| ==> replies[j].VDict? && !Truthy(Get(replies[j].entries, "records"))
    ensures Unpack(replies) == Some(replies)
    decreases |replies|
  {
    if replies != [] {
      var n := |replies| - 1;
      UnpackNoRecords(replies[..n]);
      assert replies[..n] + [replies[n]] == replies;
    }
  }

  /** One reply per batch, in batch order. */
  function Replies<T>(calls: seq<seq<T>>, methodName: string, typecast: Value, func: (string, seq<T>, Value) -> Value): (r: seq<Value>)
    ensures |r| == |calls|
  {
    seq(|calls|, k requires 0 <= k < |calls| => func(methodName, calls[k], typecast))
  }

  /** `typecast = kwargs.get("typecast") or False`. */
  function TypecastArg(typecast: Value): Value
  {
    if Truthy(typecast) then typecast else VBool(false)
  }

  /** The wrapped `inner`: one call per batch, then the replies unpacked. */
  method Chunkify<T>(records: seq<T>, methodName: string, typecast: Value, func: (string, seq<T>, Value) -> Value)
    returns (calls: seq<seq<T>>, unpacked: Option<seq<Value>>)
    ensures calls == Chunks(records)
    ensures unpacked == Unpack(Replies(calls, methodName, TypecastArg(typecast), func))
    ensures records == [] ==> calls == [] && unpacked == Some([])
  {
    var cast := TypecastArg(typecast);
    calls := [];
    var replies: seq<Value> := [];
    var i := 0;
    while i < |records|
      invariant i == |calls| * MaxChunkSize
      invariant |calls| <= ChunkCount(|records|)
      invariant calls == Chunks(records)[..|calls|]
      invariant replies == Replies(calls, methodName, cast, func)
    {
      var subList := Slice(records, i, i + MaxChunkSize);
      calls := calls + [subList];
      replies := replies + [func(methodName, subList, cast)];
      i := i + MaxChunkSize;
    }
    assert |calls| == ChunkCount(|records|);
    assert calls == Chunks(records);
    unpacked := UnpackReplies(replies);
  }

  /** The unpacking loop. */
  method UnpackReplies(replies: seq<Value>) returns (unpacked: Option<seq<Value>>)
    ensures unpacked == Unpack(replies)
  {
    var results: seq<Value> := [];
    for j := 0 to |replies|
      invariant Unpack(replies[..j]) == Some(results)
    {
      assert replies[..j + 1][..j] == replies[..j];
      var reply := replies[j];
      if !reply.VDict? {
        UnpackNoneStays(replies, j + 1);
        return None;
      }
      var records := Get(reply.entries, "records");
      if Truthy(records) {
        var items := Iterated(records);
        if items.None? {
          UnpackNoneStays(replies, j + 1);
          return None;
        }
        results := results + items.value;
      } else {
        results := results + [reply];
      }
    }
    assert replies[..|replies|] == replies;
    unpacked := Some(results);
  }

  lemma {:induction false} UnpackNoneStays(replies: seq<Value>, k: nat)
    requires k <= |replies| && Unpack(replies[..k]).None?
    ensures Unpack(replies).None?
    decreases |replies| - k
  {
    if k < |replies| {
      assert replies[..k + 1][..k] == replies[..k];
      UnpackNoneStays(replies, k + 1);
    } else {
      assert replies[..k] == replies;
    }
  }
}
