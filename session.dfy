/** The string builders of the HTTP session (airbase/session/session.py): the
    query string appended to a url, the form-encoded body, and the text chosen
    for a failed request's log line. Nothing is percent-encoded: keys and
    values go in as their `str()`, unlike the query component of section 3.4
    of RFC 3986. */
module Session {
  import opened Values
  import opened Text
  import opened Show

  /** One `key=str(value)` pair. */
  function Pair(item: (string, Value)): string
  {
    item.0 + "=" + Str(item.1)
  }

  function Pairs(items: Items): (r: seq<string>)
    ensures |r| == |items|
  {
    seq(|items|, i requires 0 <= i < |items| => Pair(items[i]))
  }

  /** The pairs joined by "&", with no "&" at either end. */
  function Encoded(items: Items): string
  {
    Join(Pairs(items), "&")
  }

  /** `_add_url_params`: the url alone when there are no parameters, else the
      url, one "?", and the encoded pairs. */
  method AddUrlParams(url: string, params: Items) returns (r: string)
    ensures r == if params == [] then url else url + "?" + Encoded(params)
  {
    var urlParams := "";
    var count := 0;
    for i := 0 to |params|
      invariant count == i
      invariant i == 0 ==> urlParams == ""
      invariant i > 0 ==> urlParams == "?" + Join(Pairs(params[..i]), "&")
    {
      PairsStep(params, i);
      if i > 0 {
        var joined := Join(Pairs(params[..i]), "&");
        assert "?" + joined + "&" + Pair(params[i]) == "?" + (joined + "&" + Pair(params[i]));
      }
      urlParams := AppendParam(urlParams, count, params[i]);
      count := count + 1;
    }
    assert params[..|params|] == params;
    r := url + urlParams;
  }

  /** One turn of the `_add_url_params` loop: "?" before the first pair, "&"
      before the others. */
  method AppendParam(urlParams: string, count: nat, item: (string, Value)) returns (r: string)
    ensures r == urlParams + (if count == 0 then "?" else "&") + Pair(item)
  {
    r := urlParams;
    if count == 0 {
      r := r + "?";
    } else {
      r := r + "&";
    }
    r := r + item.0 + "=";
    r := r + Str(item.1);
  }

  /** `_url_encode`: the encoded pairs; "" for an empty dict. */
  method UrlEncode(data: Items) returns (r: string)
    ensures r == Encoded(data)
  {
    r := "";
    var count := |data|;
    for i := 0 to |data|
      invariant count == |data| - i
      invariant i == 0 ==> r == ""
      invariant 0 < i < |data| ==> r == Join(Pairs(data[..i]), "&") + "&"
      invariant 0 < i == |data| ==> r == Join(Pairs(data[..i]), "&")
    {
      ghost var before := r;
      r := r + data[i].0 + "=" + Str(data[i].1);
      assert r == before + Pair(data[i]);
      if count != 1 {
        r := r + "&";
      }
      count := count - 1;
      PairsStep(data, i);
    }
    assert data[..|data|] == data;
  }

  lemma PairsStep(items: Items, i: nat)
    requires i < |items|
    ensures Pairs(items[..i + 1]) == Pairs(items[..i]) + [Pair(items[i])]
    ensures i > 0 ==> Join(Pairs(items[..i + 1]), "&") == Join(Pairs(items[..i]), "&") + "&" + Pair(items[i])
    ensures i == 0 ==> Join(Pairs(items[..i + 1]), "&") == Pair(items[i])
  {
    assert Pairs(items[..i + 1]) == Pairs(items[..i]) + [Pair(items[i])];
    if i > 0 {
      JoinAppend(Pairs(items[..i]), Pair(items[i]), "&");
    }
  }

  /** Keys and values free of "&" and "=". */
  predicate Plain(items: Items)
  {
    forall i :: 0 <= i < |items| ==> '&' !in items[i].0 && '=' !in items[i].0 && '&' !in Str(items[i].1) && '=' !in Str(items[i].1)
  }

  /** n parameters give exactly n - 1 "&" in the encoded text, hence after the
      "?" of `_add_url_params`, when nothing in them holds an "&". */
  lemma EncodedAmpersands(items: Items)
    requires items != [] && Plain(items)
    ensures CountChar(Encoded(items), '&') == |items| - 1
  {
    PairsPlain(items);
    JoinCountsSeparators(Pairs(items), '&');
  }

  lemma PairsPlain(items: Items)
    requires Plain(items)
    ensures forall i :: 0 <= i < |items| ==> '&' !in Pairs(items)[i] && '=' !in Pairs(items)[i][..|items[i].0|]
  {
  }

  /** Splitting the encoded text at "&" and then at "=" gives back every key
      and the text of its value, in order, when nothing in them holds "&" or
      "=". */
  lemma EncodedRoundTrip(items: Items)
    requires items != [] && Plain(items)
    ensures |Split(Encoded(items), '&')| == |items|
    ensures forall i :: 0 <= i < |items| ==> Split(Split(Encoded(items), '&')[i], '=') == [items[i].0, Str(items[i].1)]
  {
    PairsPlain(items);
    SplitJoin(Pairs(items), '&');
    forall i | 0 <= i < |items|
      ensures Split(Pairs(items)[i], '=') == [items[i].0, Str(items[i].1)]
    {
      SplitAtSeparator(items[i].0, Str(items[i].1), '=');
      SplitWithoutSeparator(Str(items[i].1), '=');
    }
  }

  // ---------------------------------------------------------------------------
  // _log_error

  /** The "detail" text of every error in a list; None for an item that is not
      a dict with a string "detail" (the KeyError or TypeError of the join). */
  function Details(errors: seq<Value>): (r: Option<seq<string>>)
    ensures r.Some? ==> |r.value| == |errors|
    decreases |errors|
  {
    if errors == [] then Some([])
    else
      var n := |errors| - 1;
      var e := errors[n];
      match Details(errors[..n])
      case None => None
      case Some(prev) =>
        if e.VDict? && "detail" in e.entries && e.entries["detail"].VStr? then Some(prev + [e.entries["detail"].s]) else None
  }

  /** The text after "ERROR: " in the warning of a failed request, given the
      decoded error and the status code; None when building it raises. */
  function LogErrorText(responseError: Value, statusCode: int): (r: Option<string>)
    ensures !Truthy(responseError) ==> r.Some? && IntOf(r.value) == Some(statusCode)
    ensures responseError.VDict? && Truthy(Get(responseError.entries, "message")) ==> r == Some(Str(Get(responseError.entries, "message")))
    ensures responseError.VDict? && Truthy(responseError) && !Truthy(Get(responseError.entries, "message")) ==> r == Some(Str(Get(responseError.entries, "type")))
    ensures responseError.VList? && Truthy(responseError) ==> (r.Some? <==> Details(responseError.items).Some?)
    ensures Truthy(responseError) && !responseError.VList? && !responseError.VDict? ==> r == Some(Str(responseError))
  {
    if Truthy(responseError) then
      match responseError
      case VList(errors) =>
        (match Details(errors)
         case None => None
         case Some(texts) => Some(Join(texts, ", ")))
      case VDict(m) =>
        var message := Get(m, "message");
        Some(Str(if Truthy(message) then message else Get(m, "type")))
      case _ => Some(Str(responseError))
    else
      IntStrRoundTrip(statusCode);
      Some(IntStr(statusCode))
  }

  /** A body that is not JSON is reported as its own text, and any other
      truthy scalar as its `str`: a number as its digits, True as "True". */
  lemma LogErrorOfScalar(text: string, i: int, statusCode: int)
    requires text != [] && i != 0
    ensures LogErrorText(VStr(text), statusCode) == Some(text)
    ensures LogErrorText(VInt(i), statusCode).Some? && IntOf(LogErrorText(VInt(i), statusCode).value) == Some(i)
    ensures LogErrorText(VBool(true), statusCode) == Some("True")
  {
    IntStrRoundTrip(i);
  }

  /** A list of errors reads as their details joined by ", ": one detail per
      error, in order, each separated from the next. */
  lemma {:induction false} LogErrorListJoinsDetails(errors: seq<Value>, details: seq<string>)
    requires errors != [] && |details| == |errors|
    requires forall i :: 0 <= i < |errors| ==> errors[i] == VDict(map["detail" := VStr(details[i])])
    ensures LogErrorText(VList(errors), 0) == Some(Join(details, ", "))
    decreases |errors|
  {
    var n := |errors| - 1;
    if n > 0 {
      LogErrorListJoinsDetails(errors[..n], details[..n]);
    }
    DetailsOfDicts(errors, details);
  }

  lemma {:induction false} DetailsOfDicts(errors: seq<Value>, details: seq<string>)
    requires |details| == |errors|
    requires forall i :: 0 <= i < |errors| ==> errors[i] == VDict(map["detail" := VStr(details[i])])
    ensures Details(errors) == Some(details)
    decreases |errors|
  {
    if errors != [] {
      var n := |errors| - 1;
      DetailsOfDicts(errors[..n], details[..n]);
      assert details[..n] + [details[n]] == details;
    }
  }
}
