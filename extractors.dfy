/** JSONAPI.Http's default include and sort extractors: the first request
    parameter with the recognised key has its value split on commas; with no
    such parameter the result is empty. Neither extractor interprets the
    tokens (dotted relationship paths, a leading `-` for descending order). */
module Http {
  import opened Wrappers
  import opened Sequences
  import opened Strings

  /** One `KeyValuePair<string, string>` of the request's query string. */
  datatype QueryParam = QueryParam(key: string, value: string)

  const IncludeQueryParamKey: string := "include"
  const SortQueryParamKey: string := "sort"

  /** The predicate `kvp => kvp.Key == key`. */
  function KeyIs(key: string): (r: QueryParam -> bool)
    ensures forall p :: r(p) <==> p.key == key
  {
    (p: QueryParam) => p.key == key
  }

  /** `requestParams.FirstOrDefault(kvp => kvp.Key == key)`, as a position. */
  function FirstWithKey(requestParams: seq<QueryParam>, key: string): (r: Option<nat>)
    ensures r.Some? ==> r.value < |requestParams| && requestParams[r.value].key == key
    ensures r.Some? ==> forall j :: 0 <= j < r.value ==> requestParams[j].key != key
    ensures r.None? <==> forall j :: 0 <= j < |requestParams| ==> requestParams[j].key != key
  {
    FindFirst(requestParams, KeyIs(key))
  }

  /** The shared body of both extractors. */
  function ExtractExpressions(requestParams: seq<QueryParam>, key: string): (r: seq<string>)
    ensures r == [] <==> forall j :: 0 <= j < |requestParams| ==> requestParams[j].key != key
    ensures forall t :: 0 <= t < |r| ==> ',' !in r[t]
  {
    match FirstWithKey(requestParams, key)
    case None => []
    case Some(i) => Split(requestParams[i].value, ',')
  }

  /** The extraction is empty exactly when no parameter has the key;
      otherwise it is the first such parameter's value split on commas, every
      token is free of commas, there is one token more than there are commas,
      and joining the tokens with commas gives the value back. */
  lemma ExtractExpressionsSpec(requestParams: seq<QueryParam>, key: string)
    ensures var r := ExtractExpressions(requestParams, key);
            (r == [] <==> forall j :: 0 <= j < |requestParams| ==> requestParams[j].key != key)
    ensures forall i :: 0 <= i < |requestParams| && requestParams[i].key == key
                        && (forall j :: 0 <= j < i ==> requestParams[j].key != key) ==>
              var r := ExtractExpressions(requestParams, key);
              && r == Split(requestParams[i].value, ',')
              && Join(r, ',') == requestParams[i].value
              && |r| == Count(requestParams[i].value, ',') + 1
              && (forall t :: 0 <= t < |r| ==> ',' !in r[t])
  {
    var f := FirstWithKey(requestParams, key);
    if f.Some? {
      var v := requestParams[f.value].value;
      JoinSplit(v, ',');
      assert ExtractExpressions(requestParams, key) == Split(v, ',');
      forall i | 0 <= i < |requestParams| && requestParams[i].key == key
                 && (forall j :: 0 <= j < i ==> requestParams[j].key != key)
        ensures i == f.value
      {
      }
    }
  }

  /** Parameters after the first one with the key make no difference. */
  lemma ExtractIgnoresLaterParams(requestParams: seq<QueryParam>, later: seq<QueryParam>, key: string)
    requires exists j :: 0 <= j < |requestParams| && requestParams[j].key == key
    ensures ExtractExpressions(requestParams + later, key) == ExtractExpressions(requestParams, key)
  {
    FindFirstPrefix(requestParams, later, KeyIs(key));
  }

  /** A parameter with another key, inserted anywhere, makes no difference. */
  lemma ExtractIgnoresOtherKeys(requestParams: seq<QueryParam>, k: nat, other: QueryParam, key: string)
    requires k <= |requestParams| && other.key != key
    ensures ExtractExpressions(requestParams[..k] + [other] + requestParams[k..], key)
            == ExtractExpressions(requestParams, key)
  {
    FindFirstSkipsRejected(requestParams, k, other, KeyIs(key));
  }

  /** `DefaultIncludeExpressionExtractor.ExtractIncludeExpressions`. */
  function ExtractIncludeExpressions(requestParams: seq<QueryParam>): (r: seq<string>)
    ensures r == [] <==> forall j :: 0 <= j < |requestParams| ==> requestParams[j].key != IncludeQueryParamKey
    ensures forall i :: 0 <= i < |requestParams| && requestParams[i].key == IncludeQueryParamKey
                        && (forall j :: 0 <= j < i ==> requestParams[j].key != IncludeQueryParamKey) ==>
              Join(r, ',') == requestParams[i].value
              && |r| == Count(requestParams[i].value, ',') + 1
    ensures forall t :: 0 <= t < |r| ==> ',' !in r[t]
  {
    ExtractExpressionsSpec(requestParams, IncludeQueryParamKey);
    ExtractExpressions(requestParams, IncludeQueryParamKey)
  }

  /** `DefaultSortExpressionExtractor.ExtractSortExpressions`. */
  function ExtractSortExpressions(requestParams: seq<QueryParam>): (r: seq<string>)
    ensures r == [] <==> forall j :: 0 <= j < |requestParams| ==> requestParams[j].key != SortQueryParamKey
    ensures forall i :: 0 <= i < |requestParams| && requestParams[i].key == SortQueryParamKey
                        && (forall j :: 0 <= j < i ==> requestParams[j].key != SortQueryParamKey) ==>
              Join(r, ',') == requestParams[i].value
              && |r| == Count(requestParams[i].value, ',') + 1
    ensures forall t :: 0 <= t < |r| ==> ',' !in r[t]
  {
    ExtractExpressionsSpec(requestParams, SortQueryParamKey);
    ExtractExpressions(requestParams, SortQueryParamKey)
  }

  /** Only the first `include` parameter counts: later ones and parameters
      with other keys are ignored. */
  lemma IncludeUsesFirstParamOnly(requestParams: seq<QueryParam>, later: seq<QueryParam>, k: nat, other: QueryParam)
    requires exists j :: 0 <= j < |requestParams| && requestParams[j].key == IncludeQueryParamKey
    requires k <= |requestParams| && other.key != IncludeQueryParamKey
    ensures ExtractIncludeExpressions(requestParams + later) == ExtractIncludeExpressions(requestParams)
    ensures ExtractIncludeExpressions(requestParams[..k] + [other] + requestParams[k..])
            == ExtractIncludeExpressions(requestParams)
  {
    ExtractIgnoresLaterParams(requestParams, later, IncludeQueryParamKey);
    ExtractIgnoresOtherKeys(requestParams, k, other, IncludeQueryParamKey);
  }

  /** Only the first `sort` parameter counts: later ones and parameters with
      other keys are ignored. */
  lemma SortUsesFirstParamOnly(requestParams: seq<QueryParam>, later: seq<QueryParam>, k: nat, other: QueryParam)
    requires exists j :: 0 <= j < |requestParams| && requestParams[j].key == SortQueryParamKey
    requires k <= |requestParams| && other.key != SortQueryParamKey
    ensures ExtractSortExpressions(requestParams + later) == ExtractSortExpressions(requestParams)
    ensures ExtractSortExpressions(requestParams[..k] + [other] + requestParams[k..])
            == ExtractSortExpressions(requestParams)
  {
    ExtractIgnoresLaterParams(requestParams, later, SortQueryParamKey);
    ExtractIgnoresOtherKeys(requestParams, k, other, SortQueryParamKey);
  }

  /** `sort=name,-age` gives `["name", "-age"]`: the `-` is passed through. */
  lemma SortExample()
    ensures ExtractSortExpressions([QueryParam("sort", "name,-age")]) == ["name", "-age"]
  {
    var tokens := ["name", "-age"];
    assert Join(tokens, ',') == "name,-age";
    SplitJoin(tokens, ',');
  }

  /** `include=a,,b` keeps the empty token, whatever comes before it. */
  lemma IncludeExample()
    ensures ExtractIncludeExpressions([QueryParam("page", "2"), QueryParam("include", "a,,b")]) == ["a", "", "b"]
  {
    var tokens := ["a", "", "b"];
    assert Join(tokens, ',') == "a,,b";
    SplitJoin(tokens, ',');
  }
}
