/**
 The Foundation values the stub logic reads: parsed URLs, requests, responses, errors and
 the `(data, response, error)` triple a completion handler receives.
 */
module Http {
  import opened Base

  /** `URLQueryItem`: a name and an optional value (`?flag` has none). */
  datatype QueryItem = QueryItem(name: string, value: Option<string>)

  /**
   A URL as `URLComponents` sees it. `queryItems` is absent when the URL has no query part.
   Parsing URL text is not modelled; a URL arrives already parsed.
   */
  datatype Url = Url(scheme: Option<string>, host: Option<string>, path: string, queryItems: Option<seq<QueryItem>>)

  /** `allHTTPHeaderFields` / `allHeaderFields`: one value per name. A header added twice
      reaches this map once, with its values joined by commas in the order they were added. */
  type HeaderFields = map<string, string>

  /** `URLRequest`, reduced to the parts the matchers and the codec read. */
  datatype Request = Request(
    url: Option<Url>,
    httpMethod: Option<string>,
    headerFields: Option<HeaderFields>,
    httpBody: Option<Bytes>)

  /** `URLResponse`: an HTTP response carries a status code and header fields, any other only a URL. */
  datatype Response =
    | HttpResponse(url: Option<Url>, statusCode: int, headerFields: HeaderFields)
    | PlainResponse(url: Option<Url>)

  /** A recorded `Error`, kept as its description. */
  datatype Failure = Failure(description: string)

  /** What a data task's completion handler is called with. */
  datatype Delivery = Delivery(data: Option<Bytes>, response: Option<Response>, error: Option<Failure>)

  /** `URLRequest(url:)`: method GET, no header fields, no body. */
  function DefaultRequest(url: Url): (r: Request)
    ensures r.url == Some(url) && r.httpMethod == Some("GET")
    ensures r.headerFields.None? && r.httpBody.None?
  {
    Request(Some(url), Some("GET"), None, None)
  }

  /** `es` lists every entry of `m` exactly once, in some order. */
  ghost predicate Enumerates(es: seq<(string, string)>, m: HeaderFields) {
    && |es| == |m|
    && (forall i :: 0 <= i < |es| ==> es[i].0 in m && m[es[i].0] == es[i].1)
    && (forall i, j :: 0 <= i < j < |es| ==> es[i].0 != es[j].0)
  }

  /**
   The entries of a header dictionary in its iteration order. Foundation leaves that order
   unspecified, so this is one fixed but arbitrary enumeration; `EnumerationsArePermutations`
   shows that any other enumeration differs from it only in order.
   */
  ghost function Entries(m: HeaderFields): (es: seq<(string, string)>)
    ensures Enumerates(es, m)
    decreases |m|
  {
    if |m| == 0 then []
    else
      var k :| k in m;
      var rest := m - {k};
      assert rest.Keys == m.Keys - {k};
      assert |rest| == |m| - 1;
      Entries(rest) + [(k, m[k])]
  }

  /** Every name of the dictionary is listed by an enumeration of it. */
  lemma EnumerationCovers(es: seq<(string, string)>, m: HeaderFields, k: string)
    requires Enumerates(es, m) && k in m
    ensures exists i :: 0 <= i < |es| && es[i] == (k, m[k])
  {
    var names := set i | 0 <= i < |es| :: es[i].0;
    assert names <= m.Keys;
    if k !in names {
      assert names <= m.Keys - {k};
      NamesCardinality(es);
      assert |m.Keys - {k}| == |m| - 1;
      SubsetCardinality(names, m.Keys - {k});
      assert false;
    }
    var i :| 0 <= i < |es| && es[i].0 == k;
  }

  /** Distinct names in a list of `n` entries form a set of `n` names. */
  lemma {:induction false} NamesCardinality(es: seq<(string, string)>)
    requires forall i, j :: 0 <= i < j < |es| ==> es[i].0 != es[j].0
    ensures |set i | 0 <= i < |es| :: es[i].0| == |es|
  {
    if |es| > 0 {
      var init := es[..|es| - 1];
      NamesCardinality(init);
      var s := set i | 0 <= i < |init| :: init[i].0;
      var t := set i | 0 <= i < |es| :: es[i].0;
      assert t == s + {es[|es| - 1].0};
      assert es[|es| - 1].0 !in s;
    }
  }

  lemma SubsetCardinality<T>(a: set<T>, b: set<T>)
    requires a <= b
    ensures |a| <= |b|
  {
    assert b == a + (b - a);
  }

  /** In a list with distinct names every entry occurs at most once. */
  lemma {:induction false} DistinctMultiplicity(es: seq<(string, string)>, x: (string, string))
    requires forall i, j :: 0 <= i < j < |es| ==> es[i].0 != es[j].0
    ensures multiset(es)[x] == if x in es then 1 else 0
  {
    if |es| > 0 {
      assert es == [es[0]] + es[1..];
      DistinctMultiplicity(es[1..], x);
      if x == es[0] {
        assert x !in es[1..];
      }
    }
  }

  /** Any two enumerations of one dictionary hold the same entries. */
  lemma EnumerationsArePermutations(es1: seq<(string, string)>, es2: seq<(string, string)>, m: HeaderFields)
    requires Enumerates(es1, m) && Enumerates(es2, m)
    ensures multiset(es1) == multiset(es2)
  {
    forall x ensures multiset(es1)[x] == multiset(es2)[x] {
      DistinctMultiplicity(es1, x);
      DistinctMultiplicity(es2, x);
      if x in es1 {
        EnumerationCovers(es2, m, x.0);
      }
      if x in es2 {
        EnumerationCovers(es1, m, x.0);
      }
    }
  }

  /** A one-entry dictionary enumerates as that entry. */
  lemma EntriesOfSingleton(name: string, value: string)
    ensures Entries(map[name := value]) == [(name, value)]
  {
  }
}
