/**
 `URLRequest.matches(_:options:)`: decides whether two requests are the same for playback.
 Custom predicates are tried first and any one of them saying yes is a match; otherwise every
 selected built-in criterion (URL, HTTP method, header fields, body) must hold.
 */
module Matcher {
  import opened Base
  import opened Text
  import opened Sorting
  import opened Http

  /** One entry of `RequestMatcherOptions`. */
  datatype Criterion =
    | MatchUrl
    | MatchHttpMethod
    | MatchHeaders
    | MatchRequestBody
    | Custom(test: (Request, Request) -> bool)

  type Options = seq<Criterion>

  /** `.strict`, the default options. Its declaration is not part of this model; it is taken to
      select the four built-in criteria. */
  const Strict: Options := [MatchUrl, MatchHttpMethod, MatchHeaders, MatchRequestBody]

  // ---------------------------------------------------------------------------------------------
  // URL

  /** The query-item comparator as written: the tie-break on values can never fire, because
      `a == b` already forces equal values. */
  predicate QueryOrderAsWritten(a: QueryItem, b: QueryItem) {
    Less(a.name, b.name) || (a == b && Less(a.value.GetOr(""), b.value.GetOr("")))
  }

  /** Optional values in order: an absent value first, then present values by `<`. */
  predicate ValueLess(a: Option<string>, b: Option<string>) {
    match (a, b)
    case (None, Some(_)) => true
    case (Some(x), Some(y)) => Less(x, y)
    case _ => false
  }

  /** The query-item order the comparator evidently intends: by name, then by value. */
  predicate QueryOrder(a: QueryItem, b: QueryItem) {
    Less(a.name, b.name) || (a.name == b.name && ValueLess(a.value, b.value))
  }

  /** `components?.queryItems?.sorted(by: lt)` */
  function SortedQueryItems(q: Option<seq<QueryItem>>, lt: (QueryItem, QueryItem) -> bool): Option<seq<QueryItem>> {
    match q
    case None => None
    case Some(items) => Some(Sort(items, lt))
  }

  /** `urlMatches` with a given query-item comparator: both URLs present, equal paths, equal
      sorted query lists. Scheme and host take no part. */
  predicate UrlMatchesWith(a: Request, b: Request, lt: (QueryItem, QueryItem) -> bool) {
    && a.url.Some?
    && b.url.Some?
    && a.url.value.path == b.url.value.path
    && SortedQueryItems(a.url.value.queryItems, lt) == SortedQueryItems(b.url.value.queryItems, lt)
  }

  /** `urlMatches` exactly as written: it needs both URLs and equal paths, and query lists that
      are both present or both absent; a request with a URL matches its own URL. */
  function UrlMatchesAsWritten(a: Request, b: Request): (r: bool)
    ensures r ==> a.url.Some? && b.url.Some? && a.url.value.path == b.url.value.path
    ensures r ==> (a.url.value.queryItems.None? <==> b.url.value.queryItems.None?)
    ensures a.url.Some? && a.url == b.url ==> r
  {
    UrlMatchesWith(a, b, QueryOrderAsWritten)
  }

  /** `urlMatches` with the comparator corrected; the matcher below uses this one. */
  predicate UrlMatches(a: Request, b: Request) {
    UrlMatchesWith(a, b, QueryOrder)
  }

  /** Two optional query lists hold the same items, in any order. */
  ghost predicate SameQueryItems(a: Option<seq<QueryItem>>, b: Option<seq<QueryItem>>) {
    match (a, b)
    case (None, None) => true
    case (Some(x), Some(y)) => multiset(x) == multiset(y)
    case _ => false
  }

  /** No two items of the list share a name. */
  ghost predicate DistinctNames(items: seq<QueryItem>) {
    forall i, j :: 0 <= i < j < |items| ==> items[i].name != items[j].name
  }

  /** The written comparator compares names only. */
  lemma QueryOrderAsWrittenIsByName(a: QueryItem, b: QueryItem)
    ensures QueryOrderAsWritten(a, b) <==> Less(a.name, b.name)
  {
    if a == b && Less(a.value.GetOr(""), b.value.GetOr("")) {
      LessAsymmetric(a.value.GetOr(""), b.value.GetOr(""));
    }
  }

  /** The written comparator is a strict weak order, total on items with distinct names. */
  lemma QueryOrderAsWrittenIsWeak(items: seq<QueryItem>)
    requires DistinctNames(items)
    ensures StrictWeakOrder(QueryOrderAsWritten)
    ensures TotalOn(QueryOrderAsWritten, items)
  {
    LessIsStrictTotal();
    forall a, b ensures QueryOrderAsWritten(a, b) <==> Less(a.name, b.name) {
      QueryOrderAsWrittenIsByName(a, b);
    }
    forall i, j | 0 <= i < |items| && 0 <= j < |items| && items[i] != items[j]
      ensures QueryOrderAsWritten(items[i], items[j]) || QueryOrderAsWritten(items[j], items[i])
    {
      assert items[i].name != items[j].name by {
        if i < j {} else if j < i {}
      }
    }
  }

  /** The corrected comparator is a strict total order on query items. */
  lemma QueryOrderIsStrictTotal()
    ensures StrictTotalOrder(QueryOrder)
  {
    LessIsStrictTotal();
    forall a, b | a != b ensures ValueLess(a, b) || ValueLess(b, a) {}
    forall a, b, c | ValueLess(a, b) && ValueLess(b, c) ensures ValueLess(a, c) {}
    forall a: QueryItem, b: QueryItem | a != b ensures QueryOrder(a, b) || QueryOrder(b, a) {
      if a.name == b.name {
        assert a.value != b.value;
      }
    }
  }

  /**
   With the corrected comparator the URL criterion holds exactly when both URLs are present,
   the paths are equal and the query lists hold the same items: parameter order never matters,
   and repeated names keep all their values.
   */
  lemma UrlMatchesSpec(a: Request, b: Request)
    ensures UrlMatches(a, b) <==>
      && a.url.Some? && b.url.Some?
      && a.url.value.path == b.url.value.path
      && SameQueryItems(a.url.value.queryItems, b.url.value.queryItems)
  {
    if a.url.Some? && b.url.Some? {
      var qa := a.url.value.queryItems;
      var qb := b.url.value.queryItems;
      if qa.Some? && qb.Some? {
        QueryOrderIsStrictTotal();
        StrictTotalIsWeak(QueryOrder, qa.value);
        SortEqualIffPermutation(qa.value, qb.value, QueryOrder);
      }
    }
  }

  /**
   As written, the URL criterion behaves the same way as long as the first request's query
   names are distinct.
   */
  lemma UrlMatchesAsWrittenSpec(a: Request, b: Request)
    requires a.url.Some? && a.url.value.queryItems.Some? ==> DistinctNames(a.url.value.queryItems.value)
    ensures UrlMatchesAsWritten(a, b) <==>
      && a.url.Some? && b.url.Some?
      && a.url.value.path == b.url.value.path
      && SameQueryItems(a.url.value.queryItems, b.url.value.queryItems)
  {
    if a.url.Some? && b.url.Some? {
      var qa := a.url.value.queryItems;
      var qb := b.url.value.queryItems;
      if qa.Some? && qb.Some? {
        QueryOrderAsWrittenIsWeak(qa.value);
        SortEqualIffPermutation(qa.value, qb.value, QueryOrderAsWritten);
      }
    }
  }

  /**
   As written, two parameters with one name are compared in the order they appear:
   `/p?a=1&a=2` does not match `/p?a=2&a=1`, although the corrected criterion matches them.
   */
  lemma UrlMatchesAsWrittenOrderSensitive()
    ensures
      var one := QueryItem("a", Some("1"));
      var two := QueryItem("a", Some("2"));
      var r1 := Request(Some(Url(Some("https"), Some("example.com"), "/p", Some([one, two]))), Some("GET"), None, None);
      var r2 := Request(Some(Url(Some("https"), Some("example.com"), "/p", Some([two, one]))), Some("GET"), None, None);
      !UrlMatchesAsWritten(r1, r2) && UrlMatches(r1, r2)
  {
    var one := QueryItem("a", Some("1"));
    var two := QueryItem("a", Some("2"));
    var r1 := Request(Some(Url(Some("https"), Some("example.com"), "/p", Some([one, two]))), Some("GET"), None, None);
    var r2 := Request(Some(Url(Some("https"), Some("example.com"), "/p", Some([two, one]))), Some("GET"), None, None);
    QueryOrderAsWrittenIsByName(one, two);
    QueryOrderAsWrittenIsByName(two, one);
    assert Sort([two], QueryOrderAsWritten) == [two];
    assert Sort([one, two], QueryOrderAsWritten) == [one, two];
    assert Sort([one], QueryOrderAsWritten) == [one];
    assert Sort([two, one], QueryOrderAsWritten) == [two, one];
    assert multiset([one, two]) == multiset([two, one]);
    UrlMatchesSpec(r1, r2);
  }

  // ---------------------------------------------------------------------------------------------
  // Header fields

  /** `key.lowercased() + value`, or `key + value` without case folding. */
  function FieldString(e: (string, string), foldCase: bool): string {
    (if foldCase then Lower(e.0) else e.0) + e.1
  }

  /** `FieldString` of each entry, in order. */
  function FieldStrings(es: seq<(string, string)>, foldCase: bool): (r: seq<string>)
    ensures |r| == |es|
    ensures forall i :: 0 <= i < |es| ==> r[i] == FieldString(es[i], foldCase)
  {
    if |es| == 0 then []
    else [FieldString(es[0], foldCase)] + FieldStrings(es[1..], foldCase)
  }

  /** `FieldStrings` distributes over concatenation. */
  lemma FieldStringsAppend(x: seq<(string, string)>, y: seq<(string, string)>, foldCase: bool)
    ensures FieldStrings(x + y, foldCase) == FieldStrings(x, foldCase) + FieldStrings(y, foldCase)
  {
  }

  /** Removing the element at `j` removes one copy of it from the multiset. */
  lemma MultisetRemoveAt<T>(s: seq<T>, j: nat)
    requires j < |s|
    ensures multiset(s[..j] + s[j + 1..]) == multiset(s) - multiset{s[j]}
  {
    assert s == s[..j] + [s[j]] + s[j + 1..];
  }

  /** Taking one entry out of the list takes its string out of the strings' multiset. */
  lemma FieldStringsRemoveAt(es: seq<(string, string)>, j: nat, foldCase: bool)
    requires j < |es|
    ensures multiset(FieldStrings(es, foldCase))
         == multiset(FieldStrings(es[..j] + es[j + 1..], foldCase)) + multiset{FieldString(es[j], foldCase)}
  {
    assert es == es[..j] + ([es[j]] + es[j + 1..]);
    FieldStringsAppend(es[..j], [es[j]] + es[j + 1..], foldCase);
    FieldStringsAppend([es[j]], es[j + 1..], foldCase);
    FieldStringsAppend(es[..j], es[j + 1..], foldCase);
  }

  /** Permuting the entries permutes their strings. */
  lemma {:induction false} FieldStringsPermutation(es1: seq<(string, string)>, es2: seq<(string, string)>, foldCase: bool)
    requires multiset(es1) == multiset(es2)
    ensures multiset(FieldStrings(es1, foldCase)) == multiset(FieldStrings(es2, foldCase))
  {
    if |es1| == 0 {
      assert |es2| == |multiset(es2)| == 0;
    } else {
      assert es1[0] in multiset(es2);
      var j :| 0 <= j < |es2| && es2[j] == es1[0];
      var rest2 := es2[..j] + es2[j + 1..];
      MultisetRemoveAt(es2, j);
      MultisetRemoveAt(es1, 0);
      assert es1[..0] + es1[1..] == es1[1..];
      FieldStringsPermutation(es1[1..], rest2, foldCase);
      FieldStringsSameHead(es1, es2, j, foldCase);
    }
  }

  /** Lists whose first and `j`-th entries agree, and whose rests have equal string multisets,
      have equal string multisets. */
  lemma FieldStringsSameHead(es1: seq<(string, string)>, es2: seq<(string, string)>, j: nat, foldCase: bool)
    requires 0 < |es1| && j < |es2| && es2[j] == es1[0]
    requires multiset(FieldStrings(es1[1..], foldCase)) == multiset(FieldStrings(es2[..j] + es2[j + 1..], foldCase))
    ensures multiset(FieldStrings(es1, foldCase)) == multiset(FieldStrings(es2, foldCase))
  {
    FieldStringsRemoveAt(es2, j, foldCase);
    FieldStringsRemoveAt(es1, 0, foldCase);
    assert es1[..0] + es1[1..] == es1[1..];
  }

  /** The header fields mapped to strings and sorted by `<`; absent when the fields are. */
  ghost function SortedFieldStrings(h: Option<HeaderFields>, foldCase: bool): Option<seq<string>> {
    match h
    case None => None
    case Some(m) => Some(Sort(FieldStrings(Entries(m), foldCase), Less))
  }

  /** `headersMatch`: the sorted lists agree, or one side has no fields and the other none or
      an empty list. Equal dictionaries always match, and so do a missing and an empty one. */
  ghost function HeadersMatch(a: Request, b: Request): (r: bool)
    ensures a.headerFields == b.headerFields ==> r
    ensures a.headerFields.None? && b.headerFields == Some(map[]) ==> r
  {
    var sortedA := SortedFieldStrings(a.headerFields, true);
    var sortedB := SortedFieldStrings(b.headerFields, true);
    !(sortedA != sortedB &&
      !(((sortedB.None? || |sortedB.value| == 0) && sortedA.None?) ||
        ((sortedA.None? || |sortedA.value| == 0) && sortedB.None?)))
  }

  /** The multiset of field strings; absent fields count as none. */
  ghost function FieldBag(h: Option<HeaderFields>, foldCase: bool): multiset<string> {
    match h
    case None => multiset{}
    case Some(m) => multiset(FieldStrings(Entries(m), foldCase))
  }

  /** Sorting strings by `<` forgets exactly their order. */
  lemma SortStringsSpec(a: seq<string>, b: seq<string>)
    ensures Sort(a, Less) == Sort(b, Less) <==> multiset(a) == multiset(b)
  {
    LessIsStrictTotal();
    StrictTotalIsWeak(Less, a);
    SortEqualIffPermutation(a, b, Less);
  }

  /** The header criterion holds exactly when both requests yield the same multiset of
      lower-cased-name-plus-value strings, a missing dictionary counting as an empty one. */
  lemma HeadersMatchSpec(a: Request, b: Request)
    ensures HeadersMatch(a, b) <==> FieldBag(a.headerFields, true) == FieldBag(b.headerFields, true)
  {
    match (a.headerFields, b.headerFields)
    case (Some(x), Some(y)) =>
      SortStringsSpec(FieldStrings(Entries(x), true), FieldStrings(Entries(y), true));
    case (None, Some(y)) =>
      var s := FieldStrings(Entries(y), true);
      assert |Sort(s, Less)| == |s| == |multiset(s)|;
    case (Some(x), None) =>
      var s := FieldStrings(Entries(x), true);
      assert |Sort(s, Less)| == |s| == |multiset(s)|;
    case (None, None) =>
  }

  /**
   The header criterion does not depend on the order in which a dictionary is enumerated:
   any enumerations of the two dictionaries give the same verdict.
   */
  lemma HeadersMatchIgnoresEnumeration(a: Request, b: Request, ea: seq<(string, string)>, eb: seq<(string, string)>)
    requires a.headerFields.Some? && b.headerFields.Some?
    requires Enumerates(ea, a.headerFields.value) && Enumerates(eb, b.headerFields.value)
    ensures HeadersMatch(a, b) <==> multiset(FieldStrings(ea, true)) == multiset(FieldStrings(eb, true))
  {
    HeadersMatchSpec(a, b);
    EnumerationsArePermutations(ea, Entries(a.headerFields.value), a.headerFields.value);
    EnumerationsArePermutations(eb, Entries(b.headerFields.value), b.headerFields.value);
    FieldStringsPermutation(ea, Entries(a.headerFields.value), true);
    FieldStringsPermutation(eb, Entries(b.headerFields.value), true);
  }

  /** A missing header dictionary and an empty one are interchangeable. */
  lemma HeadersAbsentEqualsEmpty(a: Request, b: Request)
    requires a.headerFields.None? && b.headerFields == Some(map[])
    ensures HeadersMatch(a, b) && HeadersMatch(b, a)
  {
    HeadersMatchSpec(a, b);
    HeadersMatchSpec(b, a);
  }

  /** Names differing only in case match: `ABC: alphabet` against `abc: alphabet`. */
  lemma HeadersIgnoreNameCase(a: Request, b: Request, nameA: string, nameB: string, value: string)
    requires a.headerFields == Some(map[nameA := value])
    requires b.headerFields == Some(map[nameB := value])
    requires Lower(nameA) == Lower(nameB)
    ensures HeadersMatch(a, b)
  {
    EntriesOfSingleton(nameA, value);
    EntriesOfSingleton(nameB, value);
    HeadersMatchSpec(a, b);
  }

  /** The example from the matcher's tests: `ABC` and `abc` fold to the same name. */
  lemma HeadersIgnoreNameCaseExample(a: Request, b: Request)
    requires a.headerFields == Some(map["ABC" := "alphabet"])
    requires b.headerFields == Some(map["abc" := "alphabet"])
    ensures HeadersMatch(a, b)
  {
    assert Lower("ABC") == "abc";
    HeadersIgnoreNameCase(a, b, "ABC", "abc", "alphabet");
  }

  /**
   One header name with different values does not match. Values added twice arrive joined by
   commas, so `alphabet,алфавит` against `алфавит,alphabet`, or against `alphabet` alone, fails.
   */
  lemma HeadersDifferentValues(a: Request, b: Request, nameA: string, nameB: string, valueA: string, valueB: string)
    requires a.headerFields == Some(map[nameA := valueA])
    requires b.headerFields == Some(map[nameB := valueB])
    requires Lower(nameA) == Lower(nameB) && valueA != valueB
    ensures !HeadersMatch(a, b)
  {
    EntriesOfSingleton(nameA, valueA);
    EntriesOfSingleton(nameB, valueB);
    HeadersMatchSpec(a, b);
    var n := Lower(nameA);
    assert FieldBag(a.headerFields, true) == multiset{n + valueA};
    assert FieldBag(b.headerFields, true) == multiset{n + valueB};
    assert (n + valueA)[|n|..] == valueA && (n + valueB)[|n|..] == valueB;
  }

  /**
   Joining name and value without a delimiter lets different dictionaries collide:
   `ab: c` matches `a: bc`.
   */
  lemma HeadersJoinCollision(a: Request, b: Request)
    requires a.headerFields == Some(map["ab" := "c"])
    requires b.headerFields == Some(map["a" := "bc"])
    ensures HeadersMatch(a, b)
  {
    EntriesOfSingleton("ab", "c");
    EntriesOfSingleton("a", "bc");
    assert Lower("ab") == "ab" && Lower("a") == "a";
    assert FieldStrings([("ab", "c")], true) == [Lower("ab") + "c"];
    assert FieldStrings([("a", "bc")], true) == [Lower("a") + "bc"];
    assert "ab" + "c" == "a" + "bc";
    HeadersMatchSpec(a, b);
  }

  // ---------------------------------------------------------------------------------------------
  // Method, body, and the combination

  /** `requestBodyMatches`. The second disjunct adds nothing: two absent bodies are already
      equal. */
  function BodyMatches(a: Request, b: Request): (r: bool)
    ensures r <==> a.httpBody == b.httpBody
  {
    a.httpBody == b.httpBody || (a.httpBody.None? && b.httpBody.None?)
  }

  /** `httpMethodMatches`: equality of optional methods, so two absent methods match and an
      absent method never matches a present one. */
  function MethodMatches(a: Request, b: Request): (r: bool)
    ensures a.httpMethod.None? && b.httpMethod.None? ==> r
    ensures a.httpMethod.None? != b.httpMethod.None? ==> !r
    ensures a.httpMethod.Some? && b.httpMethod.Some? ==> (r <==> a.httpMethod.value == b.httpMethod.value)
  {
    a.httpMethod == b.httpMethod
  }

  /** One non-custom criterion, as the `switch` evaluates it, with query items sorted by `lt`;
      a custom entry counts as true. */
  ghost predicate CriterionHolds(c: Criterion, a: Request, b: Request, lt: (QueryItem, QueryItem) -> bool) {
    match c
    case MatchHeaders => HeadersMatch(a, b)
    case MatchHttpMethod => MethodMatches(a, b)
    case MatchRequestBody => BodyMatches(a, b)
    case MatchUrl => UrlMatchesWith(a, b, lt)
    case Custom(_) => true
  }

  /** `options.customMatchers.map { match(self, otherRequest) }` */
  function CustomResults(a: Request, b: Request, opts: Options): seq<bool> {
    if |opts| == 0 then []
    else (if opts[0].Custom? then [opts[0].test(a, b)] else []) + CustomResults(a, b, opts[1..])
  }

  /** `options.nonCustomMatchers.map { ... }` */
  ghost function CriterionResults(a: Request, b: Request, opts: Options, lt: (QueryItem, QueryItem) -> bool): seq<bool> {
    if |opts| == 0 then []
    else (if opts[0].Custom? then [] else [CriterionHolds(opts[0], a, b, lt)]) + CriterionResults(a, b, opts[1..], lt)
  }

  /** The body of `matches(_:options:)` with a given query-item comparator. */
  ghost predicate MatchesWith(a: Request, b: Request, opts: Options, lt: (QueryItem, QueryItem) -> bool) {
    if true in CustomResults(a, b, opts) then true
    else !(false in CriterionResults(a, b, opts, lt))
  }

  /** Some custom predicate in the options says yes. */
  ghost predicate SomeCustomAccepts(a: Request, b: Request, opts: Options) {
    exists i :: 0 <= i < |opts| && opts[i].Custom? && opts[i].test(a, b)
  }

  /** Every selected built-in criterion holds. */
  ghost predicate AllCriteriaHold(a: Request, b: Request, opts: Options, lt: (QueryItem, QueryItem) -> bool) {
    forall i :: 0 <= i < |opts| && !opts[i].Custom? ==> CriterionHolds(opts[i], a, b, lt)
  }

  lemma {:induction false} CustomResultsSpec(a: Request, b: Request, opts: Options)
    ensures true in CustomResults(a, b, opts) <==> SomeCustomAccepts(a, b, opts)
  {
    if |opts| > 0 {
      CustomResultsSpec(a, b, opts[1..]);
      if SomeCustomAccepts(a, b, opts[1..]) {
        var i :| 0 <= i < |opts[1..]| && opts[1..][i].Custom? && opts[1..][i].test(a, b);
        assert opts[i + 1] == opts[1..][i];
      }
      if SomeCustomAccepts(a, b, opts) {
        var i :| 0 <= i < |opts| && opts[i].Custom? && opts[i].test(a, b);
        if i > 0 {
          assert opts[1..][i - 1] == opts[i];
        }
      }
    }
  }

  lemma {:induction false} CriterionResultsSpec(a: Request, b: Request, opts: Options, lt: (QueryItem, QueryItem) -> bool)
    ensures !(false in CriterionResults(a, b, opts, lt)) <==> AllCriteriaHold(a, b, opts, lt)
  {
    if |opts| > 0 {
      CriterionResultsSpec(a, b, opts[1..], lt);
      if AllCriteriaHold(a, b, opts, lt) {
        forall i | 0 <= i < |opts[1..]| && !opts[1..][i].Custom?
          ensures CriterionHolds(opts[1..][i], a, b, lt)
        {
          assert opts[1..][i] == opts[i + 1];
        }
      }
      if !(false in CriterionResults(a, b, opts, lt)) {
        forall i | 0 <= i < |opts| && !opts[i].Custom? ensures CriterionHolds(opts[i], a, b, lt) {
          if i > 0 {
            assert opts[1..][i - 1] == opts[i];
          }
        }
      }
    }
  }

  /**
   `a.matches(b, options: opts)`, exactly as written: two requests match when some custom
   predicate accepts them, or failing that, when every selected built-in criterion holds, the
   URL criterion comparing query items by name only.
   */
  ghost function Matches(a: Request, b: Request, opts: Options): (r: bool)
    ensures r <==> SomeCustomAccepts(a, b, opts) || AllCriteriaHold(a, b, opts, QueryOrderAsWritten)
  {
    CustomResultsSpec(a, b, opts);
    CriterionResultsSpec(a, b, opts, QueryOrderAsWritten);
    MatchesWith(a, b, opts, QueryOrderAsWritten)
  }

  /** The matcher with the query comparator corrected to order by name, then by value. */
  ghost function MatchesIntended(a: Request, b: Request, opts: Options): (r: bool)
    ensures r <==> SomeCustomAccepts(a, b, opts) || AllCriteriaHold(a, b, opts, QueryOrder)
  {
    CustomResultsSpec(a, b, opts);
    CriterionResultsSpec(a, b, opts, QueryOrder);
    MatchesWith(a, b, opts, QueryOrder)
  }

  /** A custom predicate that accepts overrides every other criterion. */
  lemma CustomAcceptOverrides(a: Request, b: Request, opts: Options, i: nat)
    requires i < |opts| && opts[i].Custom? && opts[i].test(a, b)
    ensures Matches(a, b, opts)
  {
  }

  /** With no built-in criterion selected, every pair matches, even when each custom predicate
      says no. */
  lemma NoCriteriaMatchesAll(a: Request, b: Request, opts: Options)
    requires forall i :: 0 <= i < |opts| ==> opts[i].Custom?
    ensures Matches(a, b, opts)
  {
  }

  /** The built-in criteria are symmetric, so without custom predicates so is the matcher. */
  lemma MatchesSymmetric(a: Request, b: Request, opts: Options)
    requires forall i :: 0 <= i < |opts| ==> !opts[i].Custom?
    ensures Matches(a, b, opts) <==> Matches(b, a, opts)
  {
    HeadersMatchSpec(a, b);
    HeadersMatchSpec(b, a);
    assert forall i :: 0 <= i < |opts| ==>
      (CriterionHolds(opts[i], a, b, QueryOrderAsWritten) <==> CriterionHolds(opts[i], b, a, QueryOrderAsWritten));
  }

  /** A request with a URL matches itself under any options. */
  lemma MatchesReflexive(a: Request, opts: Options)
    requires a.url.Some?
    ensures Matches(a, a, opts)
  {
    HeadersMatchSpec(a, a);
    assert forall i :: 0 <= i < |opts| ==> CriterionHolds(opts[i], a, a, QueryOrderAsWritten);
  }

  /** Without a URL the URL criterion fails, so a request without one never matches under
      options that select the URL and hold no accepting custom predicate. */
  lemma MissingUrlNeverMatches(a: Request, b: Request, opts: Options)
    requires a.url.None? || b.url.None?
    requires exists i :: 0 <= i < |opts| && opts[i].MatchUrl?
    requires !SomeCustomAccepts(a, b, opts)
    ensures !Matches(a, b, opts)
  {
    var i :| 0 <= i < |opts| && opts[i].MatchUrl?;
    assert !CriterionHolds(opts[i], a, b, QueryOrderAsWritten);
  }

  /** In a list whose names are distinct, an item occurs at most once. */
  lemma {:induction false} DistinctMultiplicity(items: seq<QueryItem>, x: QueryItem)
    requires DistinctNames(items)
    ensures multiset(items)[x] == if x in items then 1 else 0
  {
    if |items| > 0 {
      assert items == [items[0]] + items[1..];
      DistinctMultiplicity(items[1..], x);
      if x == items[0] {
        assert x !in items[1..];
      }
    }
  }

  /** Reordering a list keeps its names distinct. */
  lemma DistinctNamesPermutation(x: seq<QueryItem>, y: seq<QueryItem>)
    requires multiset(x) == multiset(y) && DistinctNames(x)
    ensures DistinctNames(y)
  {
    forall i, j | 0 <= i < j < |y| ensures y[i].name != y[j].name {
      assert y == y[..i] + [y[i]] + y[i + 1..j] + [y[j]] + y[j + 1..];
      assert multiset(y)[y[i]] >= 1 + (if y[j] == y[i] then 1 else 0);
      assert y[i] in multiset(x) && y[j] in multiset(x);
      DistinctMultiplicity(x, y[i]);
      assert y[i] != y[j];
      var p :| 0 <= p < |x| && x[p] == y[i];
      var q :| 0 <= q < |x| && x[q] == y[j];
      assert p < q || q < p;
    }
  }

  /**
   Reordering query items with distinct names changes no match result, whatever the options,
   as long as no custom predicate is involved.
   */
  lemma MatchesIgnoresQueryOrder(a: Request, a': Request, b: Request, opts: Options)
    requires forall i :: 0 <= i < |opts| ==> !opts[i].Custom?
    requires a.url.Some? && a'.url.Some?
    requires a'.url.value.path == a.url.value.path
    requires SameQueryItems(a.url.value.queryItems, a'.url.value.queryItems)
    requires a.url.value.queryItems.Some? ==> DistinctNames(a.url.value.queryItems.value)
    requires a'.httpMethod == a.httpMethod && a'.headerFields == a.headerFields && a'.httpBody == a.httpBody
    ensures Matches(a, b, opts) <==> Matches(a', b, opts)
  {
    if a.url.value.queryItems.Some? {
      DistinctNamesPermutation(a.url.value.queryItems.value, a'.url.value.queryItems.value);
    }
    UrlMatchesAsWrittenSpec(a, b);
    UrlMatchesAsWrittenSpec(a', b);
    assert forall i :: 0 <= i < |opts| ==>
      (CriterionHolds(opts[i], a, b, QueryOrderAsWritten) <==> CriterionHolds(opts[i], a', b, QueryOrderAsWritten));
  }

  /** With the corrected comparator, reordering any query items, repeated names included,
      changes no match result. */
  lemma MatchesIntendedIgnoresQueryOrder(a: Request, a': Request, b: Request, opts: Options)
    requires forall i :: 0 <= i < |opts| ==> !opts[i].Custom?
    requires a.url.Some? && a'.url.Some?
    requires a'.url.value.path == a.url.value.path
    requires SameQueryItems(a.url.value.queryItems, a'.url.value.queryItems)
    requires a'.httpMethod == a.httpMethod && a'.headerFields == a.headerFields && a'.httpBody == a.httpBody
    ensures MatchesIntended(a, b, opts) <==> MatchesIntended(a', b, opts)
  {
    UrlMatchesSpec(a, b);
    UrlMatchesSpec(a', b);
    assert forall i :: 0 <= i < |opts| ==>
      (CriterionHolds(opts[i], a, b, QueryOrder) <==> CriterionHolds(opts[i], a', b, QueryOrder));
  }

  /**
   Under the default options the matcher as written tells `/p?a=1&a=2` and `/p?a=2&a=1`
   apart, while the corrected matcher does not.
   */
  lemma MatchesOrderSensitive()
    ensures
      var one := QueryItem("a", Some("1"));
      var two := QueryItem("a", Some("2"));
      var r1 := Request(Some(Url(Some("https"), Some("example.com"), "/p", Some([one, two]))), Some("GET"), None, None);
      var r2 := Request(Some(Url(Some("https"), Some("example.com"), "/p", Some([two, one]))), Some("GET"), None, None);
      !Matches(r1, r2, Strict) && MatchesIntended(r1, r2, Strict)
  {
    var one := QueryItem("a", Some("1"));
    var two := QueryItem("a", Some("2"));
    var r1 := Request(Some(Url(Some("https"), Some("example.com"), "/p", Some([one, two]))), Some("GET"), None, None);
    var r2 := Request(Some(Url(Some("https"), Some("example.com"), "/p", Some([two, one]))), Some("GET"), None, None);
    UrlMatchesAsWrittenOrderSensitive();
    assert !SomeCustomAccepts(r1, r2, Strict);
    assert !CriterionHolds(Strict[0], r1, r2, QueryOrderAsWritten);
    assert CriterionHolds(Strict[0], r1, r2, QueryOrder);
    assert CriterionHolds(Strict[1], r1, r2, QueryOrder);
    assert CriterionHolds(Strict[2], r1, r2, QueryOrder);
    assert CriterionHolds(Strict[3], r1, r2, QueryOrder);
  }
}
