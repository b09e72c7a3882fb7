/**
 * How the paper detail page turns its route parameter into a lookup: a query
 * that looks like a DOI gets the "DOI:" prefix the paper service expects, a
 * 40-character lower-case hex string is a paper id fetched directly, and any
 * other non-empty query is sent to the search.
 */
module QueryClassification {

  /** What the page asks the paper service for. */
  datatype PaperLookup =
    | Disabled                 // empty query: both queries are switched off
    | ById(id: string)         // direct lookup of a paper id
    | BySearch(query: string)  // search, returning the first match

  predicate IsDigit(c: char) {
    '0' <= c <= '9'
  }

  predicate IsLowerHex(c: char) {
    '0' <= c <= '9' || 'a' <= c <= 'f'
  }

  /** `n` characters of `q` from `start` on are all decimal digits. */
  ghost predicate DigitRun(q: string, start: nat, n: nat) {
    start + n <= |q| && forall i :: start <= i < start + n ==> IsDigit(q[i])
  }

  /** The regular expression `^10\.\d{4,}`, read as its definition: "10." and then at least four digits. */
  ghost predicate MatchesDoiPattern(q: string) {
    |q| >= 3 && q[..3] == "10." && exists n: nat :: 4 <= n && DigitRun(q, 3, n)
  }

  /** The test the page applies: "10." followed by four digits (more may follow). */
  predicate LooksLikeDoi(q: string)
    ensures LooksLikeDoi(q) ==> |q| >= 7 && q[2] == '.'
  {
    |q| >= 7 && q[..3] == "10." && forall i :: 3 <= i < 7 ==> IsDigit(q[i])
  }

  /** Checking four digits decides the unbounded pattern, in both directions. */
  lemma LooksLikeDoiIsPattern(q: string)
    ensures LooksLikeDoi(q) <==> MatchesDoiPattern(q)
  {
    if LooksLikeDoi(q) {
      assert DigitRun(q, 3, 4);
    }
    if MatchesDoiPattern(q) {
      var n: nat :| 4 <= n && DigitRun(q, 3, n);
      assert forall i :: 3 <= i < 7 ==> IsDigit(q[i]);
    }
  }

  /** The query after the DOI rewrite. */
  function NormalizeQuery(q: string): (r: string)
    ensures LooksLikeDoi(q) ==> r == "DOI:" + q
    ensures !LooksLikeDoi(q) ==> r == q
  {
    if LooksLikeDoi(q) then "DOI:" + q else q
  }

  /** `query.length === 40 && /^[a-f0-9]+$/.test(query)` */
  predicate IsPaperId(q: string)
    ensures IsPaperId(q) ==> q != "" && '.' !in q && '/' !in q && ':' !in q
  {
    |q| == 40 && forall i :: 0 <= i < |q| ==> IsLowerHex(q[i])
  }

  /** A rewritten DOI query starts with 'D', which is no hex digit. */
  lemma DoiQueryIsNeverPaperId(q: string)
    requires LooksLikeDoi(q)
    ensures !IsPaperId(NormalizeQuery(q))
  {
    assert NormalizeQuery(q)[0] == 'D';
  }

  /** A paper id contains no '.', so it is never rewritten. */
  lemma PaperIdIsNotRewritten(q: string)
    requires IsPaperId(q)
    ensures NormalizeQuery(q) == q
  {
    assert IsLowerHex(q[..3][2]);
  }

  lemma RewriteAndIdDisjoint(q: string)
    ensures LooksLikeDoi(q) ==> !IsPaperId(NormalizeQuery(q))
    ensures IsPaperId(q) ==> NormalizeQuery(q) == q
  {
    if LooksLikeDoi(q) {
      DoiQueryIsNeverPaperId(q);
    }
    if IsPaperId(q) {
      PaperIdIsNotRewritten(q);
    }
  }

  /** Rewriting twice is rewriting once: "DOI:10..." no longer looks like a DOI. */
  lemma NormalizeIdempotent(q: string)
    ensures NormalizeQuery(NormalizeQuery(q)) == NormalizeQuery(q)
  {
    if LooksLikeDoi(q) {
      assert NormalizeQuery(q)[..3] == "DOI";
    }
  }

  /** The route every paper page lives under. */
  const PaperRoute: string := "/paper/"

  /**
   * The `:query` parameter of `path` matched against `/paper/:query`: the one
   * non-empty path segment after the prefix, or "" when the path does not match.
   */
  function RouteQuery(path: string): (param: string)
    ensures param != "" ==> path == PaperRoute + param && '/' !in param
    ensures forall q :: q != "" && '/' !in q && path == PaperRoute + q ==> param == q
  {
    if |path| > |PaperRoute| && path[..|PaperRoute|] == PaperRoute && '/' !in path[|PaperRoute|..]
    then path[|PaperRoute|..]
    else ""
  }

  /**
   * The lookup for a route parameter, already URI-decoded ("" when the route
   * has none): rewrite, classify, and switch both queries off for "".
   */
  function Lookup(param: string): (r: PaperLookup)
    ensures r == Disabled <==> param == ""
    ensures r.ById? <==> IsPaperId(param)
    ensures r.ById? ==> r.id == param
    ensures r.BySearch? ==> r.query == NormalizeQuery(param) && param != ""
    ensures LooksLikeDoi(param) ==> r == BySearch("DOI:" + param)
  {
    RewriteAndIdDisjoint(param);
    var query := NormalizeQuery(param);
    if query == "" then Disabled
    else if IsPaperId(query) then ById(query)
    else BySearch(query)
  }
}
