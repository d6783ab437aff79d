/**
 * The company search box: a fixed list of companies filtered by a
 * case-insensitive prefix of their names as the user types.
 */
module CompanySearch {
  import opened JsString
  import opened Subsequences

  /** One entry of the company list. */
  datatype Company = Company(id: int, name: string, logo: string)

  /** `company.name.toLowerCase().startsWith(input.toLowerCase())`. */
  predicate Matches(input: string, c: Company) {
    ToLowerCase(input) <= ToLowerCase(c.name)
  }

  /** `companies.filter(...)`: the matching companies, in list order. */
  function FilterByPrefix(companies: seq<Company>, input: string): seq<Company>
    decreases |companies|
  {
    if companies == [] then []
    else
      var init, c := companies[..|companies| - 1], companies[|companies| - 1];
      FilterByPrefix(init, input) + (if Matches(input, c) then [c] else [])
  }

  /** The results `handleInputChange` shows: the filter for a non-empty input, nothing otherwise. */
  function SearchResults(companies: seq<Company>, input: string): seq<Company> {
    if |input| > 0 then FilterByPrefix(companies, input) else []
  }

  /** The positions of the matching companies, in increasing order. */
  function MatchIndices(companies: seq<Company>, input: string): seq<nat>
    decreases |companies|
  {
    if companies == [] then []
    else
      var last := |companies| - 1;
      MatchIndices(companies[..last], input) + (if Matches(input, companies[last]) then [last] else [])
  }

  /** Exactly the positions of matching companies are listed. */
  lemma {:induction false} MatchIndicesExact(companies: seq<Company>, input: string)
    ensures forall i: nat :: i in MatchIndices(companies, input) <==> i < |companies| && Matches(input, companies[i])
    decreases |companies|
  {
    if companies != [] {
      MatchIndicesExact(companies[..|companies| - 1], input);
    }
  }

  /**
   * The filter is the list's subsequence at the matching positions: order
   * is preserved and nothing that matches is left out.
   */
  lemma {:induction false} FilterIsOrderedSubsequence(companies: seq<Company>, input: string)
    ensures IsSubsequenceAt(FilterByPrefix(companies, input), companies, MatchIndices(companies, input))
    decreases |companies|
  {
    if companies != [] {
      var init, c := companies[..|companies| - 1], companies[|companies| - 1];
      FilterIsOrderedSubsequence(init, input);
      assert companies == init + [c];
      if Matches(input, c) {
        ExtendKeep(FilterByPrefix(init, input), init, MatchIndices(init, input), c);
      } else {
        ExtendSkip(FilterByPrefix(init, input), init, MatchIndices(init, input), c);
      }
    }
  }

  /** A company is among the filter's results exactly when it is listed and matches. */
  lemma {:induction false} FilterMembership(companies: seq<Company>, input: string, c: Company)
    ensures c in FilterByPrefix(companies, input) <==> c in companies && Matches(input, c)
    decreases |companies|
  {
    if companies != [] {
      var init := companies[..|companies| - 1];
      FilterMembership(init, input, c);
      assert companies == init + [companies[|companies| - 1]];
    }
  }

  /** Inputs that differ only in ASCII case give the same results. */
  lemma {:induction false} CaseInsensitive(companies: seq<Company>, a: string, b: string)
    requires |a| == |b| && forall i :: 0 <= i < |a| ==> LowerChar(a[i]) == LowerChar(b[i])
    ensures SearchResults(companies, a) == SearchResults(companies, b)
    decreases |companies|
  {
    assert ToLowerCase(a) == ToLowerCase(b);
    if companies != [] {
      CaseInsensitive(companies[..|companies| - 1], a, b);
    }
  }

  /**
   * Every name starts with the empty string, so without the length guard an
   * empty input would list every company.
   */
  lemma {:induction false} EmptyInputMatchesAll(companies: seq<Company>)
    ensures FilterByPrefix(companies, "") == companies
    decreases |companies|
  {
    if companies != [] {
      EmptyInputMatchesAll(companies[..|companies| - 1]);
      assert |ToLowerCase("")| == 0;
      assert companies[..|companies| - 1] + [companies[|companies| - 1]] == companies;
    }
  }

  /** The search box's state, over a fixed company list. */
  class QuerySearchInput {
    const companies: seq<Company>
    var query: string
    var results: seq<Company>
    /** Every call to the parent's `handleSearch`, oldest first. */
    var searches: seq<string>

    constructor (companies: seq<Company>)
      ensures this.companies == companies && query == "" && results == [] && searches == []
    {
      this.companies := companies;
      query, results, searches := "", [], [];
    }

    /**
     * `handleInputChange(event)`: the raw value becomes the query; a
     * non-empty value lists the companies whose lower-cased name starts with
     * its lower-cased form, in list order; an empty value lists none.
     */
    method HandleInputChange(inputValue: string)
      modifies this`query, this`results
      ensures query == inputValue && results == SearchResults(companies, inputValue)
      ensures inputValue == "" ==> results == []
      ensures forall c :: c in results <==> |inputValue| > 0 && c in companies && Matches(inputValue, c)
    {
      query := inputValue;
      if |inputValue| > 0 {
        results := FilterByPrefix(companies, inputValue);
        forall c ensures c in results <==> c in companies && Matches(inputValue, c) {
          FilterMembership(companies, inputValue, c);
        }
      } else {
        results := [];
      }
    }

    /** `handleCompanyButtonClick(company)`: query and results reset, the name is reported. */
    method HandleCompanyButtonClick(company: Company)
      modifies this`query, this`results, this`searches
      ensures query == "" && results == [] && searches == old(searches) + [company.name]
    {
      query, results := "", [];
      searches := searches + [company.name];
    }
  }
}
