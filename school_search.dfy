/**
 * The debounced school search box: every non-empty keystroke cancels the
 * pending timer and arms a new one bound to that query; a timer that fires
 * fetches the schools matching its query; the schools that come back are
 * de-duplicated by name before they are shown.
 */
module SchoolSearch {
  import opened Wrappers
  import opened Subsequences

  /** One entry of the universities service's answer. */
  datatype School = School(name: string, country: string, domains: seq<string>)

  /** The names of a list of schools, in order. */
  function Names(s: seq<School>): seq<string> {
    seq(|s|, i requires 0 <= i < |s| => s[i].name)
  }

  // ---------------------------------------------------------------------
  // De-duplication by name
  // ---------------------------------------------------------------------

  /**
   * What the `reduce` over the answer builds: each school in turn is pushed
   * onto the accumulator unless a school of the same name is already there.
   */
  function DedupByName(data: seq<School>): seq<School>
    decreases |data|
  {
    if data == [] then []
    else
      var unique := DedupByName(data[..|data| - 1]);
      var school := data[|data| - 1];
      if school.name in Names(unique) then unique else unique + [school]
  }

  /** No two schools of the list share a name. */
  predicate NamesDistinct(s: seq<School>) {
    forall i, j :: 0 <= i < j < |s| ==> s[i].name != s[j].name
  }

  /** The school at position i is the first of its name. */
  predicate IsFirst(s: seq<School>, i: nat)
    requires i < |s|
  {
    s[i].name !in Names(s[..i])
  }

  /** The positions of the first school of each name, in increasing order. */
  function FirstIndices(s: seq<School>): seq<nat>
    decreases |s|
  {
    if s == [] then []
    else FirstIndices(s[..|s| - 1]) + (if IsFirst(s, |s| - 1) then [|s| - 1] else [])
  }

  /** The de-duplicated list holds exactly the names of the answer. */
  lemma {:induction false} DedupKeepsEveryName(data: seq<School>)
    ensures forall n :: n in Names(DedupByName(data)) <==> n in Names(data)
    decreases |data|
  {
    if data != [] {
      var init, school := data[..|data| - 1], data[|data| - 1];
      DedupKeepsEveryName(init);
      assert Names(data) == Names(init) + [school.name];
      if school.name !in Names(DedupByName(init)) {
        assert Names(DedupByName(init) + [school]) == Names(DedupByName(init)) + [school.name];
      }
    }
  }

  /** The de-duplicated list has no two schools of the same name. */
  lemma {:induction false} DedupDistinct(data: seq<School>)
    ensures NamesDistinct(DedupByName(data))
    decreases |data|
  {
    if data != [] {
      var init, school := data[..|data| - 1], data[|data| - 1];
      DedupDistinct(init);
      var unique := DedupByName(init);
      if school.name !in Names(unique) {
        var r := unique + [school];
        forall i, j | 0 <= i < j < |r| ensures r[i].name != r[j].name {
          if j == |unique| {
            assert r[i].name == Names(unique)[i];
          }
        }
      }
    }
  }

  /** The answer's last school is kept exactly when it is the first of its name. */
  lemma {:induction false} LastKeptIffFirst(data: seq<School>)
    requires data != []
    ensures var init := data[..|data| - 1];
      DedupByName(data) == (if IsFirst(data, |data| - 1) then DedupByName(init) + [data[|data| - 1]]
                            else DedupByName(init))
  {
    var init := data[..|data| - 1];
    DedupKeepsEveryName(init);
    assert data[..|data| - 1] == init;
  }

  /** Exactly the positions of first occurrences are listed. */
  lemma {:induction false} FirstIndicesExact(data: seq<School>)
    ensures forall i: nat :: i in FirstIndices(data) <==> i < |data| && IsFirst(data, i)
    decreases |data|
  {
    if data != [] {
      var init := data[..|data| - 1];
      FirstIndicesExact(init);
      forall i | 0 <= i < |init| ensures IsFirst(data, i) == IsFirst(init, i) {
        assert data[..i] == init[..i];
      }
    }
  }

  /**
   * The de-duplicated list is the answer's subsequence at the first
   * occurrence of each name: order is preserved and a position is picked
   * exactly when no earlier school has its name.
   */
  lemma {:induction false} DedupKeepsFirstOccurrences(data: seq<School>)
    ensures IsSubsequenceAt(DedupByName(data), data, FirstIndices(data))
    decreases |data|
  {
    if data != [] {
      var init := data[..|data| - 1];
      DedupKeepsFirstOccurrences(init);
      LastKeptIffFirst(data);
      if IsFirst(data, |data| - 1) {
        KeepStep(data);
      } else {
        SkipStep(data);
      }
    }
  }

  lemma KeepStep(data: seq<School>)
    requires data != [] && IsFirst(data, |data| - 1)
    requires var init := data[..|data| - 1]; IsSubsequenceAt(DedupByName(init), init, FirstIndices(init))
    requires DedupByName(data) == DedupByName(data[..|data| - 1]) + [data[|data| - 1]]
    ensures IsSubsequenceAt(DedupByName(data), data, FirstIndices(data))
  {
    var init, school := data[..|data| - 1], data[|data| - 1];
    assert data == init + [school];
    assert FirstIndices(data) == FirstIndices(init) + [|init|];
    ExtendKeep(DedupByName(init), init, FirstIndices(init), school);
  }

  lemma SkipStep(data: seq<School>)
    requires data != [] && !IsFirst(data, |data| - 1)
    requires var init := data[..|data| - 1]; IsSubsequenceAt(DedupByName(init), init, FirstIndices(init))
    requires DedupByName(data) == DedupByName(data[..|data| - 1])
    ensures IsSubsequenceAt(DedupByName(data), data, FirstIndices(data))
  {
    var init, school := data[..|data| - 1], data[|data| - 1];
    assert data == init + [school];
    assert FirstIndices(data) == FirstIndices(init);
    ExtendSkip(DedupByName(init), init, FirstIndices(init), school);
  }

  /** A list whose names are already distinct is left as it is. */
  lemma {:induction false} DedupOfDistinct(data: seq<School>)
    requires NamesDistinct(data)
    ensures DedupByName(data) == data
    decreases |data|
  {
    if data != [] {
      var init, school := data[..|data| - 1], data[|data| - 1];
      DistinctInit(data);
      DedupOfDistinct(init);
      assert init + [school] == data;
    }
  }

  /** Dropping the last school keeps the names distinct, and the last name does not occur before it. */
  lemma DistinctInit(data: seq<School>)
    requires NamesDistinct(data) && data != []
    ensures NamesDistinct(data[..|data| - 1])
    ensures data[|data| - 1].name !in Names(data[..|data| - 1])
  {
    var init := data[..|data| - 1];
    forall i | 0 <= i < |init| ensures Names(init)[i] != data[|data| - 1].name {
      assert init[i] == data[i];
    }
  }

  /** De-duplicating twice is de-duplicating once. */
  lemma DedupIdempotent(data: seq<School>)
    ensures DedupByName(DedupByName(data)) == DedupByName(data)
  {
    DedupDistinct(data);
    DedupOfDistinct(DedupByName(data));
  }

  /**
   * `unique.find((item) => item.name === school.name)`: the first school of
   * the list with that name, or nothing.
   */
  method FindByName(unique: seq<School>, name: string) returns (r: Option<School>)
    ensures r.None? <==> name !in Names(unique)
    ensures r.Some? ==> exists i :: 0 <= i < |unique| && unique[i] == r.value && name !in Names(unique[..i])
    ensures r.Some? ==> r.value.name == name
  {
    var i := 0;
    while i < |unique|
      invariant 0 <= i <= |unique|
      invariant name !in Names(unique[..i])
    {
      if unique[i].name == name {
        assert Names(unique)[i] == name;
        return Some(unique[i]);
      }
      assert Names(unique[..i + 1]) == Names(unique[..i]) + [unique[i].name];
      i := i + 1;
    }
    assert unique[..i] == unique;
    return None;
  }

  /** The `reduce` itself: walks the answer, pushing each school whose name is not yet held. */
  method UniqueByName(data: seq<School>) returns (unique: seq<School>)
    ensures unique == DedupByName(data)
  {
    unique := [];
    var i := 0;
    while i < |data|
      invariant 0 <= i <= |data|
      invariant unique == DedupByName(data[..i])
    {
      var school := data[i];
      var found := FindByName(unique, school.name);
      assert data[..i + 1][..i] == data[..i];
      if found.None? {
        unique := unique + [school];
      }
      i := i + 1;
    }
    assert data[..i] == data;
  }

  // ---------------------------------------------------------------------
  // The component
  // ---------------------------------------------------------------------

  /**
   * The search box's state. Timers are the browser's positive timer ids,
   * with 0 for `null`; `live` maps each timer that has been armed and has
   * neither fired nor been cleared to the query it was armed with.
   */
  class SchoolQuerySearch {
    var query: string
    var results: seq<School>
    var timerId: nat
    var live: map<nat, string>
    var nextTimer: nat
    /** Every query a request was sent for, oldest first. */
    var requests: seq<string>
    /** Every call to the parent's `handleSearch`, oldest first. */
    var searches: seq<string>

    /**
     * At most one timer is live, and it is the one the state remembers; no
     * live timer carries the empty query; no request was sent for "".
     */
    predicate Valid()
      reads this
    {
      && live.Keys <= {timerId} && (timerId == 0 ==> live == map[])
      && (forall id :: id in live ==> live[id] != "")
      && 0 < nextTimer && timerId < nextTimer
      && (forall k :: 0 <= k < |requests| ==> requests[k] != "")
    }

    constructor ()
      ensures Valid()
      ensures query == "" && results == [] && timerId == 0 && live == map[]
      ensures requests == [] && searches == []
    {
      query, results := "", [];
      timerId, live, nextTimer := 0, map[], 1;
      requests, searches := [], [];
    }

    /**
     * `handleInputChange(event)`: clears the pending timer; an empty value
     * empties query and results and reports "" at once; any other value
     * arms a new timer bound to it and becomes the query.
     */
    method HandleInputChange(newQuery: string)
      requires Valid()
      modifies this`query, this`results, this`timerId, this`live, this`nextTimer, this`searches
      ensures Valid()
      ensures requests == old(requests)
      ensures newQuery == "" ==> (query == "" && results == [] && live == map[]
        && searches == old(searches) + [""] && timerId == old(timerId) && nextTimer == old(nextTimer))
      ensures newQuery != "" ==> (query == newQuery && results == old(results) && searches == old(searches)
        && timerId == old(nextTimer) && live == map[timerId := newQuery] && nextTimer == old(nextTimer) + 1)
    {
      if timerId != 0 {
        live := live - {timerId};
      }
      assert live == map[];
      if newQuery == "" {
        query, results := "", [];
        searches := searches + [""];
        return;
      }
      var id := nextTimer;
      nextTimer := nextTimer + 1;
      live := live[id := newQuery];
      query := newQuery;
      timerId := id;
    }

    /** `fetchSchools(query)` up to the request: "" sends nothing; any other query is requested. */
    method FetchSchools(q: string)
      modifies this`requests
      ensures q == "" ==> requests == old(requests)
      ensures q != "" ==> requests == old(requests) + [q]
    {
      if q == "" {
        return;
      }
      requests := requests + [q];
    }

    /** The live timer `id` goes off: it is no longer live, and it fetches with its own query. */
    method Fire(id: nat)
      requires Valid() && id in live
      modifies this`live, this`requests
      ensures Valid()
      ensures live == map[] && requests == old(requests) + [old(live[id])]
    {
      var q := live[id];
      live := live - {id};
      FetchSchools(q);
    }

    /**
     * An answer to request k arrives: a successful list replaces the
     * results, de-duplicated by name; a failure is only logged. The answer
     * to any request replaces the results, even an old one.
     */
    method Receive(k: nat, answer: Result<seq<School>, string>)
      requires Valid() && k < |requests|
      modifies this`results
      ensures Valid()
      ensures answer.Ok? ==> results == DedupByName(answer.value) && NamesDistinct(results)
      ensures answer.Err? ==> results == old(results)
    {
      if answer.Ok? {
        results := UniqueByName(answer.value);
        DedupDistinct(answer.value);
      }
    }

    /** `handleSchoolButtonClick(school)`: the name becomes the query, results clear, the name is reported. */
    method HandleSchoolButtonClick(school: School)
      requires Valid()
      modifies this`query, this`results, this`searches
      ensures Valid()
      ensures query == school.name && results == [] && searches == old(searches) + [school.name]
    {
      query, results := school.name, [];
      searches := searches + [school.name];
    }

    /** The `value`-sync effect: a truthy (non-empty) value becomes the query, anything else gives "". */
    method SyncValue(value: Option<string>)
      requires Valid()
      modifies this`query
      ensures Valid()
      ensures value.Some? && value.value != "" ==> query == value.value
      ensures value.None? || value.value == "" ==> query == ""
    {
      query := if value.Some? && value.value != "" then value.value else "";
    }

    /** The cleanup effect on unmount: a remembered timer is cleared, so no timer stays live. */
    method Unmount()
      requires Valid()
      modifies this`live
      ensures Valid() && live == map[]
    {
      if timerId != 0 {
        live := live - {timerId};
      }
    }
  }

  /**
   * Typing "a", "ab", "abc" before the delay and then letting the timer go
   * off sends exactly one request, for "abc".
   */
  method TypingSendsOneRequest() returns (sent: seq<string>)
    ensures sent == ["abc"]
  {
    var box := new SchoolQuerySearch();
    box.HandleInputChange("a");
    box.HandleInputChange("ab");
    box.HandleInputChange("abc");
    box.Fire(box.timerId);
    sent := box.requests;
  }

  /**
   * Typing "a" and clearing the box before the delay sends no request and
   * reports "" to the parent once.
   */
  method ClearingCancelsTheSearch() returns (sent: seq<string>, reported: seq<string>)
    ensures sent == [] && reported == [""]
  {
    var box := new SchoolQuerySearch();
    box.HandleInputChange("a");
    box.HandleInputChange("");
    sent, reported := box.requests, box.searches;
  }
}
