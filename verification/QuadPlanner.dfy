/**
  The mixed quad planner (runtime/stasis_mixed_quad_planner.h): how many draw submissions and page
  changes a stream of sprites and solids costs. A sprite names its atlas page; a solid may be drawn
  with any page, so the planner gives it the active page or, at the start, a page it looks ahead for.
*/
module QuadPlanner {
  import opened Division

  const SOLID := -1

  predicate Stream(domains: seq<int>) {
    forall i :: 0 <= i < |domains| ==> domains[i] >= SOLID
  }

  // ---------- What any choice of pages costs ----------

  // Every sprite keeps its page and every solid gets some page, in the same order.
  predicate Assigns(pages: seq<int>, domains: seq<int>) {
    && |pages| == |domains|
    && forall i :: 0 <= i < |pages| ==> pages[i] >= 0 && (domains[i] >= 0 ==> pages[i] == domains[i])
  }

  function Transitions(pages: seq<int>): nat {
    if |pages| < 2 then 0
    else Transitions(pages[..|pages| - 1]) + if pages[|pages| - 1] != pages[|pages| - 2] then 1 else 0
  }

  // The page of the last sprite, or -1.
  function LastPage(domains: seq<int>): int {
    if domains == [] then -1
    else if domains[|domains| - 1] >= 0 then domains[|domains| - 1]
    else LastPage(domains[..|domains| - 1])
  }

  // How often two neighbouring sprites, solids disregarded, are on different pages.
  function Changes(domains: seq<int>): nat {
    if domains == [] then 0
    else
      var init, last := domains[..|domains| - 1], domains[|domains| - 1];
      Changes(init) + if last >= 0 && LastPage(init) >= 0 && LastPage(init) != last then 1 else 0
  }

  /** No choice of pages for the solids costs less than the sprites alone. */
  lemma {:induction false} NoAssignmentIsCheaper(pages: seq<int>, domains: seq<int>)
    requires Assigns(pages, domains)
    ensures Transitions(pages) >= Changes(domains)
    ensures domains != [] && LastPage(domains) >= 0 && pages[|pages| - 1] != LastPage(domains) ==>
              Transitions(pages) > Changes(domains)
  {
    if domains != [] {
      var n := |domains| - 1;
      assert Assigns(pages[..n], domains[..n]);
      NoAssignmentIsCheaper(pages[..n], domains[..n]);
      if n > 0 { assert pages[..n][n - 1] == pages[n - 1]; }
    }
  }

  // ---------- What the planner chooses ----------

  // The page of the first sprite, or -1.
  function FirstPage(domains: seq<int>): int {
    if domains == [] then -1 else if domains[0] >= 0 then domains[0] else FirstPage(domains[1..])
  }

  // Solids before the first sprite get the page `lead`, any other solid the page before it.
  function Filled(domains: seq<int>, lead: int): (pages: seq<int>)
    ensures |pages| == |domains|
  {
    if domains == [] then []
    else Filled(domains[..|domains| - 1], lead) + [if LastPage(domains) >= 0 then LastPage(domains) else lead]
  }

  lemma {:induction false} FilledAssigns(domains: seq<int>, lead: int)
    requires Stream(domains) && lead >= 0
    ensures Assigns(Filled(domains, lead), domains)
  {
    if domains != [] { FilledAssigns(domains[..|domains| - 1], lead); }
  }

  lemma {:induction false} FilledPrefix(domains: seq<int>, lead: int, n: nat)
    requires n <= |domains|
    ensures Filled(domains, lead)[..n] == Filled(domains[..n], lead)
  {
    if n == |domains| {
      assert domains[..n] == domains;
    } else {
      var init := domains[..|domains| - 1];
      FilledPrefix(init, lead, n);
      assert init[..n] == domains[..n];
    }
  }

  lemma {:induction false} FirstPageSplit(domains: seq<int>)
    requires Stream(domains) && domains != []
    ensures var n := |domains| - 1;
            FirstPage(domains) == if FirstPage(domains[..n]) >= 0 then FirstPage(domains[..n]) else domains[n]
  {
    var n := |domains| - 1;
    if domains[0] < 0 && n > 0 {
      FirstPageSplit(domains[1..]);
      assert domains[1..][..n - 1] == domains[..n][1..];
    }
  }

  /** The choice costs what the sprites alone cost, and one more exactly when the stream starts with
      a solid and the page given to the leading solids is not the first sprite's. */
  lemma {:induction false} FilledCost(domains: seq<int>, lead: int)
    requires Stream(domains) && lead >= 0
    ensures LastPage(domains) >= 0 <==> FirstPage(domains) >= 0
    ensures Transitions(Filled(domains, lead)) ==
            Changes(domains) +
            if domains != [] && domains[0] < 0 && FirstPage(domains) >= 0 && FirstPage(domains) != lead then 1 else 0
  {
    hide Transitions, Filled, FirstPage;
    FilledEnd(domains, lead);
    FirstPageStarts(domains);
    if domains != [] {
      var init := domains[..|domains| - 1];
      FilledCost(init, lead);
      FirstPageSplit(domains);
      FirstPageStarts(init);
      FilledEnd(init, lead);
    }
  }

  lemma FirstPageStarts(domains: seq<int>)
    ensures domains == [] ==> FirstPage(domains) == -1
    ensures domains != [] && domains[0] >= 0 ==> FirstPage(domains) == domains[0]
    ensures |domains| == 1 && domains[0] < 0 ==> FirstPage(domains) == -1
  {}

  lemma FilledEnd(domains: seq<int>, lead: int)
    ensures domains == [] ==> Transitions(Filled(domains, lead)) == 0
    ensures domains != [] ==>
              var init := Filled(domains[..|domains| - 1], lead);
              var page := if LastPage(domains) >= 0 then LastPage(domains) else lead;
              && Filled(domains, lead)[|domains| - 1] == page
              && Transitions(Filled(domains, lead)) ==
                 Transitions(init) + if init != [] && init[|init| - 1] != page then 1 else 0
  {
    hide LastPage;
    if domains != [] {
      var init := Filled(domains[..|domains| - 1], lead);
      assert Filled(domains, lead)[..|init|] == init;
    }
  }

  // The first sprite among the next `capacity` entries after the first, or the fallback.
  function Lead(domains: seq<int>, capacity: nat, fallback: int): int {
    var near := if |domains| > capacity + 1 then domains[..capacity + 1] else domains;
    if FirstPage(near) >= 0 then FirstPage(near) else fallback
  }

  ghost predicate Minimal(pages: seq<int>, domains: seq<int>) {
    forall other | Assigns(other, domains) :: Transitions(pages) <= Transitions(other)
  }

  lemma {:induction false} FirstPageOfPrefix(domains: seq<int>, n: nat)
    requires n <= |domains| && FirstPage(domains[..n]) >= 0
    ensures FirstPage(domains) == FirstPage(domains[..n])
  {
    if n > 0 && domains[0] < 0 {
      assert domains[1..][..n - 1] == domains[..n][1..];
      FirstPageOfPrefix(domains[1..], n - 1);
    }
  }

  /** The planner's page changes are the fewest possible exactly when there is no sprite, a sprite
      lies within `capacity` positions of the start, or the first sprite is on the fallback page. */
  lemma PlanIsMinimalIff(domains: seq<int>, capacity: nat, fallback: nat)
    requires Stream(domains)
    ensures Minimal(Filled(domains, Lead(domains, capacity, fallback)), domains) <==>
            || FirstPage(domains) < 0
            || |domains| <= capacity + 1 || FirstPage(domains[..capacity + 1]) >= 0
            || FirstPage(domains) == fallback
  {
    hide Transitions, Filled, Changes, Assigns;
    var lead := Lead(domains, capacity, fallback);
    var first := FirstPage(domains);
    FilledCost(domains, lead);
    LeadIs(domains, capacity, fallback);
    forall other | Assigns(other, domains) ensures Transitions(other) >= Changes(domains) {
      NoAssignmentIsCheaper(other, domains);
    }
    if first >= 0 {
      FilledAssigns(domains, first);
      FilledCost(domains, first);
    }
  }

  lemma LeadIs(domains: seq<int>, capacity: nat, fallback: nat)
    requires Stream(domains)
    ensures var far := |domains| > capacity + 1 && FirstPage(domains[..capacity + 1]) < 0;
            && (far ==> Lead(domains, capacity, fallback) == fallback && domains[0] < 0)
            && (!far && FirstPage(domains) >= 0 ==> Lead(domains, capacity, fallback) == FirstPage(domains))
            && Lead(domains, capacity, fallback) >= 0
  {
    if |domains| > capacity + 1 {
      assert domains[..capacity + 1][0] == domains[0];
      if FirstPage(domains[..capacity + 1]) >= 0 { FirstPageOfPrefix(domains, capacity + 1); }
    }
  }

  lemma FirstPageCons(first: int, rest: seq<int>)
    ensures FirstPage([first] + rest) == if first >= 0 then first else FirstPage(rest)
  {
    assert ([first] + rest)[1..] == rest;
  }

  /** A concrete stream on which the look-ahead stops short and costs an extra page change. */
  lemma LookAheadMayCost()
    ensures Lead([SOLID, SOLID, 5], 1, 0) == 0
    ensures !Minimal(Filled([SOLID, SOLID, 5], Lead([SOLID, SOLID, 5], 1, 0)), [SOLID, SOLID, 5])
  {
    hide FirstPage, Minimal, Filled;
    var domains := [SOLID, SOLID, 5];
    assert domains[..2] == [SOLID, SOLID];
    FirstPageCons(SOLID, [SOLID]);
    FirstPageCons(SOLID, [SOLID, 5]);
    FirstPageCons(SOLID, [5]);
    FirstPageStarts([5]);
    FirstPageStarts([SOLID]);
    assert [SOLID] + [SOLID] == [SOLID, SOLID] && [SOLID] + [SOLID, 5] == domains && [SOLID] + [5] == [SOLID, 5];
    PlanIsMinimalIff(domains, 1, 0);
  }

  // ---------- Submissions ----------

  // The lengths of the maximal same-page runs, in order.
  function Runs(pages: seq<int>): (runs: seq<nat>)
    ensures |runs| == 0 <==> pages == []
    ensures forall i :: 0 <= i < |runs| ==> runs[i] > 0
  {
    if pages == [] then []
    else
      var n := |pages| - 1;
      var before := Runs(pages[..n]);
      if n > 0 && pages[n] == pages[n - 1] then before[..|before| - 1] + [before[|before| - 1] + 1]
      else before + [1]
  }

  function Batches(length: nat, capacity: nat): nat
    requires capacity > 0
  {
    (length + capacity - 1) / capacity
  }

  function Total(runs: seq<nat>, capacity: nat): nat
    requires capacity > 0
  {
    if runs == [] then 0 else Total(runs[..|runs| - 1], capacity) + Batches(runs[|runs| - 1], capacity)
  }

  function Submissions(pages: seq<int>, capacity: nat): nat
    requires capacity > 0
  {
    Total(Runs(pages), capacity)
  }

  // What the counters stand for after some quads: full batches of the open run are already counted.
  predicate Counted(pages: seq<int>, capacity: nat, submissions: nat, used: nat)
    requires capacity > 0
  {
    if pages == [] then submissions == 0 && used == 0
    else
      var runs := Runs(pages);
      var open := runs[|runs| - 1];
      used == open % capacity && submissions == Total(runs[..|runs| - 1], capacity) + open / capacity
  }

  lemma OneMore(length: nat, capacity: nat)
    requires capacity > 0
    ensures length % capacity + 1 < capacity ==>
              (length + 1) % capacity == length % capacity + 1 && (length + 1) / capacity == length / capacity
    ensures length % capacity + 1 == capacity ==>
              (length + 1) % capacity == 0 && (length + 1) / capacity == length / capacity + 1
    ensures Batches(length, capacity) == length / capacity + if length % capacity > 0 then 1 else 0
  {
    var q, r := length / capacity, length % capacity;
    assert length == q * capacity + r;
    if r + 1 < capacity { Quotient(length + 1, capacity, q, r + 1); }
    if r + 1 == capacity { Quotient(length + 1, capacity, q + 1, 0); }
    if r == 0 {
      Quotient(length + capacity - 1, capacity, q, capacity - 1);
    } else {
      Quotient(length + capacity - 1, capacity, q + 1, r - 1);
    }
  }

  lemma CountedAll(pages: seq<int>, capacity: nat, submissions: nat, used: nat)
    requires capacity > 0 && Counted(pages, capacity, submissions, used)
    ensures Submissions(pages, capacity) == submissions + if used > 0 then 1 else 0
  {
    if pages != [] {
      var runs := Runs(pages);
      OneMore(runs[|runs| - 1], capacity);
    }
  }

  // One more quad, on the page of the open run or on another one.
  lemma CountOne(pages: seq<int>, page: int, capacity: nat, submissions: nat, used: nat)
    requires capacity > 0 && Counted(pages, capacity, submissions, used)
    ensures var changed := pages != [] && pages[|pages| - 1] != page;
            var s := submissions + if changed && used > 0 then 1 else 0;
            var u := if changed then 1 else used + 1;
            u <= capacity &&
            Counted(pages + [page], capacity, s + if u == capacity then 1 else 0, if u == capacity then 0 else u)
  {
    hide Runs, Total, Batches;
    RunsAppend(pages, page);
    OneMore(0, capacity);
    NoRuns(capacity);
    if pages != [] {
      var runs := Runs(pages);
      OneMore(runs[|runs| - 1], capacity);
      TotalSplit(runs, capacity);
    }
  }

  lemma NoRuns(capacity: nat)
    requires capacity > 0
    ensures Total([], capacity) == 0
  {}

  lemma TotalSplit(runs: seq<nat>, capacity: nat)
    requires capacity > 0 && runs != []
    ensures Total(runs, capacity) == Total(runs[..|runs| - 1], capacity) + Batches(runs[|runs| - 1], capacity)
  {}

  lemma RunsAppend(pages: seq<int>, page: int)
    ensures var runs, all := Runs(pages), Runs(pages + [page]);
            && (pages == [] ==> all == [1] && all[..|all| - 1] == [])
            && (pages != [] && pages[|pages| - 1] != page ==> all[..|all| - 1] == runs && all[|all| - 1] == 1)
            && (pages != [] && pages[|pages| - 1] == page ==>
                  |all| == |runs| && all[..|all| - 1] == runs[..|runs| - 1] && all[|all| - 1] == runs[|runs| - 1] + 1)
  {
    assert (pages + [page])[..|pages|] == pages;
  }

  lemma CountNext(pages: seq<int>, i: nat, capacity: nat, submissions: nat, used: nat)
    requires capacity > 0 && i < |pages| && Counted(pages[..i], capacity, submissions, used)
    ensures var changed := i > 0 && pages[i - 1] != pages[i];
            var s := submissions + if changed && used > 0 then 1 else 0;
            var u := if changed then 1 else used + 1;
            && Transitions(pages[..i + 1]) == Transitions(pages[..i]) + (if changed then 1 else 0)
            && u <= capacity
            && Counted(pages[..i + 1], capacity, s + if u == capacity then 1 else 0, if u == capacity then 0 else u)
  {
    hide Counted;
    CountOne(pages[..i], pages[i], capacity, submissions, used);
    assert pages[..i + 1] == pages[..i] + [pages[i]];
    assert pages[..i + 1][..i] == pages[..i];
  }

  lemma NothingYet(pages: seq<int>, capacity: nat)
    requires capacity > 0
    ensures Counted(pages[..0], capacity, 0, 0) && Transitions(pages[..0]) == 0
  {}

  // ---------- The loop ----------

  // The page of the next sprite within reach of the first entry.
  method LookAhead(domains: seq<int>, capacity: nat) returns (page: int)
    requires Stream(domains) && domains != [] && domains[0] == SOLID
    ensures page == -1 || page >= 0
    ensures page == FirstPage(if |domains| > capacity + 1 then domains[..capacity + 1] else domains)
  {
    var next := 1;
    ghost var near := if |domains| > capacity + 1 then domains[..capacity + 1] else domains;
    while next < |domains| && next <= capacity
      invariant 1 <= next <= |near| && FirstPage(near) == FirstPage(near[next..])
    {
      assert near[next..][0] == near[next] == domains[next];
      if domains[next] >= 0 { return domains[next]; }
      assert near[next..][1..] == near[next + 1..];
      next := next + 1;
    }
    return -1;
  }

  /** stasis_mixed_quad_plan_domains. */
  method PlanDomains(domains: seq<int>, capacity: int, fallback: int) returns (submissions: nat, transitions: nat)
    requires Stream(domains)
    ensures domains == [] || capacity <= 0 || fallback < 0 ==> submissions == 0 && transitions == 0
    ensures domains != [] && capacity > 0 && fallback >= 0 ==>
              var pages := Filled(domains, Lead(domains, capacity, fallback));
              transitions == Transitions(pages) && submissions == Submissions(pages, capacity)
  {
    hide Counted, Transitions, Filled, Submissions;
    submissions, transitions := 0, 0;
    if domains == [] || capacity <= 0 || fallback < 0 { return; }
    ghost var lead := Lead(domains, capacity, fallback);
    ghost var pages := Filled(domains, lead);
    var active, used := -1, 0;
    NothingYet(pages, capacity);
    for i := 0 to |domains|
      invariant active == if i == 0 then -1 else pages[i - 1]
      invariant i > 0 ==> active >= 0
      invariant transitions == Transitions(pages[..i]) && Counted(pages[..i], capacity, submissions, used)
    {
      var domain := domains[i];
      PageStep(domains, lead, i);
      if domain == SOLID {
        domain := active;
        if domain < 0 {
          domain := LookAhead(domains, capacity);
        }
        if domain < 0 { domain := fallback; }
      }
      assert domain == pages[i];
      CountNext(pages, i, capacity, submissions, used);
      if active >= 0 && domain != active {
        if used > 0 { submissions := submissions + 1; }
        transitions := transitions + 1;
        used := 0;
      }
      active := domain;
      used := used + 1;
      if used == capacity {
        submissions := submissions + 1;
        used := 0;
      }
    }
    assert pages[..|domains|] == pages;
    CountedAll(pages, capacity, submissions, used);
    if used > 0 { submissions := submissions + 1; }
  }

  lemma PageStep(domains: seq<int>, lead: int, i: nat)
    requires Stream(domains) && i < |domains| && lead >= 0
    ensures Filled(domains, lead)[i] >= 0
    ensures domains[i] >= 0 ==> Filled(domains, lead)[i] == domains[i]
    ensures domains[i] < 0 ==> Filled(domains, lead)[i] == if i == 0 then lead else Filled(domains, lead)[i - 1]
  {
    FilledAssigns(domains, lead);
    FilledPrefix(domains, lead, i + 1);
    FilledPrefix(domains, lead, i);
    assert Filled(domains, lead)[i] == Filled(domains[..i + 1], lead)[i];
    if i > 0 { assert Filled(domains, lead)[i - 1] == Filled(domains[..i], lead)[i - 1]; }
    assert domains[..i + 1][..i] == domains[..i];
  }
}
