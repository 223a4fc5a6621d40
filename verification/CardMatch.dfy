/**
  Matching the calls a permission card displays against the calls its spec permits: a greedy loop,
  what its acceptance proves, and when it can miss a matching that exists.
*/
module CardMatch {
  import opened Prelude

  datatype Arg = Arg(i: int, c: string)

  /** A permitted call of a rule, with the contract its rule is about. */
  datatype Permitted = Permitted(target: string, fn: string, args: seq<Arg>)

  datatype Displayed = Displayed(fn: string, values: string, contract: string)

  /** Whether the text between the parentheses states the constraints, one per position. */
  type Fits = (seq<Arg>, string) -> bool

  /** The argument indices, sorted, are 0, 1, 2 and so on. */
  predicate Positional(args: seq<Arg>) {
    forall k :: 0 <= k < |args| ==> k in Indices(args)
  }

  function Indices(args: seq<Arg>): set<int> { set a <- args :: a.i }

  /** That is, they are those numbers, each once, in some order. */
  lemma PositionalExactly(args: seq<Arg>)
    ensures Positional(args) <==> multiset(Numbers(args)) == multiset(Range(|args|))
  {
    var numbers, range := Numbers(args), Range(|args|);
    forall k ensures k in Indices(args) <==> k in multiset(numbers) {
      if k in multiset(numbers) {
        var j :| 0 <= j < |numbers| && numbers[j] == k;
        assert args[j] in args;
      }
      if k in Indices(args) {
        var j :| 0 <= j < |args| && args[j].i == k;
        assert numbers[j] == k;
      }
    }
    forall k | 0 <= k < |args| ensures range[k] == k && k in multiset(range) {}
    if Positional(args) {
      forall k | k in range ensures k in numbers { assert k in Indices(args); }
      SameLengthCover(numbers, range);
    }
  }

  function Numbers(args: seq<Arg>): seq<int> { seq(|args|, k requires 0 <= k < |args| => args[k].i) }

  function Range(n: nat): seq<int> { seq(n, k => k) }

  predicate Shows(fits: Fits, e: Permitted, d: Displayed) {
    d.fn == e.fn && d.contract == e.target && fits(e.args, d.values)
  }

  /** A call is shown by its own name and contract, with values that state its constraints; by nothing less. */
  lemma ShowsExactly(fits: Fits, e: Permitted, d: Displayed)
    ensures Shows(fits, e, d) <==> d == Displayed(e.fn, d.values, e.target) && fits(e.args, d.values)
  {}

  /** The first displayed call that shows `e`, or the length when none does. */
  function FirstShowing(fits: Fits, e: Permitted, displayed: seq<Displayed>): (k: nat)
    ensures k <= |displayed|
    ensures k < |displayed| ==> Shows(fits, e, displayed[k])
    ensures forall j :: 0 <= j < k ==> !Shows(fits, e, displayed[j])
  {
    if displayed == [] || Shows(fits, e, displayed[0]) then 0 else 1 + FirstShowing(fits, e, displayed[1..])
  }

  function Greedy(fits: Fits, expected: seq<Permitted>, remaining: seq<Displayed>): bool {
    if expected == [] then true
    else
      var k := FirstShowing(fits, expected[0], remaining);
      Positional(expected[0].args) && k < |remaining| && Greedy(fits, expected[1..], Without(remaining, k))
  }

  method PermittedCallsMatch(fits: Fits, expected: seq<Permitted>, displayed: seq<Displayed>) returns (ok: bool)
    ensures ok == (|displayed| == |expected| && Greedy(fits, expected, displayed))
  {
    if |displayed| != |expected| { return false; }
    var remaining, n := displayed, 0;
    while n < |expected|
      invariant 0 <= n <= |expected|
      invariant Greedy(fits, expected[n..], remaining) == Greedy(fits, expected, displayed)
    {
      assert expected[n..][0] == expected[n] && expected[n..][1..] == expected[n + 1..];
      if !Positional(expected[n].args) { return false; }
      var matched := FirstShowing(fits, expected[n], remaining);
      if matched == |remaining| { return false; }
      remaining := Without(remaining, matched);
      n := n + 1;
    }
    ok := true;
  }

  /** `order` lists the displayed calls so that each permitted call is shown by its own one. */
  ghost predicate Matching(fits: Fits, expected: seq<Permitted>, displayed: seq<Displayed>, order: seq<Displayed>) {
    && |order| == |expected|
    && multiset(order) == multiset(displayed)
    && forall k :: 0 <= k < |expected| ==> Shows(fits, expected[k], order[k])
  }

  lemma WithoutLoses<T>(s: seq<T>, k: nat)
    requires k < |s|
    ensures multiset(Without(s, k)) == multiset(s) - multiset{s[k]}
  {
    assert s == s[..k] + [s[k]] + s[k + 1..];
  }

  lemma CountOfFirst<T>(first: T, rest: seq<T>)
    ensures multiset([first] + rest) == multiset{first} + multiset(rest)
  {}

  /** Acceptance proves a one-to-one matching: no displayed call serves twice and none is left over. */
  lemma {:induction false} AcceptanceMatches(fits: Fits, expected: seq<Permitted>, displayed: seq<Displayed>)
    returns (order: seq<Displayed>)
    requires |displayed| == |expected| && Greedy(fits, expected, displayed)
    ensures Matching(fits, expected, displayed, order)
    ensures AllPositional(expected)
  {
    if expected == [] {
      order := [];
    } else {
      var k := FirstShowing(fits, expected[0], displayed);
      var rest := AcceptanceMatches(fits, expected[1..], Without(displayed, k));
      order := [displayed[k]] + rest;
      MatchingGrows(fits, expected, displayed, k, rest);
    }
  }

  lemma MatchingGrows(fits: Fits, expected: seq<Permitted>, displayed: seq<Displayed>, k: nat, rest: seq<Displayed>)
    requires expected != [] && k < |displayed| && Shows(fits, expected[0], displayed[k])
    requires Matching(fits, expected[1..], Without(displayed, k), rest)
    ensures Matching(fits, expected, displayed, [displayed[k]] + rest)
  {
    WithoutLoses(displayed, k);
    CountOfFirst(displayed[k], rest);
    forall j | 0 < j < |expected| ensures Shows(fits, expected[j], rest[j - 1]) {
      assert Shows(fits, expected[1..][j - 1], rest[j - 1]);
    }
  }

  /** An earlier call that shares a display with a later one is shown only where the later one is. */
  ghost predicate Nested(fits: Fits, expected: seq<Permitted>) {
    forall j, k :: 0 <= j < k < |expected| ==> Within(fits, expected[j], expected[k])
  }

  ghost predicate Within(fits: Fits, e: Permitted, later: Permitted) {
    forall d, other :: Shows(fits, e, d) && Shows(fits, later, d) && Shows(fits, e, other) ==> Shows(fits, later, other)
  }

  /** Where the matching uses a display that shows the first call, and that its user can swap with it. */
  lemma UserOf(fits: Fits, expected: seq<Permitted>, displayed: seq<Displayed>, order: seq<Displayed>, d: Displayed)
    returns (j: nat)
    requires expected != [] && Nested(fits, expected) && Matching(fits, expected, displayed, order)
    requires d in displayed && Shows(fits, expected[0], d)
    ensures j < |order| && order[j] == d && Shows(fits, expected[j], order[0])
  {
    assert d in multiset(displayed);
    assert d in order;
    j :| 0 <= j < |order| && order[j] == d;
    if j > 0 {
      assert Within(fits, expected[0], expected[j]);
      WithinApplies(fits, expected[0], expected[j], d, order[0]);
    }
  }

  /** Exchange: a matching can be changed so that the first call takes any display that shows it. */
  lemma Exchange(fits: Fits, expected: seq<Permitted>, displayed: seq<Displayed>, order: seq<Displayed>, k: nat, j: nat)
    returns (rest: seq<Displayed>)
    requires expected != [] && Matching(fits, expected, displayed, order)
    requires k < |displayed| && j < |order| && order[j] == displayed[k]
    requires Shows(fits, expected[j], order[0])
    ensures Matching(fits, expected[1..], Without(displayed, k), rest)
  {
    WithoutLoses(displayed, k);
    WithoutLoses(order, j);
    if j == 0 {
      rest := order[1..];
      assert Without(order, 0) == rest;
    } else {
      rest := order[1..][j - 1 := order[0]];
      ExchangeCount(order, j);
      ExchangeShows(fits, expected, order, j);
    }
  }

  lemma WithinApplies(fits: Fits, e: Permitted, later: Permitted, d: Displayed, other: Displayed)
    requires Within(fits, e, later) && Shows(fits, e, d) && Shows(fits, later, d) && Shows(fits, e, other)
    ensures Shows(fits, later, other)
  {}

  lemma ExchangeShows(fits: Fits, expected: seq<Permitted>, order: seq<Displayed>, j: nat)
    requires 0 < j < |order| == |expected|
    requires forall k :: 0 <= k < |expected| ==> Shows(fits, expected[k], order[k])
    requires Shows(fits, expected[j], order[0])
    ensures var rest := order[1..][j - 1 := order[0]];
            forall k :: 0 <= k < |expected[1..]| ==> Shows(fits, expected[1..][k], rest[k])
  {
    var rest := order[1..][j - 1 := order[0]];
    forall k | 0 <= k < |expected[1..]| ensures Shows(fits, expected[1..][k], rest[k]) {
      assert rest[k] == if k == j - 1 then order[0] else order[k + 1];
      assert Shows(fits, expected[k + 1], order[k + 1]);
    }
  }

  lemma ExchangeCount<T>(order: seq<T>, j: nat)
    requires 0 < j < |order|
    ensures multiset(order[1..][j - 1 := order[0]]) == multiset(Without(order, j))
  {
    var middle, last := order[1..j], order[j + 1..];
    assert order[1..][j - 1 := order[0]] == middle + [order[0]] + last;
    assert Without(order, j) == [order[0]] + middle + last;
  }

  /** With nested calls the greedy loop misses nothing: it accepts whenever a matching exists. */
  lemma {:induction false} NestedIsFound(fits: Fits, expected: seq<Permitted>, displayed: seq<Displayed>,
      order: seq<Displayed>)
    requires Nested(fits, expected) && Matching(fits, expected, displayed, order)
    requires AllPositional(expected)
    ensures |displayed| == |expected| && Greedy(fits, expected, displayed)
  {
    assert |displayed| == |multiset(displayed)| == |multiset(order)| == |order|;
    if expected != [] {
      assert order[0] in multiset(displayed);
      var at :| 0 <= at < |displayed| && displayed[at] == order[0];
      var k := FirstShowing(fits, expected[0], displayed);
      assert k <= at;
      var j := UserOf(fits, expected, displayed, order, displayed[k]);
      var rest := Exchange(fits, expected, displayed, order, k, j);
      assert forall e <- expected[1..] :: e in expected;
      NestedTail(fits, expected);
      NestedIsFound(fits, expected[1..], Without(displayed, k), rest);
    }
  }

  lemma NestedTail(fits: Fits, expected: seq<Permitted>)
    requires expected != [] && Nested(fits, expected)
    ensures Nested(fits, expected[1..])
  {
    forall j, k | 0 <= j < k < |expected[1..]| ensures Within(fits, expected[1..][j], expected[1..][k]) {
      assert Within(fits, expected[j + 1], expected[k + 1]);
    }
  }

  // ---------- The condition is exact ----------

  /** How many of the permitted calls `d` shows. */
  function Users(fits: Fits, expected: seq<Permitted>, d: Displayed): nat {
    if expected == [] then 0
    else (if Shows(fits, expected[0], d) then 1 else 0) + Users(fits, expected[1..], d)
  }

  lemma {:induction false} UsersAppend(fits: Fits, a: seq<Permitted>, b: seq<Permitted>, d: Displayed)
    ensures Users(fits, a + b, d) == Users(fits, a, d) + Users(fits, b, d)
  {
    if a == [] {
      assert a + b == b;
    } else {
      assert (a + b)[1..] == a[1..] + b;
      UsersAppend(fits, a[1..], b, d);
    }
  }

  /** A display cannot occur more often in a matching than there are calls it shows. */
  lemma {:induction false} MatchingCounts(fits: Fits, expected: seq<Permitted>, order: seq<Displayed>, d: Displayed)
    requires |order| == |expected| && forall k :: 0 <= k < |expected| ==> Shows(fits, expected[k], order[k])
    ensures multiset(order)[d] <= Users(fits, expected, d)
  {
    if expected != [] {
      forall k | 0 <= k < |expected[1..]| ensures Shows(fits, expected[1..][k], order[1..][k]) {
        assert Shows(fits, expected[k + 1], order[k + 1]);
      }
      MatchingCounts(fits, expected[1..], order[1..], d);
      assert order == [order[0]] + order[1..];
      CountOfFirst(order[0], order[1..]);
    }
  }

  predicate AllPositional(expected: seq<Permitted>) { forall e <- expected :: Positional(e.args) }

  /** Every call can be displayed at all. */
  ghost predicate Displayable(fits: Fits, expected: seq<Permitted>) {
    forall e <- expected :: exists d :: Shows(fits, e, d)
  }

  /** A display for each call, and `only` wherever it will do. */
  ghost function Fill(fits: Fits, expected: seq<Permitted>, only: Displayed): (filled: seq<Displayed>)
    requires Displayable(fits, expected)
    ensures |filled| == |expected|
    ensures forall k :: 0 <= k < |expected| ==> Shows(fits, expected[k], filled[k])
    ensures multiset(filled)[only] == Users(fits, expected, only)
  {
    if expected == [] then []
    else
      assert expected[0] in expected;
      var first := if Shows(fits, expected[0], only) then only else var d :| Shows(fits, expected[0], d); d;
      assert forall e <- expected[1..] :: e in expected;
      var rest := Fill(fits, expected[1..], only);
      CountOfFirst(first, rest);
      [first] + rest
  }

  /** Displays listed first, each for its own call, are taken in that order. */
  lemma {:induction false} GreedyTakesPrefix(
    fits: Fits, before: seq<Permitted>, own: seq<Displayed>, expected: seq<Permitted>, displayed: seq<Displayed>)
    requires |own| == |before| && forall k :: 0 <= k < |before| ==> Shows(fits, before[k], own[k])
    requires AllPositional(before)
    ensures Greedy(fits, before + expected, own + displayed) == Greedy(fits, expected, displayed)
  {
    if before == [] {
      assert before + expected == expected && own + displayed == displayed;
    } else {
      assert (before + expected)[0] == before[0] && (before + expected)[1..] == before[1..] + expected;
      assert (own + displayed)[0] == own[0];
      assert Shows(fits, before[0], own[0]);
      assert FirstShowing(fits, before[0], own + displayed) == 0;
      assert Without(own + displayed, 0) == own[1..] + displayed;
      forall k | 0 <= k < |before[1..]| ensures Shows(fits, before[1..][k], own[1..][k]) {
        assert Shows(fits, before[k + 1], own[k + 1]);
      }
      assert forall e <- before[1..] :: e in before;
      GreedyTakesPrefix(fits, before[1..], own[1..], expected, displayed);
    }
  }

  lemma NoMatchingNoGreedy(fits: Fits, expected: seq<Permitted>, displayed: seq<Displayed>, d: Displayed)
    requires |displayed| == |expected| && multiset(displayed)[d] > Users(fits, expected, d)
    ensures !Greedy(fits, expected, displayed)
  {
    if Greedy(fits, expected, displayed) {
      var order := AcceptanceMatches(fits, expected, displayed);
      MatchingCounts(fits, expected, order, d);
    }
  }

  /** Greedy on the displays left after `shared` is gone: `only` then occurs once too often. */
  lemma GreedyRunsOut(
    fits: Fits, e: Permitted, middle: seq<Permitted>, later: Permitted, last: seq<Permitted>,
    shared: Displayed, only: Displayed)
    requires Shows(fits, e, shared) && !Shows(fits, later, only)
    requires Displayable(fits, middle) && Displayable(fits, last)
    ensures !Greedy(fits, [e] + (middle + [later] + last),
                    [shared] + ([only] + Fill(fits, middle, only) + Fill(fits, last, only)))
  {
    var tail := middle + [later] + last;
    var left := [only] + Fill(fits, middle, only) + Fill(fits, last, only);
    UsersAppend(fits, middle + [later], last, only);
    UsersAppend(fits, middle, [later], only);
    assert Users(fits, [later], only) == 0 by { assert [later][1..] == []; }
    assert multiset(left) == multiset{only} + multiset(Fill(fits, middle, only)) + multiset(Fill(fits, last, only));
    NoMatchingNoGreedy(fits, tail, left, only);
    assert ([e] + tail)[1..] == tail && ([e] + tail)[0] == e;
    assert FirstShowing(fits, e, [shared] + left) == 0;
    assert Without([shared] + left, 0) == left;
  }

  ghost predicate AllShown(fits: Fits, expected: seq<Permitted>, order: seq<Displayed>) {
    |order| == |expected| && forall k :: 0 <= k < |expected| ==> Shows(fits, expected[k], order[k])
  }

  lemma AllShownAppend(fits: Fits, a: seq<Permitted>, b: seq<Permitted>, x: seq<Displayed>, y: seq<Displayed>)
    requires AllShown(fits, a, x) && AllShown(fits, b, y)
    ensures AllShown(fits, a + b, x + y)
  {}

  /** The matching that the loop misses: `only` to the earlier call, `shared` to the later one. */
  lemma SwappedMatches(
    fits: Fits, before: seq<Permitted>, e: Permitted, middle: seq<Permitted>, later: Permitted, last: seq<Permitted>,
    p: seq<Displayed>, q: seq<Displayed>, r: seq<Displayed>, shared: Displayed, only: Displayed)
    requires Shows(fits, later, shared) && Shows(fits, e, only)
    requires AllShown(fits, before, p) && AllShown(fits, middle, q) && AllShown(fits, last, r)
    ensures Matching(fits, before + ([e] + (middle + [later] + last)), p + ([shared] + ([only] + q + r)),
                     p + ([only] + (q + [shared] + r)))
  {
    AllShownAppend(fits, middle, [later], q, [shared]);
    AllShownAppend(fits, middle + [later], last, q + [shared], r);
    AllShownAppend(fits, [e], middle + [later] + last, [only], q + [shared] + r);
    AllShownAppend(fits, before, [e] + (middle + [later] + last), p, [only] + (q + [shared] + r));
    var all := multiset(p) + multiset{only} + multiset(q) + multiset{shared} + multiset(r);
    assert multiset(p + ([only] + (q + [shared] + r))) == all;
    assert multiset(p + ([shared] + ([only] + q + r))) == all;
  }

  lemma SplitAtTwo(s: seq<Permitted>, j: nat, k: nat)
    requires j < k < |s|
    ensures s == s[..j] + ([s[j]] + (s[j + 1..k] + [s[k]] + s[k + 1..]))
  {
    assert s[j + 1..] == s[j + 1..k] + [s[k]] + s[k + 1..];
    assert s == s[..j] + [s[j]] + s[j + 1..];
  }

  lemma PartsDisplayable(fits: Fits, expected: seq<Permitted>, part: seq<Permitted>)
    requires Displayable(fits, expected) && forall e <- part :: e in expected
    ensures Displayable(fits, part)
  {}

  /** Two calls of a list that are not nested have a card that matches and is refused. */
  lemma NotNestedMisses(fits: Fits, expected: seq<Permitted>, j: nat, k: nat, shared: Displayed, only: Displayed)
    returns (displayed: seq<Displayed>, order: seq<Displayed>)
    requires j < k < |expected| && Displayable(fits, expected) && AllPositional(expected)
    requires Shows(fits, expected[j], shared) && Shows(fits, expected[k], shared)
    requires Shows(fits, expected[j], only) && !Shows(fits, expected[k], only)
    ensures Matching(fits, expected, displayed, order) && !Greedy(fits, expected, displayed)
  {
    var before, middle, last := expected[..j], expected[j + 1..k], expected[k + 1..];
    PartsDisplayable(fits, expected, before);
    PartsDisplayable(fits, expected, middle);
    PartsDisplayable(fits, expected, last);
    var tail := [expected[j]] + (middle + [expected[k]] + last);
    SplitAtTwo(expected, j, k);
    var p, q, r := Fill(fits, before, only), Fill(fits, middle, only), Fill(fits, last, only);
    displayed := p + ([shared] + ([only] + q + r));
    order := p + ([only] + (q + [shared] + r));
    SwappedMatches(fits, before, expected[j], middle, expected[k], last, p, q, r, shared, only);
    GreedyRunsOut(fits, expected[j], middle, expected[k], last, shared, only);
    GreedyTakesPrefix(fits, before, p, tail, [shared] + ([only] + q + r));
  }

  /** The loop finds every matching of every card. */
  ghost predicate MissesNothing(fits: Fits, expected: seq<Permitted>) {
    forall displayed, order :: Matching(fits, expected, displayed, order) ==> Greedy(fits, expected, displayed)
  }

  lemma MatchingDisplays(fits: Fits, expected: seq<Permitted>, displayed: seq<Displayed>, order: seq<Displayed>)
    requires Matching(fits, expected, displayed, order)
    ensures Displayable(fits, expected)
  {
    forall e <- expected ensures exists d :: Shows(fits, e, d) {
      var k :| 0 <= k < |expected| && expected[k] == e;
      assert Shows(fits, expected[k], order[k]);
    }
  }

  /**
    The exact condition: the greedy loop misses no matching of any card if and only if some call
    cannot be displayed, so that there is none, or every call numbers its arguments from 0 and the
    calls are nested in their order.
  */
  lemma NestedIsExact(fits: Fits, expected: seq<Permitted>)
    ensures MissesNothing(fits, expected) <==>
            !Displayable(fits, expected) || (AllPositional(expected) && Nested(fits, expected))
  {
    forall displayed, order | Matching(fits, expected, displayed, order) ensures Displayable(fits, expected) {
      MatchingDisplays(fits, expected, displayed, order);
    }
    if !Displayable(fits, expected) {
    } else if !AllPositional(expected) {
      var order := Fill(fits, expected, Displayed("", "", ""));
      assert Matching(fits, expected, order, order);
      if Greedy(fits, expected, order) { var again := AcceptanceMatches(fits, expected, order); }
    } else if Nested(fits, expected) {
      forall displayed, order | Matching(fits, expected, displayed, order) ensures Greedy(fits, expected, displayed) {
        NestedIsFound(fits, expected, displayed, order);
      }
    } else {
      var j, k :| 0 <= j < k < |expected| && !Within(fits, expected[j], expected[k]);
      var shared, only :| Shows(fits, expected[j], shared) && Shows(fits, expected[k], shared)
                          && Shows(fits, expected[j], only) && !Shows(fits, expected[k], only);
      var displayed, order := NotNestedMisses(fits, expected, j, k, shared, only);
      assert Matching(fits, expected, displayed, order);
    }
  }

  // ---------- The pair that is not nested ----------

  /** How an address constraint is displayed: the account itself may also be written `SELF`. */
  function AddressFits(account: string): Fits {
    (args: seq<Arg>, values: string) => |args| == 1 && (values == args[0].c || (args[0].c == SELF && values == account))
  }

  const SELF := "SELF"

  function AddressCall(target: string, fn: string, constraint: string): Permitted {
    Permitted(target, fn, [Arg(0, constraint)])
  }

  /**
    A call constrained to `SELF` before the same call constrained to the account's own address: the
    card that displays the address first and `SELF` second states both, and is refused.
  */
  lemma SelfBeforeAccountMisses(account: string, target: string, fn: string)
    requires account != SELF
    ensures var expected := [AddressCall(target, fn, SELF), AddressCall(target, fn, account)];
            var displayed := [Displayed(fn, account, target), Displayed(fn, SELF, target)];
            && Matching(AddressFits(account), expected, displayed, [displayed[1], displayed[0]])
            && !Greedy(AddressFits(account), expected, displayed)
            && Greedy(AddressFits(account), [expected[1], expected[0]], displayed)
  {
    var fits := AddressFits(account);
    var own, named := AddressCall(target, fn, SELF), AddressCall(target, fn, account);
    var first, second := Displayed(fn, account, target), Displayed(fn, SELF, target);
    assert Shows(fits, own, first) && Shows(fits, own, second);
    assert Shows(fits, named, first) && !Shows(fits, named, second);
    assert Positional(own.args) && Positional(named.args) by {
      assert own.args[0] in own.args && named.args[0] in named.args;
    }
    GreedyOfTwo(fits, own, named, first, second);
    GreedyOfTwo(fits, named, own, first, second);
    var swapped: seq<Displayed>, shown: seq<Displayed> := [second, first], [first, second];
    assert multiset(swapped) == multiset(shown);
  }

  lemma GreedyOfOne(fits: Fits, e: Permitted, x: Displayed)
    ensures Greedy(fits, [e], [x]) <==> Positional(e.args) && Shows(fits, e, x)
  {
    assert [e][1..] == [] && [x][1..] == [];
    assert FirstShowing(fits, e, [x]) == if Shows(fits, e, x) then 0 else 1;
  }

  /** The loop on two calls and two displays, spelled out. */
  lemma GreedyOfTwo(fits: Fits, a: Permitted, b: Permitted, x: Displayed, y: Displayed)
    requires Shows(fits, a, x)
    ensures Greedy(fits, [a, b], [x, y]) <==> Positional(a.args) && Positional(b.args) && Shows(fits, b, y)
  {
    assert [a, b][1..] == [b] && Without([x, y], 0) == [y];
    assert FirstShowing(fits, a, [x, y]) == 0;
    GreedyOfOne(fits, b, y);
  }
}
