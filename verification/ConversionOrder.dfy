/**
 The order in which rules are converted (`conversion_order`, pipelines/convert.py). Rules are identities; a rule refers
 to others, and a reference that is not resolved to a rule constrains nothing.
 */
module ConversionOrder {

  import opened Results

  type Rule = nat

  type References = map<Rule, seq<Option<Rule>>>

  datatype ConversionError = CannotOrder

  /** The rules a rule refers to; a rule that lists no references has none. */
  function Refs(refs: References, r: Rule): (s: set<Rule>)
    ensures forall x :: x in s <==> r in refs && Some(x) in refs[r]
  {
    if r in refs then set x | x in refs[r] && x.Some? :: x.value else {}
  }

  predicate Ready(refs: References, placed: set<Rule>, r: Rule) {
    Refs(refs, r) <= placed
  }

  // ---------------------------------------------------------------------------------------------------------
  // Orders and rounds
  // ---------------------------------------------------------------------------------------------------------

  /** All the rules, as often as they are listed, and every reference of a rule strictly before it. */
  ghost predicate ValidOrder(refs: References, rules: seq<Rule>, order: seq<Rule>) {
    multiset(order) == multiset(rules) && ReferencesPrecede(refs, order)
  }

  ghost predicate ReferencesPrecede(refs: References, order: seq<Rule>) {
    forall i :: 0 <= i < |order| ==> Refs(refs, order[i]) <= Members(order[..i])
                                     && Refs(refs, order[i]) !! Members(order[i..])
  }

  function Members(rules: seq<Rule>): set<Rule> {
    set r | r in rules
  }

  /** What the first `k` rounds place: a listed rule all of whose references were placed a round before. */
  function Placed(refs: References, rules: seq<Rule>, k: nat): set<Rule> {
    if k == 0 then {} else set r | r in rules && Ready(refs, Placed(refs, rules, k - 1), r)
  }

  function Among(rules: seq<Rule>, s: set<Rule>): seq<Rule> {
    if rules == [] then []
    else
      var n := |rules| - 1;
      var before := Among(rules[..n], s);
      if rules[n] in s then before + [rules[n]] else before
  }

  /** The rules of round `k`, in listing order. */
  function Round(refs: References, rules: seq<Rule>, k: nat): seq<Rule>
    requires k > 0
  {
    Among(rules, Placed(refs, rules, k) - Placed(refs, rules, k - 1))
  }

  function Rounds(refs: References, rules: seq<Rule>, k: nat): seq<Rule> {
    if k == 0 then [] else Rounds(refs, rules, k - 1) + Round(refs, rules, k)
  }

  lemma {:induction false} PlacedGrows(refs: References, rules: seq<Rule>, k: nat)
    ensures Placed(refs, rules, k) <= Placed(refs, rules, k + 1)
  {
    if k > 0 {
      PlacedGrows(refs, rules, k - 1);
    }
  }

  /** Once a round places nothing new, no later round does. */
  lemma {:induction false} PlacedStays(refs: References, rules: seq<Rule>, k: nat, m: nat)
    requires k <= m && Placed(refs, rules, k + 1) == Placed(refs, rules, k)
    ensures Placed(refs, rules, m) == Placed(refs, rules, k)
    decreases m
  {
    if k < m {
      PlacedStays(refs, rules, k, m - 1);
    }
  }

  // ---------------------------------------------------------------------------------------------------------
  // The algorithm
  // ---------------------------------------------------------------------------------------------------------

  /** Python's `list.remove`: the first occurrence goes. */
  function RemoveFirst(s: seq<Rule>, x: Rule): seq<Rule> {
    if s == [] then [] else if s[0] == x then s[1..] else [s[0]] + RemoveFirst(s[1..], x)
  }

  lemma {:induction false} RemovedFirst(s: seq<Rule>, x: Rule, keep: set<Rule>)
    requires x in s && x !in keep
    ensures multiset(RemoveFirst(s, x)) == multiset(s) - multiset{x}
    ensures Among(RemoveFirst(s, x), keep) == Among(s, keep)
    ensures |RemoveFirst(s, x)| == |s| - 1
  {
    assert s == [s[0]] + s[1..];
    AmongConcat([s[0]], s[1..], keep);
    if s[0] != x {
      RemovedFirst(s[1..], x, keep);
      AmongConcat([s[0]], RemoveFirst(s[1..], x), keep);
    } else {
      assert Among([x], keep) == [];
    }
  }

  lemma {:induction false} AmongConcat(a: seq<Rule>, b: seq<Rule>, s: set<Rule>)
    ensures Among(a + b, s) == Among(a, s) + Among(b, s)
  {
    if b == [] {
      assert a + b == a;
    } else {
      assert (a + b)[..|a + b| - 1] == a + b[..|b| - 1];
      AmongConcat(a, b[..|b| - 1], s);
    }
  }

  lemma {:induction false} AmongMembers(rules: seq<Rule>, s: set<Rule>)
    ensures forall r :: r in Among(rules, s) <==> r in rules && r in s
    ensures forall r :: r in s ==> multiset(Among(rules, s))[r] == multiset(rules)[r]
    ensures forall r :: r !in s ==> multiset(Among(rules, s))[r] == 0
  {
    if rules != [] {
      var n := |rules| - 1;
      AmongMembers(rules[..n], s);
      assert rules == rules[..n] + [rules[n]];
    }
  }

  lemma {:induction false} AmongAll(rules: seq<Rule>, s: set<Rule>)
    requires forall r :: r in rules ==> r in s
    ensures Among(rules, s) == rules
  {
    if rules != [] {
      AmongAll(rules[..|rules| - 1], s);
    }
  }

  lemma {:induction false} AmongAmong(rules: seq<Rule>, s: set<Rule>, t: set<Rule>)
    ensures Among(Among(rules, s), t) == Among(rules, s * t)
  {
    if rules != [] {
      var n := |rules| - 1;
      AmongAmong(rules[..n], s, t);
      var before := Among(rules[..n], s);
      AmongConcat(before, [rules[n]], t);
      assert Among([rules[n]], t) == if rules[n] in t then [rules[n]] else [];
    }
  }

  /** The pending rules whose references are all placed. */
  function SelectReady(refs: References, placed: set<Rule>, pending: seq<Rule>): seq<Rule> {
    if pending == [] then []
    else
      var n := |pending| - 1;
      var before := SelectReady(refs, placed, pending[..n]);
      if Ready(refs, placed, pending[n]) then before + [pending[n]] else before
  }

  lemma {:induction false} SelectReadyAmong(refs: References, placed: set<Rule>, pending: seq<Rule>, s: set<Rule>)
    requires forall r :: r in pending ==> (Ready(refs, placed, r) <==> r in s)
    ensures SelectReady(refs, placed, pending) == Among(pending, s)
  {
    if pending != [] {
      SelectReadyAmong(refs, placed, pending[..|pending| - 1], s);
    }
  }

  // What is selected in a round is the round, and what was placed before it with it is what is placed after it.
  lemma NextRound(refs: References, rules: seq<Rule>, k: nat, pending: seq<Rule>, ready: seq<Rule>)
    requires pending == Among(rules, Members(rules) - Placed(refs, rules, k))
    requires ready == SelectReady(refs, Placed(refs, rules, k), pending)
    ensures ready == Round(refs, rules, k + 1) == Among(pending, Placed(refs, rules, k + 1))
    ensures Placed(refs, rules, k + 1) == Placed(refs, rules, k) + Members(ready)
  {
    var open, next := Members(rules) - Placed(refs, rules, k), Placed(refs, rules, k + 1);
    PlacedGrows(refs, rules, k);
    AmongMembers(rules, open);
    SelectReadyAmong(refs, Placed(refs, rules, k), pending, next);
    AmongAmong(rules, open, next);
    assert open * next == next - Placed(refs, rules, k);
    AmongMembers(pending, next);
  }

  lemma StillPending(before: seq<Rule>, pending: seq<Rule>, s: set<Rule>, i: nat)
    requires i < |Among(before, s)|
    requires multiset(pending) == multiset(before) - multiset(Among(before, s)[..i])
    ensures Among(before, s)[i] in pending && Among(before, s)[i] in s
  {
    hide Among;
    var ready := Among(before, s);
    AmongMembers(before, s);
    assert ready[i] in ready;
    FewerBefore(ready, i);
    assert multiset(pending)[ready[i]] > 0;
  }

  lemma FewerBefore(s: seq<Rule>, i: nat)
    requires i < |s|
    ensures multiset(s[..i])[s[i]] < multiset(s)[s[i]]
  {
    assert s == s[..i] + [s[i]] + s[i + 1..];
  }

  // When the selected rules have been removed one by one, the others are left, in their order.
  lemma OnlyOthers(before: seq<Rule>, pending: seq<Rule>, s: set<Rule>, left: set<Rule>)
    requires multiset(pending) == multiset(before) - multiset(Among(before, s))
    requires Among(pending, left) == Among(before, left)
    requires forall r :: r in before ==> r in s || r in left
    ensures pending == Among(before, left)
  {
    AmongMembers(before, s);
    forall r | r in pending
      ensures r in left
    {
      assert multiset(pending)[r] > 0;
      assert multiset(before)[r] > 0;
    }
    AmongAll(pending, left);
  }

  // One ready rule taken off the pending list.
  lemma OneTaken(before: seq<Rule>, pending: seq<Rule>, next: set<Rule>, left: set<Rule>, i: nat)
    requires next !! left && i < |Among(before, next)|
    requires multiset(pending) == multiset(before) - multiset(Among(before, next)[..i])
    ensures var ready := Among(before, next);
            && ready[i] in pending
            && multiset(RemoveFirst(pending, ready[i])) == multiset(before) - multiset(ready[..i + 1])
            && Among(RemoveFirst(pending, ready[i]), left) == Among(pending, left)
            && |RemoveFirst(pending, ready[i])| == |pending| - 1
  {
    hide Among, RemoveFirst;
    var ready := Among(before, next);
    StillPending(before, pending, next, i);
    RemovedFirst(pending, ready[i], left);
    PrefixGrows(ready, i);
    MinusOneMore(multiset(before), multiset(ready[..i]), ready[i]);
  }

  lemma PrefixGrows(s: seq<Rule>, i: nat)
    requires i < |s|
    ensures multiset(s[..i + 1]) == multiset(s[..i]) + multiset{s[i]}
  {
    assert s[..i + 1] == s[..i] + [s[i]];
  }

  lemma MinusOneMore(a: multiset<Rule>, b: multiset<Rule>, x: Rule)
    ensures a - b - multiset{x} == a - (b + multiset{x})
  {
  }

  /** The loop over the rules that are ready: each is ordered, placed, and taken off the pending list. */
  method PlaceReady(before: seq<Rule>, ready: seq<Rule>, ghost next: set<Rule>, ghost left: set<Rule>)
    returns (ordered: seq<Rule>, placed: set<Rule>, pending: seq<Rule>)
    requires ready == Among(before, next) && next !! left
    requires forall r :: r in before ==> r in next || r in left
    ensures ordered == ready && placed == Members(ready) && pending == Among(before, left)
    ensures ready != [] ==> |pending| < |before|
  {
    hide Among, RemoveFirst;
    ordered, placed, pending := [], {}, before;
    for i := 0 to |ready|
      invariant ordered == ready[..i] && placed == Members(ready[..i])
      invariant multiset(pending) == multiset(before) - multiset(ready[..i])
      invariant Among(pending, left) == Among(before, left)
      invariant |pending| + i == |before|
    {
      assert ready[..i + 1] == ready[..i] + [ready[i]];
      OneTaken(before, pending, next, left, i);
      ordered := ordered + [ready[i]];
      placed := placed + {ready[i]};
      pending := RemoveFirst(pending, ready[i]);
    }
    assert ready[..|ready|] == ready;
    OnlyOthers(before, pending, next, left);
  }

  lemma RoundsStep(refs: References, rules: seq<Rule>, k: nat)
    ensures Rounds(refs, rules, k + 1) == Rounds(refs, rules, k) + Round(refs, rules, k + 1)
  {
  }

  lemma PlacedMembers(refs: References, rules: seq<Rule>, k: nat)
    ensures Placed(refs, rules, k) <= Members(rules)
  {
  }

  lemma RoundLeaves(refs: References, rules: seq<Rule>, k: nat, pending: seq<Rule>)
    requires pending == Among(rules, Members(rules) - Placed(refs, rules, k))
    ensures var next := Placed(refs, rules, k + 1);
            var left := Members(rules) - next;
            && Among(pending, left) == Among(rules, left)
            && (forall r :: r in pending ==> r in next || r in left)
            && (pending != [] ==> Placed(refs, rules, k) != Members(rules))
  {
    hide Placed;
    var open, left := Members(rules) - Placed(refs, rules, k), Members(rules) - Placed(refs, rules, k + 1);
    PlacedGrows(refs, rules, k);
    AmongAmong(rules, open, left);
    assert open * left == left;
    AmongMembers(rules, open);
    if pending != [] {
      assert pending[0] in pending;
    }
  }

  // ---------------------------------------------------------------------------------------------------------
  // Soundness and completeness
  // ---------------------------------------------------------------------------------------------------------

  lemma {:induction false} AmongSplit(rules: seq<Rule>, a: set<Rule>, b: set<Rule>)
    requires a <= b
    ensures multiset(Among(rules, b)) == multiset(Among(rules, a)) + multiset(Among(rules, b - a))
  {
    if rules != [] {
      AmongSplit(rules[..|rules| - 1], a, b);
    }
  }

  lemma {:induction false} RoundsCount(refs: References, rules: seq<Rule>, k: nat)
    ensures multiset(Rounds(refs, rules, k)) == multiset(Among(rules, Placed(refs, rules, k)))
  {
    hide Placed, Among, Rounds;
    if k == 0 {
      NothingPlaced(refs, rules);
      AmongNone(rules);
    } else {
      RoundsCount(refs, rules, k - 1);
      RoundsStep(refs, rules, k - 1);
      PlacedGrows(refs, rules, k - 1);
      AmongSplit(rules, Placed(refs, rules, k - 1), Placed(refs, rules, k));
      CountConcat(Rounds(refs, rules, k - 1), Round(refs, rules, k));
    }
  }

  lemma CountConcat(a: seq<Rule>, b: seq<Rule>)
    ensures multiset(a + b) == multiset(a) + multiset(b)
  {
  }

  lemma {:induction false} AmongNone(rules: seq<Rule>)
    ensures Among(rules, {}) == []
  {
    if rules != [] {
      AmongNone(rules[..|rules| - 1]);
    }
  }

  lemma RoundsMembers(refs: References, rules: seq<Rule>, k: nat)
    ensures Members(Rounds(refs, rules, k)) == Placed(refs, rules, k)
  {
    hide Placed, Among, Rounds;
    var order, placed := Rounds(refs, rules, k), Placed(refs, rules, k);
    RoundsCount(refs, rules, k);
    AmongMembers(rules, placed);
    PlacedMembers(refs, rules, k);
    forall r
      ensures r in order <==> r in placed
    {
      assert r in order <==> multiset(order)[r] > 0;
      assert r in Among(rules, placed) <==> multiset(Among(rules, placed))[r] > 0;
    }
  }

  lemma RoundAppended(refs: References, order: seq<Rule>, round: seq<Rule>)
    requires ReferencesPrecede(refs, order)
    requires forall r :: r in round ==> Refs(refs, r) <= Members(order) && r !in order
    ensures ReferencesPrecede(refs, order + round)
  {
    hide Refs;
    var all := order + round;
    forall i | 0 <= i < |all|
      ensures Refs(refs, all[i]) <= Members(all[..i]) && Refs(refs, all[i]) !! Members(all[i..])
    {
      if i < |order| {
        assert all[..i] == order[..i] && all[i..] == order[i..] + round;
        assert forall x :: x in order[..i] ==> x in order;
      } else {
        assert all[..i] == order + round[..i - |order|] && all[i..] == round[i - |order|..];
      }
    }
  }

  lemma {:induction false} RoundsPrecede(refs: References, rules: seq<Rule>, k: nat)
    ensures ReferencesPrecede(refs, Rounds(refs, rules, k))
  {
    hide ReferencesPrecede, Placed, Among;
    if k == 0 {
      NothingPrecedes(refs);
    } else {
      RoundsPrecede(refs, rules, k - 1);
      RoundsMembers(refs, rules, k - 1);
      RoundRefers(refs, rules, k);
      RoundAppended(refs, Rounds(refs, rules, k - 1), Round(refs, rules, k));
    }
  }

  lemma NothingPrecedes(refs: References)
    ensures ReferencesPrecede(refs, [])
  {
  }

  lemma RoundRefers(refs: References, rules: seq<Rule>, k: nat)
    requires k > 0
    ensures forall r :: r in Round(refs, rules, k) ==>
                        Refs(refs, r) <= Placed(refs, rules, k - 1) && r !in Placed(refs, rules, k - 1)
  {
    AmongMembers(rules, Placed(refs, rules, k) - Placed(refs, rules, k - 1));
  }

  lemma RoundsValid(refs: References, rules: seq<Rule>, k: nat)
    requires Placed(refs, rules, k) == Members(rules)
    ensures ValidOrder(refs, rules, Rounds(refs, rules, k))
  {
    RoundsPrecede(refs, rules, k);
    RoundsCount(refs, rules, k);
    AmongAll(rules, Members(rules));
  }

  lemma {:induction false} PlacedMonotone(refs: References, rules: seq<Rule>, k: nat, m: nat)
    requires k <= m
    ensures Placed(refs, rules, k) <= Placed(refs, rules, m)
  {
    if k < m {
      PlacedMonotone(refs, rules, k, m - 1);
      PlacedGrows(refs, rules, m - 1);
    }
  }

  /** In a valid order, the first `n` rules are placed within `n` rounds. */
  lemma {:induction false} OrderedArePlaced(refs: References, rules: seq<Rule>, order: seq<Rule>, n: nat)
    requires ValidOrder(refs, rules, order) && n <= |order|
    ensures Members(order[..n]) <= Placed(refs, rules, n)
  {
    hide Refs, Placed, ReferencesPrecede;
    if n == 0 {
      assert order[..0] == [];
    } else {
      OrderedArePlaced(refs, rules, order, n - 1);
      PlacedGrows(refs, rules, n - 1);
      NextIsPlaced(refs, rules, order, n - 1);
      assert order[..n] == order[..n - 1] + [order[n - 1]];
    }
  }

  lemma NextIsPlaced(refs: References, rules: seq<Rule>, order: seq<Rule>, k: nat)
    requires ValidOrder(refs, rules, order) && k < |order|
    requires Members(order[..k]) <= Placed(refs, rules, k)
    ensures order[k] in Placed(refs, rules, k + 1)
  {
    hide Refs, Placed;
    PlacedNext(refs, rules, k, order[k]);
    assert order[k] in multiset(order) && order[k] in multiset(rules);
    assert Refs(refs, order[k]) <= Members(order[..k]);
  }

  lemma PlacedNext(refs: References, rules: seq<Rule>, k: nat, r: Rule)
    ensures r in Placed(refs, rules, k + 1) <==> r in rules && Ready(refs, Placed(refs, rules, k), r)
  {
  }

  lemma NoOrder(refs: References, rules: seq<Rule>, k: nat)
    requires Placed(refs, rules, k + 1) == Placed(refs, rules, k) != Members(rules)
    ensures forall order :: !ValidOrder(refs, rules, order)
  {
    hide Placed;
    forall order
      ensures !ValidOrder(refs, rules, order)
    {
      if ValidOrder(refs, rules, order) {
        var m := if |order| > k then |order| else k;
        OrderedArePlaced(refs, rules, order, |order|);
        assert order[..|order|] == order;
        PlacedMonotone(refs, rules, |order|, m);
        PlacedStays(refs, rules, k, m);
        PlacedMembers(refs, rules, m);
        forall r | r in rules
          ensures r in order
        {
          assert r in multiset(rules) && r in multiset(order);
        }
      }
    }
  }

  lemma NothingPlaced(refs: References, rules: seq<Rule>)
    ensures Placed(refs, rules, 0) == {} && Rounds(refs, rules, 0) == []
    ensures Among(rules, Members(rules) - {}) == rules
  {
    AmongAll(rules, Members(rules) - {});
  }

  /** Whatever a rule lists as a resolved reference stands before it, and not again from it on. */
  ghost predicate EarlierReferences(refs: References, order: seq<Rule>) {
    forall i, x :: 0 <= i < |order| && order[i] in refs && Some(x) in refs[order[i]] ==>
      x in order[..i] && x !in order[i..]
  }

  /** A valid order, by what the rules list. */
  lemma ValidOrderIff(refs: References, rules: seq<Rule>, order: seq<Rule>)
    ensures ValidOrder(refs, rules, order) <==> multiset(order) == multiset(rules) && EarlierReferences(refs, order)
  {
    forall i | 0 <= i < |order|
      ensures Refs(refs, order[i]) <= Members(order[..i]) && Refs(refs, order[i]) !! Members(order[i..])
         <==> forall x :: order[i] in refs && Some(x) in refs[order[i]] ==> x in order[..i] && x !in order[i..]
    {
      if forall x :: order[i] in refs && Some(x) in refs[order[i]] ==> x in order[..i] && x !in order[i..] {
        assert forall x :: x in Refs(refs, order[i]) ==> x in order[..i] && x !in order[i..];
      }
    }
  }

  lemma NoEarlier(refs: References, rules: seq<Rule>, k: nat)
    requires Placed(refs, rules, k + 1) == Placed(refs, rules, k) != Members(rules)
    ensures forall order: seq<Rule> :: multiset(order) == multiset(rules) ==> !EarlierReferences(refs, order)
  {
    hide ValidOrder, EarlierReferences, Placed;
    NoOrder(refs, rules, k);
    forall order: seq<Rule> | multiset(order) == multiset(rules)
      ensures !EarlierReferences(refs, order)
    {
      ValidOrderIff(refs, rules, order);
    }
  }

  method Order(rules: seq<Rule>, refs: References) returns (r: Result<seq<Rule>, ConversionError>)
    ensures r.Ok? ==> multiset(r.value) == multiset(rules)
    ensures r.Ok? ==> EarlierReferences(refs, r.value)
    ensures r.Ok? ==> exists k: nat :: r.value == Rounds(refs, rules, k) && Placed(refs, rules, k) == Members(rules)
    ensures r.Err? ==> forall order: seq<Rule> :: multiset(order) == multiset(rules) ==> !EarlierReferences(refs, order)
  {
    hide ValidOrder, EarlierReferences, Placed, Among, Rounds, Round, SelectReady, Ready;
    NothingPlaced(refs, rules);
    var pending := rules;
    var ordered: seq<Rule> := [];
    var placed: set<Rule> := {};
    ghost var k: nat := 0;
    while pending != []
      invariant placed == Placed(refs, rules, k)
      invariant ordered == Rounds(refs, rules, k)
      invariant pending == Among(rules, Members(rules) - placed)
      decreases |pending|
    {
      ghost var next := Placed(refs, rules, k + 1);
      var ready := SelectReady(refs, placed, pending);
      NextRound(refs, rules, k, pending, ready);
      RoundLeaves(refs, rules, k, pending);
      RoundsStep(refs, rules, k);
      if ready == [] {
        NoEarlier(refs, rules, k);
        return Err(CannotOrder);
      }
      var nowOrdered, nowPlaced, others := PlaceReady(pending, ready, next, Members(rules) - next);
      ordered, placed, pending := ordered + nowOrdered, placed + nowPlaced, others;
      k := k + 1;
    }
    AmongMembers(rules, Members(rules) - placed);
    PlacedMembers(refs, rules, k);
    RoundsValid(refs, rules, k);
    ValidOrderIff(refs, rules, ordered);
    return Ok(ordered);
  }

  // ---------------------------------------------------------------------------------------------------------
  // Chains of references
  // ---------------------------------------------------------------------------------------------------------

  /** Each rule of the chain refers to the next. */
  ghost predicate Chain(refs: References, p: seq<Rule>) {
    p != [] && forall i {:trigger p[i]} :: 0 < i < |p| ==> p[i] in Refs(refs, p[i - 1])
  }

  ghost predicate ChainFrom(refs: References, r: Rule, p: seq<Rule>) {
    Chain(refs, p) && p[0] == r
  }

  predicate StaysIn(rules: seq<Rule>, p: seq<Rule>) {
    forall x :: x in p ==> x in rules
  }

  lemma {:induction false} PlacedChains(refs: References, rules: seq<Rule>, k: nat, r: Rule, p: seq<Rule>)
    requires r in Placed(refs, rules, k) && ChainFrom(refs, r, p)
    ensures |p| <= k && StaysIn(rules, p)
  {
    if |p| > 1 {
      var q := p[1..];
      assert p[1] in Refs(refs, p[0]);
      forall i | 0 < i < |q|
        ensures q[i] in Refs(refs, q[i - 1])
      {
        assert q[i] == p[i + 1] && q[i - 1] == p[i];
      }
      PlacedChains(refs, rules, k - 1, p[1], q);
      assert p == [p[0]] + q;
    }
  }

  /** A rule that is not placed within `k` rounds heads a chain that leaves the rules or is longer than `k`. */
  lemma {:induction false} BadChain(refs: References, rules: seq<Rule>, k: nat, r: Rule) returns (p: seq<Rule>)
    requires r !in Placed(refs, rules, k)
    ensures ChainFrom(refs, r, p) && (!StaysIn(rules, p) || |p| == k + 1)
  {
    if k == 0 || r !in rules {
      p := [r];
      assert r in p;
    } else {
      var x :| x in Refs(refs, r) && x !in Placed(refs, rules, k - 1);
      var q := BadChain(refs, rules, k - 1, x);
      p := [r] + q;
      forall i | 0 < i < |p|
        ensures p[i] in Refs(refs, p[i - 1])
      {
        assert i > 1 ==> p[i] == q[i - 1] && p[i - 1] == q[i - 2];
      }
      assert forall y :: y in q ==> y in p;
    }
  }

  /** Round `k` holds exactly the listed rules whose longest chain of references, all of it listed, has `k` rules. */
  lemma RoundIsLongestChain(refs: References, rules: seq<Rule>, k: nat, r: Rule)
    requires k > 0
    ensures r in Round(refs, rules, k)
       <==> && (forall p :: ChainFrom(refs, r, p) ==> |p| <= k && StaysIn(rules, p))
            && exists p :: ChainFrom(refs, r, p) && |p| == k
  {
    hide Placed, Refs;
    AmongMembers(rules, Placed(refs, rules, k) - Placed(refs, rules, k - 1));
    PlacedMembers(refs, rules, k);
    if r in Placed(refs, rules, k) {
      forall p | ChainFrom(refs, r, p)
        ensures |p| <= k && StaysIn(rules, p)
      {
        PlacedChains(refs, rules, k, r, p);
      }
    } else {
      var p := BadChain(refs, rules, k, r);
    }
    if r in Placed(refs, rules, k - 1) {
      forall p | ChainFrom(refs, r, p)
        ensures |p| <= k - 1
      {
        PlacedChains(refs, rules, k - 1, r, p);
      }
    } else {
      var p := BadChain(refs, rules, k - 1, r);
    }
  }

  // ---------------------------------------------------------------------------------------------------------
  // When there is no order
  // ---------------------------------------------------------------------------------------------------------

  predicate Repeats(p: seq<Rule>) {
    exists i, j :: 0 <= i < j < |p| && p[i] == p[j]
  }

  /** A chain that starts at a listed rule and either reaches one that is not listed or runs in a circle. */
  ghost predicate Obstructs(refs: References, rules: seq<Rule>, p: seq<Rule>) {
    Chain(refs, p) && p[0] in rules && (!StaysIn(rules, p) || Repeats(p))
  }

  lemma {:induction false} Pigeonhole(p: seq<Rule>, s: set<Rule>)
    requires (forall x :: x in p ==> x in s) && |p| > |s|
    ensures Repeats(p)
  {
    var n := |p| - 1;
    var last, rest := p[n], p[..n];
    if last in rest {
      var i :| 0 <= i < n && rest[i] == last;
      assert p[i] == p[n];
    } else {
      assert last in p;
      forall x | x in rest
        ensures x in s - {last}
      {
        assert x in p;
      }
      Pigeonhole(rest, s - {last});
      var i, j :| 0 <= i < j < |rest| && rest[i] == rest[j];
      assert p[i] == p[j];
    }
  }

  function First(order: seq<Rule>, r: Rule): (i: nat)
    requires r in order
    ensures i < |order| && order[i] == r && forall k :: 0 <= k < i ==> order[k] != r
  {
    if order[0] == r then 0 else 1 + First(order[1..], r)
  }

  /** Along a chain, a valid order is walked backwards. */
  lemma {:induction false} ChainDescends(refs: References, order: seq<Rule>, p: seq<Rule>, i: nat, j: nat)
    requires ReferencesPrecede(refs, order) && Chain(refs, p) && i <= j < |p| && p[i] in order
    ensures p[j] in order
    ensures i < j ==> First(order, p[j]) < First(order, p[i])
  {
    hide First, ReferencesPrecede, Chain;
    if i < j {
      ChainDescends(refs, order, p, i, j - 1);
      StepBack(refs, order, p, j);
    }
  }

  lemma StepBack(refs: References, order: seq<Rule>, p: seq<Rule>, j: nat)
    requires ReferencesPrecede(refs, order) && Chain(refs, p) && 0 < j < |p| && p[j - 1] in order
    ensures p[j] in order && First(order, p[j]) < First(order, p[j - 1])
  {
    hide Refs;
    var m := First(order, p[j - 1]);
    assert p[j] in Refs(refs, order[m]);
    assert p[j] in Members(order[..m]);
    FirstBefore(order, p[j], m);
  }

  lemma FirstBefore(order: seq<Rule>, r: Rule, m: nat)
    requires m <= |order| && r in order[..m]
    ensures r in order && First(order, r) < m
  {
    var i :| 0 <= i < m && order[..m][i] == r;
    assert order[i] == r;
  }

  lemma ObstructedHasNoOrder(refs: References, rules: seq<Rule>, order: seq<Rule>, p: seq<Rule>)
    requires Obstructs(refs, rules, p)
    ensures !ValidOrder(refs, rules, order)
  {
    if ValidOrder(refs, rules, order) {
      hide Refs, First, ReferencesPrecede;
      assert p[0] in multiset(rules) && p[0] in multiset(order);
      forall j | 0 <= j < |p|
        ensures p[j] in order && p[j] in rules
      {
        ChainDescends(refs, order, p, 0, j);
        assert p[j] in multiset(order) && p[j] in multiset(rules);
      }
      var i, j :| 0 <= i < j < |p| && p[i] == p[j];
      ChainDescends(refs, order, p, i, j);
      assert false;
    }
  }

  /** An order exists unless some chain of references leaves the listed rules or comes back to where it was. */
  lemma OrderIffUnobstructed(refs: References, rules: seq<Rule>)
    ensures (exists order :: ValidOrder(refs, rules, order)) <==> (forall p :: !Obstructs(refs, rules, p))
  {
    hide ValidOrder, Placed, Obstructs;
    var k := |Members(rules)|;
    if Placed(refs, rules, k) == Members(rules) {
      RoundsValid(refs, rules, k);
      forall p
        ensures !Obstructs(refs, rules, p)
      {
        if Obstructs(refs, rules, p) {
          ObstructedHasNoOrder(refs, rules, Rounds(refs, rules, k), p);
        }
      }
    } else {
      var p := FindObstruction(refs, rules);
      forall order
        ensures !ValidOrder(refs, rules, order)
      {
        ObstructedHasNoOrder(refs, rules, order, p);
      }
    }
  }

  lemma FindObstruction(refs: References, rules: seq<Rule>) returns (p: seq<Rule>)
    requires Placed(refs, rules, |Members(rules)|) != Members(rules)
    ensures Obstructs(refs, rules, p)
  {
    hide Placed, Chain;
    var k := |Members(rules)|;
    PlacedMembers(refs, rules, k);
    var r :| r in Members(rules) && r !in Placed(refs, rules, k);
    p := BadChain(refs, rules, k, r);
    if StaysIn(rules, p) {
      Pigeonhole(p, Members(rules));
    }
  }

  // ---------------------------------------------------------------------------------------------------------
  // Listing order
  // ---------------------------------------------------------------------------------------------------------

  lemma {:induction false} PlacedSame(refs: References, rules: seq<Rule>, rules': seq<Rule>, k: nat)
    requires Members(rules) == Members(rules')
    ensures Placed(refs, rules, k) == Placed(refs, rules', k)
  {
    if k > 0 {
      PlacedSame(refs, rules, rules', k - 1);
      assert forall r :: r in rules <==> r in Members(rules');
    }
  }

  /** Listing the same rules in another order gives the same rounds, each with the same rules. */
  lemma RoundsIndependent(refs: References, rules: seq<Rule>, rules': seq<Rule>, k: nat)
    requires multiset(rules) == multiset(rules') && k > 0
    ensures multiset(Round(refs, rules, k)) == multiset(Round(refs, rules', k))
    ensures Members(rules) == Members(rules') && Placed(refs, rules, k) == Placed(refs, rules', k)
  {
    hide Placed, Among;
    forall r
      ensures r in rules <==> r in rules'
    {
      assert r in multiset(rules) <==> r in multiset(rules');
    }
    PlacedSame(refs, rules, rules', k);
    PlacedSame(refs, rules, rules', k - 1);
    var s := Placed(refs, rules, k) - Placed(refs, rules, k - 1);
    AmongMembers(rules, s);
    AmongMembers(rules', s);
  }

  // ---------------------------------------------------------------------------------------------------------
  // What the result depends on
  // ---------------------------------------------------------------------------------------------------------

  /** The two tables resolve to the same rules; they may differ in references that are not resolved. */
  ghost predicate SameResolved(refs: References, refs': References) {
    forall r, x :: (r in refs && Some(x) in refs[r]) <==> (r in refs' && Some(x) in refs'[r])
  }

  lemma {:induction false} PlacedResolved(refs: References, refs': References, rules: seq<Rule>, k: nat)
    requires SameResolved(refs, refs')
    ensures Placed(refs, rules, k) == Placed(refs', rules, k)
  {
    if k > 0 {
      PlacedResolved(refs, refs', rules, k - 1);
      forall r
        ensures Refs(refs, r) == Refs(refs', r)
      {
        assert forall x :: x in Refs(refs, r) <==> x in Refs(refs', r);
      }
    }
  }

  lemma {:induction false} RoundsResolved(refs: References, refs': References, rules: seq<Rule>, k: nat)
    requires SameResolved(refs, refs')
    ensures Rounds(refs, rules, k) == Rounds(refs', rules, k)
  {
    if k > 0 {
      hide Placed, Among;
      RoundsResolved(refs, refs', rules, k - 1);
      PlacedResolved(refs, refs', rules, k - 1);
      PlacedResolved(refs, refs', rules, k);
    }
  }

  /** Once all rules are placed, further rounds add nothing. */
  lemma {:induction false} RoundsSettle(refs: References, rules: seq<Rule>, k: nat, m: nat)
    requires k <= m && Placed(refs, rules, k) == Members(rules)
    ensures Rounds(refs, rules, m) == Rounds(refs, rules, k)
    decreases m
  {
    hide Placed, Among, Rounds;
    if k < m {
      RoundsSettle(refs, rules, k, m - 1);
      RoundsStep(refs, rules, m - 1);
      PlacedMonotone(refs, rules, k, m - 1);
      PlacedMonotone(refs, rules, k, m);
      PlacedMembers(refs, rules, m - 1);
      PlacedMembers(refs, rules, m);
      NoRound(refs, rules, m);
    }
  }

  lemma NoRound(refs: References, rules: seq<Rule>, m: nat)
    requires m > 0 && Placed(refs, rules, m - 1) == Placed(refs, rules, m)
    ensures Round(refs, rules, m) == []
  {
    hide Placed, Among;
    assert Placed(refs, rules, m) - Placed(refs, rules, m - 1) == {};
    AmongNone(rules);
  }

  /**
   The result is determined by the resolved references: adding or dropping unresolved ones, or listing a reference
   twice, changes neither the order nor whether there is one.
   */
  lemma OrderDetermined(refs: References, refs': References, rules: seq<Rule>, k: nat, m: nat)
    requires SameResolved(refs, refs')
    ensures Placed(refs, rules, k) == Placed(refs', rules, m) == Members(rules) ==>
              Rounds(refs, rules, k) == Rounds(refs', rules, m)
    ensures forall order :: EarlierReferences(refs, order) <==> EarlierReferences(refs', order)
  {
    hide Placed, Rounds, Among;
    RoundsResolved(refs, refs', rules, m);
    PlacedResolved(refs, refs', rules, m);
    if Placed(refs, rules, k) == Placed(refs', rules, m) == Members(rules) {
      RoundsSettle(refs, rules, if k <= m then k else m, if k <= m then m else k);
    }
  }

  lemma UnresolvedAdded(refs: References, r: Rule, before: seq<Option<Rule>>, after: seq<Option<Rule>>)
    requires r in refs && refs[r] == before + after
    ensures SameResolved(refs, refs[r := before + [None] + after])
  {
    forall x: Rule
      ensures Some(x) in before + [None] + after <==> Some(x) in before + after
    {
    }
  }

  /** Increasing positions. */
  predicate Increasing(positions: seq<nat>) {
    forall i, j :: 0 <= i < j < |positions| ==> positions[i] < positions[j]
  }

  lemma {:induction false} AmongPositions(rules: seq<Rule>, s: set<Rule>) returns (positions: seq<nat>)
    ensures Increasing(positions) && |positions| == |Among(rules, s)|
    ensures forall i :: 0 <= i < |positions| ==> positions[i] < |rules| && Among(rules, s)[i] == rules[positions[i]]
  {
    if rules == [] {
      positions := [];
    } else {
      var n := |rules| - 1;
      positions := AmongPositions(rules[..n], s);
      if rules[n] in s {
        positions := positions + [n];
      }
    }
  }

  /** Within a round the rules keep their listing order. */
  lemma RoundInListingOrder(refs: References, rules: seq<Rule>, k: nat)
    requires k > 0
    ensures exists positions: seq<nat> ::
              && Increasing(positions) && |positions| == |Round(refs, rules, k)|
              && forall i :: 0 <= i < |positions| ==>
                   positions[i] < |rules| && Round(refs, rules, k)[i] == rules[positions[i]]
  {
    hide Placed, Among;
    var positions := AmongPositions(rules, Placed(refs, rules, k) - Placed(refs, rules, k - 1));
  }
}
