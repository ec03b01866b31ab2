/**
 The windowed correlation evaluator (tools/otde/correlation.py).

 The code tries only the windows that start at a matched event. `CompleteIff` says for which rules that finite search
 decides what the rule means over all windows, and `GroupLocalIff` for which rules one group cannot influence another:
 both are about the evaluator's verdict on every sequence of events, and both give the exact set of rules.

 Field values matter only up to equality, so integers stand for them; a missing field is `None`, which is a value like
 any other. Whether an event matches a referenced rule is the single-event matcher's verdict, taken as given.
 */
module Correlation {

  import opened Results

  // ---------------------------------------------------------------------------------------------------------
  // Rules and events
  // ---------------------------------------------------------------------------------------------------------

  type Value = Option<int>

  datatype Timestamp = Missing | Unparsable | At(moment: real)

  /** `matches` holds the rules whose detection this event satisfies. */
  datatype Event = Event(timestamp: Timestamp, matches: set<int>, fields: map<string, int>)

  datatype Kind = ValueCount | EventCount | OtherKind

  datatype Operator = LT | LTE | GT | GTE | EQ | NEQ | OtherOperator

  datatype Condition = Condition(op: Operator, count: int, field: Option<string>)

  datatype Rule = Rule(
    kind: Kind,
    references: seq<Option<int>>,
    condition: Option<Condition>,
    groupBy: seq<string>,
    timespan: Option<real>)

  datatype Unsupported =
    | UnsupportedType | UnresolvedReferences | NoCondition | UnsupportedOperator | NoField | NoTimespan
    | NoTimestamp | BadTimestamp

  function LookupField(e: Event, field: string): Value {
    if field in e.fields then Some(e.fields[field]) else None
  }

  predicate Compare(op: Operator, count: int, threshold: int) {
    match op
    case LT => count < threshold
    case LTE => count <= threshold
    case GT => count > threshold
    case GTE => count >= threshold
    case EQ => count == threshold
    case NEQ => count != threshold
    case OtherOperator => false
  }

  // ---------------------------------------------------------------------------------------------------------
  // Windows
  // ---------------------------------------------------------------------------------------------------------

  /** A matched event, as far as the count is concerned. */
  datatype Hit = Hit(moment: real, key: seq<Value>, value: Value)

  /** What is counted, how it is compared, and the length of the window. */
  datatype Test = Test(kind: Kind, op: Operator, threshold: int, span: real)

  predicate In(h: Hit, start: real, length: real) {
    start <= h.moment < start + length
  }

  function EventsIn(hits: seq<Hit>, key: seq<Value>, start: real, length: real): nat {
    if hits == [] then 0
    else
      var n := |hits| - 1;
      EventsIn(hits[..n], key, start, length) + if In(hits[n], start, length) && hits[n].key == key then 1 else 0
  }

  function ValuesIn(hits: seq<Hit>, key: seq<Value>, start: real, length: real): set<Value> {
    set h | h in hits && In(h, start, length) && h.key == key :: h.value
  }

  function Measure(kind: Kind, hits: seq<Hit>, key: seq<Value>, start: real, length: real): nat {
    if kind == ValueCount then |ValuesIn(hits, key, start, length)| else EventsIn(hits, key, start, length)
  }

  /** Some group with an event in the window passes the test there. */
  ghost predicate FiresAt(t: Test, hits: seq<Hit>, start: real) {
    exists h :: h in hits && In(h, start, t.span) && Compare(t.op, Measure(t.kind, hits, h.key, start, t.span), t.threshold)
  }

  /** The verdict of the code: some window that starts at a matched event. */
  ghost predicate Fires(t: Test, hits: seq<Hit>) {
    exists a :: a in hits && FiresAt(t, hits, a.moment)
  }

  /** What the rule means: some window that starts at any moment at all. */
  ghost predicate FiresSomewhere(t: Test, hits: seq<Hit>) {
    exists start :: FiresAt(t, hits, start)
  }

  // ---------------------------------------------------------------------------------------------------------
  // The evaluator
  // ---------------------------------------------------------------------------------------------------------

  predicate Relevant(rule: Rule, e: Event) {
    exists r :: r in rule.references && r.Some? && r.value in e.matches
  }

  /** The errors raised before any event is looked at. */
  function CheckRule(rule: Rule): Result<Test, Unsupported> {
    if rule.kind == OtherKind then Err(UnsupportedType)
    else if rule.references == [] || None in rule.references then Err(UnresolvedReferences)
    else if rule.condition.None? then Err(NoCondition)
    else if rule.condition.value.op == OtherOperator then Err(UnsupportedOperator)
    else if rule.kind == ValueCount && (rule.condition.value.field.None? || rule.condition.value.field.value == "")
    then Err(NoField)
    else if rule.timespan.None? then Err(NoTimespan)
    else Ok(Test(rule.kind, rule.condition.value.op, rule.condition.value.count, rule.timespan.value))
  }

  function KeyOf(e: Event, groupBy: seq<string>): (key: seq<Value>) {
    seq(|groupBy|, i requires 0 <= i < |groupBy| => LookupField(e, groupBy[i]))
  }

  function HitOf(rule: Rule, e: Event): Hit
    requires e.timestamp.At?
  {
    var value := if rule.condition.Some? && rule.condition.value.field.Some?
                 then LookupField(e, rule.condition.value.field.value) else None;
    Hit(e.timestamp.moment, KeyOf(e, rule.groupBy), value)
  }

  function Collect(rule: Rule, events: seq<Event>): Result<seq<Hit>, Unsupported> {
    if events == [] then Ok([])
    else
      var n := |events| - 1;
      var before :- Collect(rule, events[..n]);
      if !Relevant(rule, events[n]) then Ok(before)
      else
        match events[n].timestamp
        case Missing => Err(NoTimestamp)
        case Unparsable => Err(BadTimestamp)
        case At(_) => Ok(before + [HitOf(rule, events[n])])
  }

  /** The outcome of an evaluation, from the definitions above. */
  ghost function Verdict(rule: Rule, events: seq<Event>): Result<bool, Unsupported> {
    var t :- CheckRule(rule);
    var hits :- Collect(rule, events);
    Ok(Fires(t, hits))
  }

  method MatchCorrelation(rule: Rule, events: seq<Event>) returns (r: Result<bool, Unsupported>)
    ensures r == Verdict(rule, events)
  {
    if rule.kind != ValueCount && rule.kind != EventCount {
      return Err(UnsupportedType);
    }
    if rule.references == [] || None in rule.references {
      return Err(UnresolvedReferences);
    }
    if rule.condition.None? {
      return Err(NoCondition);
    }
    var condition := rule.condition.value;
    if condition.op == OtherOperator {
      return Err(UnsupportedOperator);
    }
    if rule.kind == ValueCount && (condition.field.None? || condition.field.value == "") {
      return Err(NoField);
    }
    if rule.timespan.None? {
      return Err(NoTimespan);
    }
    var t := Test(rule.kind, condition.op, condition.count, rule.timespan.value);
    var matched: seq<Hit> := [];
    for i := 0 to |events|
      invariant Collect(rule, events[..i]) == Ok(matched)
    {
      assert events[..i + 1][..i] == events[..i];
      if Relevant(rule, events[i]) {
        if !events[i].timestamp.At? {
          CollectFails(rule, events, i + 1);
          return Err(if events[i].timestamp.Missing? then NoTimestamp else BadTimestamp);
        }
        matched := matched + [HitOf(rule, events[i])];
      }
    }
    assert events[..|events|] == events;
    var fires := AnyWindow(t, matched);
    return Ok(fires);
  }

  lemma {:induction false} CollectFails(rule: Rule, events: seq<Event>, k: nat)
    requires k <= |events| && Collect(rule, events[..k]).Err?
    ensures Collect(rule, events) == Collect(rule, events[..k])
  {
    if k == |events| {
      assert events[..k] == events;
    } else {
      assert events[..|events| - 1][..k] == events[..k];
      CollectFails(rule, events[..|events| - 1], k);
    }
  }

  /** The loop over windows; the order in which the starting moments are tried makes no difference. */
  method AnyWindow(t: Test, matched: seq<Hit>) returns (fires: bool)
    ensures fires <==> Fires(t, matched)
  {
    var starts := set h | h in matched :: h.moment;
    ghost var tried: set<real> := {};
    while starts != {}
      invariant forall h :: h in matched ==> h.moment in starts || h.moment in tried
      invariant forall s :: s in starts ==> exists h :: h in matched && h.moment == s
      invariant forall s :: s in tried ==> !FiresAt(t, matched, s)
      decreases |starts|
    {
      NonEmpty(starts);
      var start :| start in starts;
      starts, tried := starts - {start}, tried + {start};
      var fired;
      if t.kind == ValueCount {
        fired := ValueWindow(t, matched, start);
      } else {
        fired := EventWindow(t, matched, start);
      }
      if fired {
        return true;
      }
    }
    return false;
  }

  lemma NonEmpty(s: set<real>)
    ensures s == {} || exists x :: x in s
  {
    if forall x :: x !in s {
      assert s == {};
    }
  }

  method ValueWindow(t: Test, matched: seq<Hit>, start: real) returns (fires: bool)
    requires t.kind == ValueCount
    ensures fires <==> FiresAt(t, matched, start)
  {
    var distinct: map<seq<Value>, set<Value>> := map[];
    for i := 0 to |matched|
      invariant forall k :: k in distinct <==> exists h :: h in matched[..i] && In(h, start, t.span) && h.key == k
      invariant forall k :: k in distinct ==> distinct[k] == ValuesIn(matched[..i], k, start, t.span)
    {
      var h := matched[i];
      assert matched[..i + 1] == matched[..i] + [h];
      if In(h, start, t.span) {
        ghost var before := if h.key in distinct then distinct[h.key] else {};
        assert before == ValuesIn(matched[..i], h.key, start, t.span);
        distinct := distinct[h.key := (if h.key in distinct then distinct[h.key] else {}) + {h.value}];
      }
    }
    assert matched[..|matched|] == matched;
    fires := exists k :: k in distinct && Compare(t.op, |distinct[k]|, t.threshold);
  }

  method EventWindow(t: Test, matched: seq<Hit>, start: real) returns (fires: bool)
    requires t.kind != ValueCount
    ensures fires <==> FiresAt(t, matched, start)
  {
    var counts: map<seq<Value>, nat> := map[];
    for i := 0 to |matched|
      invariant forall k :: k in counts <==> exists h :: h in matched[..i] && In(h, start, t.span) && h.key == k
      invariant forall k :: k in counts ==> counts[k] == EventsIn(matched[..i], k, start, t.span)
    {
      var h := matched[i];
      assert matched[..i + 1][..i] == matched[..i];
      if In(h, start, t.span) {
        if h.key !in counts {
          NoneIn(matched[..i], h.key, start, t.span);
        }
        counts := counts[h.key := (if h.key in counts then counts[h.key] else 0) + 1];
      }
    }
    assert matched[..|matched|] == matched;
    fires := exists k :: k in counts && Compare(t.op, counts[k], t.threshold);
  }

  lemma {:induction false} NoneIn(hits: seq<Hit>, key: seq<Value>, start: real, length: real)
    requires forall h :: h in hits && In(h, start, length) ==> h.key != key
    ensures EventsIn(hits, key, start, length) == 0
  {
    if hits != [] {
      NoneIn(hits[..|hits| - 1], key, start, length);
    }
  }

  // ---------------------------------------------------------------------------------------------------------
  // Counting
  // ---------------------------------------------------------------------------------------------------------

  /** Every event of the group in the first window is in the second. */
  ghost predicate Covers(hits: seq<Hit>, key: seq<Value>, start: real, length: real, start': real, length': real) {
    forall h :: h in hits && h.key == key && In(h, start, length) ==> In(h, start', length')
  }

  lemma {:induction false} EventsGrow(hits: seq<Hit>, key: seq<Value>, start: real, length: real, start': real, length': real)
    requires Covers(hits, key, start, length, start', length')
    ensures EventsIn(hits, key, start, length) <= EventsIn(hits, key, start', length')
    ensures (exists h :: h in hits && h.key == key && In(h, start', length') && !In(h, start, length))
            ==> EventsIn(hits, key, start, length) < EventsIn(hits, key, start', length')
  {
    if hits != [] {
      var n := |hits| - 1;
      EventsGrow(hits[..n], key, start, length, start', length');
      assert forall h :: h in hits ==> h in hits[..n] || h == hits[n];
    }
  }

  lemma MeasureGrows(kind: Kind, hits: seq<Hit>, key: seq<Value>, start: real, length: real, start': real, length': real)
    requires Covers(hits, key, start, length, start', length')
    ensures Measure(kind, hits, key, start, length) <= Measure(kind, hits, key, start', length')
  {
    EventsGrow(hits, key, start, length, start', length');
    var s, s' := ValuesIn(hits, key, start, length), ValuesIn(hits, key, start', length');
    assert s <= s';
    SubsetSize(s, s');
  }

  lemma {:induction false} SubsetSize<T>(a: set<T>, b: set<T>)
    requires a <= b
    ensures |a| <= |b|
  {
    if a != {} {
      var x :| x in a;
      SubsetSize(a - {x}, b - {x});
    }
  }

  /** A group is only tested in windows where it has an event, so its measure there is at least one. */
  lemma {:induction false} Present(kind: Kind, hits: seq<Hit>, h: Hit, start: real, length: real)
    requires h in hits && In(h, start, length)
    ensures Measure(kind, hits, h.key, start, length) >= 1
  {
    assert h.value in ValuesIn(hits, h.key, start, length);
    EventPresent(hits, h, start, length);
  }

  lemma {:induction false} EventPresent(hits: seq<Hit>, h: Hit, start: real, length: real)
    requires h in hits && In(h, start, length)
    ensures EventsIn(hits, h.key, start, length) >= 1
  {
    var n := |hits| - 1;
    if h != hits[n] {
      EventPresent(hits[..n], h, start, length);
    }
  }

  /** The earliest event of the group in a window. */
  lemma {:induction false} Earliest(hits: seq<Hit>, h: Hit, start: real, length: real) returns (a: Hit)
    requires h in hits && In(h, start, length)
    ensures a in hits && a.key == h.key && In(a, start, length)
    ensures forall b :: b in hits && b.key == h.key && In(b, start, length) ==> a.moment <= b.moment
  {
    var n := |hits| - 1;
    var last := hits[n];
    var candidate := last.key == h.key && In(last, start, length);
    if exists b :: b in hits[..n] && b.key == h.key && In(b, start, length) {
      var b :| b in hits[..n] && b.key == h.key && In(b, start, length);
      a := Earliest(hits[..n], b, start, length);
      if candidate && last.moment < a.moment {
        a := last;
      }
    } else {
      a := last;
    }
  }

  // ---------------------------------------------------------------------------------------------------------
  // Completeness of the windows tried
  // ---------------------------------------------------------------------------------------------------------

  /** The rules for which trying the windows that start at an event is enough. */
  predicate CompleteFor(t: Test) {
    match t.op
    case GT => true
    case GTE => true
    case NEQ => t.kind != ValueCount || t.threshold <= 1
    case LT => t.threshold <= 1
    case LTE => t.threshold <= 0
    case EQ => t.threshold <= 0
    case OtherOperator => true
  }

  /** Within a group every event carries the same value. */
  ghost predicate OneValue(hits: seq<Hit>) {
    forall g, h :: g in hits && h in hits && g.key == h.key ==> g.value == h.value
  }

  // Moving a window's start to the group's earliest event in it loses none of the group's events.
  lemma AnchoredCovers(hits: seq<Hit>, key: seq<Value>, start: real, span: real, a: Hit)
    requires In(a, start, span)
    requires forall b :: b in hits && b.key == key && In(b, start, span) ==> a.moment <= b.moment
    ensures Covers(hits, key, start, span, a.moment, span)
    ensures In(a, a.moment, span)
  {
  }

  lemma AnchorFires(t: Test, hits: seq<Hit>, h: Hit, start: real)
    requires h in hits && In(h, start, t.span)
    requires Compare(t.op, Measure(t.kind, hits, h.key, start, t.span), t.threshold)
    requires CompleteFor(t)
    ensures Fires(t, hits)
  {
    hide Measure;
    var a := Earliest(hits, h, start, t.span);
    AnchoredCovers(hits, h.key, start, t.span, a);
    MeasureGrows(t.kind, hits, h.key, start, t.span, a.moment, t.span);
    Present(t.kind, hits, h, start, t.span);
    if Compare(t.op, Measure(t.kind, hits, a.key, a.moment, t.span), t.threshold) {
      assert FiresAt(t, hits, a.moment);
    } else {
      assert t.op == NEQ;
      NotEqualFires(t, hits, a, h, start);
    }
  }

  /** Where a group has one value, that value is all its windows count. */
  lemma OneValueMeasured(hits: seq<Hit>, h: Hit, start: real, length: real)
    requires OneValue(hits) && h in hits && In(h, start, length)
    ensures Measure(ValueCount, hits, h.key, start, length) == 1
  {
    assert ValuesIn(hits, h.key, start, length) == {h.value};
  }

  lemma OneValueFires(t: Test, hits: seq<Hit>, h: Hit, start: real)
    requires t.kind == ValueCount && OneValue(hits) && h in hits && In(h, start, t.span)
    requires Compare(t.op, Measure(t.kind, hits, h.key, start, t.span), t.threshold)
    ensures FiresAt(t, hits, h.moment) && Fires(t, hits)
  {
    hide Measure;
    OneValueMeasured(hits, h, start, t.span);
    OneValueMeasured(hits, h, h.moment, t.span);
  }

  // Two events of a group within one window of each other: the later one's window cannot hold as many as the
  // earlier one's, all along the chain of such pairs, unless some window on the way holds another number.
  lemma {:induction false} NoPairs(t: Test, hits: seq<Hit>, a: Hit, b: Hit)
    requires t.kind != ValueCount && t.op == NEQ && !Fires(t, hits)
    requires a in hits && b in hits && a.key == b.key
    ensures !(a.moment < b.moment < a.moment + t.span)
    decreases |Later(hits, b.moment)|
  {
    if a.moment < b.moment < a.moment + t.span {
      AnchoredCount(t, hits, a);
      AnchoredCount(t, hits, b);
      if c :| c in hits && c.key == b.key && b.moment < c.moment < b.moment + t.span {
        assert c in Later(hits, b.moment) && c !in Later(hits, c.moment);
        FewerLater(hits, b.moment, c);
        NoPairs(t, hits, b, c);
      } else {
        EventsGrow(hits, a.key, b.moment, t.span, a.moment, t.span);
      }
    }
  }

  function Later(hits: seq<Hit>, moment: real): set<Hit> {
    set h | h in hits && h.moment > moment
  }

  lemma FewerLater(hits: seq<Hit>, moment: real, c: Hit)
    requires c in hits && c.moment > moment
    ensures |Later(hits, c.moment)| < |Later(hits, moment)|
  {
    var s, s' := Later(hits, c.moment), Later(hits, moment);
    assert s <= s' - {c};
    SubsetSize(s, s' - {c});
  }

  lemma AnchoredCount(t: Test, hits: seq<Hit>, a: Hit)
    requires t.kind != ValueCount && t.op == NEQ && !Fires(t, hits) && a in hits && t.span > 0.0
    ensures EventsIn(hits, a.key, a.moment, t.span) == t.threshold
  {
    assert !FiresAt(t, hits, a.moment);
    assert In(a, a.moment, t.span);
  }

  lemma NotEqualFires(t: Test, hits: seq<Hit>, a: Hit, h: Hit, start: real)
    requires t.op == NEQ && CompleteFor(t) && a in hits && h in hits && a.key == h.key
    requires In(a, start, t.span) && Covers(hits, h.key, start, t.span, a.moment, t.span)
    requires Measure(t.kind, hits, h.key, start, t.span) != t.threshold
    requires Measure(t.kind, hits, a.key, a.moment, t.span) == t.threshold
    requires 1 <= Measure(t.kind, hits, h.key, start, t.span) <= Measure(t.kind, hits, a.key, a.moment, t.span)
    ensures Fires(t, hits)
  {
    if !Fires(t, hits) {
      forall b | b in hits && b.key == a.key && In(b, a.moment, t.span)
        ensures In(b, start, t.span)
      {
        NoPairs(t, hits, a, b);
      }
      EventsGrow(hits, a.key, a.moment, t.span, start, t.span);
      assert false;
    }
  }

  /** For these tests trying the windows that start at an event is trying all windows. */
  lemma Complete(t: Test, hits: seq<Hit>)
    requires CompleteFor(t) || t.span <= 0.0 || (t.kind == ValueCount && OneValue(hits))
    ensures Fires(t, hits) <==> FiresSomewhere(t, hits)
  {
    hide Measure, CompleteFor, OneValue;
    if FiresSomewhere(t, hits) {
      var start :| FiresAt(t, hits, start);
      var h :| h in hits && In(h, start, t.span)
               && Compare(t.op, Measure(t.kind, hits, h.key, start, t.span), t.threshold);
      if CompleteFor(t) {
        AnchorFires(t, hits, h, start);
      } else {
        OneValueFires(t, hits, h, start);
      }
    }
  }

  // ---------------------------------------------------------------------------------------------------------
  // The other tests: a window the code does not try
  // ---------------------------------------------------------------------------------------------------------

  function FirstValues(n: nat): set<Value> {
    if n == 0 then {} else FirstValues(n - 1) + {Some(n)}
  }

  lemma {:induction false} FirstValuesSize(n: nat)
    ensures |FirstValues(n)| == n
    ensures forall v :: v in FirstValues(n) ==> v.Some? && 1 <= v.value <= n
  {
    if n > 0 {
      FirstValuesSize(n - 1);
    }
  }

  lemma {:induction false} FirstValuesGrow(m: nat, n: nat)
    requires m <= n
    ensures FirstValues(m) <= FirstValues(n)
  {
    if m < n {
      FirstValuesGrow(m, n - 1);
    }
  }

  /** `n` events of one group at one moment; if values are counted, with `n` different values. */
  ghost predicate IsVolley(kind: Kind, hits: seq<Hit>, n: nat, moment: real, key: seq<Value>) {
    && |hits| == n
    && (forall h :: h in hits ==> h.moment == moment && h.key == key)
    && (kind == ValueCount ==> (set h | h in hits :: h.value) == FirstValues(n))
  }

  lemma {:induction false} EventsConcat(a: seq<Hit>, b: seq<Hit>, key: seq<Value>, start: real, length: real)
    ensures EventsIn(a + b, key, start, length) == EventsIn(a, key, start, length) + EventsIn(b, key, start, length)
  {
    if b == [] {
      assert a + b == a;
    } else {
      assert (a + b)[..|a + b| - 1] == a + b[..|b| - 1];
      EventsConcat(a, b[..|b| - 1], key, start, length);
    }
  }

  lemma {:induction false} AllIn(hits: seq<Hit>, key: seq<Value>, start: real, length: real)
    requires forall h :: h in hits ==> h.key == key && In(h, start, length)
    ensures EventsIn(hits, key, start, length) == |hits|
  {
    if hits != [] {
      AllIn(hits[..|hits| - 1], key, start, length);
    }
  }

  lemma VolleyEvents(kind: Kind, hits: seq<Hit>, n: nat, moment: real, key: seq<Value>, start: real, length: real)
    requires IsVolley(kind, hits, n, moment, key)
    ensures EventsIn(hits, key, start, length) == if start <= moment < start + length then n else 0
  {
    hide EventsIn;
    if start <= moment < start + length {
      AllIn(hits, key, start, length);
    } else {
      NoneIn(hits, key, start, length);
    }
  }

  lemma VolleyValues(hits: seq<Hit>, n: nat, moment: real, key: seq<Value>, start: real, length: real)
    requires IsVolley(ValueCount, hits, n, moment, key)
    ensures ValuesIn(hits, key, start, length) == if start <= moment < start + length then FirstValues(n) else {}
  {
    hide FirstValues;
    if start <= moment < start + length {
      assert ValuesIn(hits, key, start, length) == set h | h in hits :: h.value;
    } else {
      assert ValuesIn(hits, key, start, length) == {};
    }
  }

  lemma VolleyMeasured(kind: Kind, hits: seq<Hit>, n: nat, moment: real, key: seq<Value>, start: real, length: real)
    requires IsVolley(kind, hits, n, moment, key)
    ensures Measure(kind, hits, key, start, length) == if start <= moment < start + length then n else 0
  {
    hide EventsIn, ValuesIn, FirstValues;
    FirstValuesSize(n);
    VolleyEvents(kind, hits, n, moment, key, start, length);
    if kind == ValueCount {
      VolleyValues(hits, n, moment, key, start, length);
    }
  }

  /** Two volleys of one group, half a window apart. */
  ghost predicate TwoVolleys(t: Test, a: seq<Hit>, b: seq<Hit>, first: nat, second: nat, key: seq<Value>) {
    IsVolley(t.kind, a, first, 0.0, key) && IsVolley(t.kind, b, second, t.span / 2.0, key)
  }

  lemma ValuesConcat(a: seq<Hit>, b: seq<Hit>, key: seq<Value>, start: real, length: real)
    ensures ValuesIn(a + b, key, start, length) == ValuesIn(a, key, start, length) + ValuesIn(b, key, start, length)
  {
    forall h
      ensures h in a + b <==> h in a || h in b
    {
    }
  }

  // A window that holds one of two volleys measures that one.
  lemma OneVolleyMeasured(t: Test, a: seq<Hit>, b: seq<Hit>, first: nat, second: nat, key: seq<Value>, start: real)
    requires TwoVolleys(t, a, b, first, second, key)
    ensures !(start <= 0.0 < start + t.span) ==>
              Measure(t.kind, a + b, key, start, t.span) == Measure(t.kind, b, key, start, t.span)
    ensures !(start <= t.span / 2.0 < start + t.span) ==>
              Measure(t.kind, a + b, key, start, t.span) == Measure(t.kind, a, key, start, t.span)
  {
    hide EventsIn, ValuesIn, FirstValues;
    EventsConcat(a, b, key, start, t.span);
    ValuesConcat(a, b, key, start, t.span);
    VolleyEvents(t.kind, a, first, 0.0, key, start, t.span);
    VolleyEvents(t.kind, b, second, t.span / 2.0, key, start, t.span);
    if t.kind == ValueCount {
      VolleyValues(a, first, 0.0, key, start, t.span);
      VolleyValues(b, second, t.span / 2.0, key, start, t.span);
    }
  }

  lemma BothVolleysMeasured(t: Test, a: seq<Hit>, b: seq<Hit>, first: nat, second: nat, key: seq<Value>)
    requires TwoVolleys(t, a, b, first, second, key) && first <= second && t.span > 0.0
    ensures Measure(t.kind, a + b, key, 0.0, t.span) == if t.kind == ValueCount then second else first + second
  {
    hide EventsIn, ValuesIn, FirstValues;
    EventsConcat(a, b, key, 0.0, t.span);
    ValuesConcat(a, b, key, 0.0, t.span);
    VolleyEvents(t.kind, a, first, 0.0, key, 0.0, t.span);
    VolleyEvents(t.kind, b, second, t.span / 2.0, key, 0.0, t.span);
    FirstValuesSize(second);
    FirstValuesGrow(first, second);
    if t.kind == ValueCount {
      VolleyValues(a, first, 0.0, key, 0.0, t.span);
      VolleyValues(b, second, t.span / 2.0, key, 0.0, t.span);
      assert FirstValues(first) + FirstValues(second) == FirstValues(second);
    }
  }

  /**
   The two windows that start at an event both contain the whole second volley; a window that starts earlier can
   contain the first volley alone.
   */
  lemma TwoVolleysMeasured(t: Test, a: seq<Hit>, b: seq<Hit>, first: nat, second: nat, key: seq<Value>)
    requires TwoVolleys(t, a, b, first, second, key) && first <= second && t.span > 0.0
    ensures Measure(t.kind, a + b, key, -0.75 * t.span, t.span) == first
    ensures Measure(t.kind, a + b, key, t.span / 2.0, t.span) == second
    ensures Measure(t.kind, a + b, key, 0.0, t.span) == if t.kind == ValueCount then second else first + second
  {
    hide Measure;
    BothVolleysMeasured(t, a, b, first, second, key);
    OneVolleyMeasured(t, a, b, first, second, key, -0.75 * t.span);
    OneVolleyMeasured(t, a, b, first, second, key, t.span / 2.0);
    VolleyMeasured(t.kind, a, first, 0.0, key, -0.75 * t.span, t.span);
    VolleyMeasured(t.kind, b, second, t.span / 2.0, key, t.span / 2.0, t.span);
  }

  /** Sizes of the two volleys that show the incompleteness of a test. */
  function Sizes(t: Test): (sizes: (nat, nat))
    requires !CompleteFor(t)
    ensures 1 <= sizes.0 <= sizes.1
  {
    match t.op
    case LT => (1, t.threshold)
    case LTE => (1, t.threshold + 1)
    case EQ => (t.threshold, t.threshold + 1)
    case NEQ => (1, t.threshold)
  }

  // With one group only, a window passes when it is not empty and the group's measure passes.
  lemma FiresIff(t: Test, hits: seq<Hit>, key: seq<Value>, start: real)
    requires forall h :: h in hits ==> h.key == key
    ensures FiresAt(t, hits, start) <==>
              (exists h :: h in hits && In(h, start, t.span))
              && Compare(t.op, Measure(t.kind, hits, key, start, t.span), t.threshold)
  {
    hide Measure;
  }

  lemma Missed(t: Test, a: seq<Hit>, b: seq<Hit>, key: seq<Value>)
    requires !CompleteFor(t) && t.span > 0.0 && TwoVolleys(t, a, b, Sizes(t).0, Sizes(t).1, key)
    ensures !Fires(t, a + b) && FiresAt(t, a + b, -0.75 * t.span)
  {
    hide Measure, FiresAt, FirstValues;
    var hits := a + b;
    TwoVolleysMeasured(t, a, b, Sizes(t).0, Sizes(t).1, key);
    assert forall h :: h in hits ==> h in a || h in b;
    assert a[0] in hits;
    FiresIff(t, hits, key, 0.0);
    FiresIff(t, hits, key, t.span / 2.0);
    FiresIff(t, hits, key, -0.75 * t.span);
  }

  // A volley on its own passes in no window that starts at one of its events.
  lemma VolleySilent(t: Test, hits: seq<Hit>, moment: real, key: seq<Value>)
    requires !CompleteFor(t) && t.span > 0.0 && IsVolley(t.kind, hits, Sizes(t).1, moment, key)
    ensures !Fires(t, hits)
  {
    hide Measure, FiresAt, FirstValues;
    VolleyMeasured(t.kind, hits, Sizes(t).1, moment, key, moment, t.span);
    FiresIff(t, hits, key, moment);
  }

  // ---------------------------------------------------------------------------------------------------------
  // Events for which the code misses a window
  // ---------------------------------------------------------------------------------------------------------

  /** The rule counts the values of a field that it also groups by. */
  predicate CountsGroupField(rule: Rule) {
    && rule.kind == ValueCount && rule.condition.Some? && rule.condition.value.field.Some?
    && rule.condition.value.field.value in rule.groupBy
  }

  /** The rules for which trying the windows that start at an event decides what the rule means. */
  predicate CompleteForRule(rule: Rule, t: Test) {
    CompleteFor(t) || t.span <= 0.0 || CountsGroupField(rule)
  }

  /** An event that matches the rule, has the given fields and, if values are counted, the given value. */
  function Shot(rule: Rule, value: int, moment: real, fields: map<string, int>): Event
    requires CheckRule(rule).Ok?
  {
    var counted := if rule.kind == ValueCount then fields[rule.condition.value.field.value := value] else fields;
    var reference := rule.references[0];
    Event(At(moment), {if reference.Some? then reference.value else 0}, counted)
  }

  function Shots(rule: Rule, n: nat, moment: real, fields: map<string, int>): (r: seq<Event>)
    requires CheckRule(rule).Ok?
    ensures |r| == n
  {
    if n == 0 then [] else Shots(rule, n - 1, moment, fields) + [Shot(rule, n, moment, fields)]
  }

  /** The group key of events with these fields. */
  function FieldsKey(fields: map<string, int>, groupBy: seq<string>): seq<Value> {
    KeyOf(Event(Missing, {}, fields), groupBy)
  }

  lemma ShotHit(rule: Rule, value: int, moment: real, fields: map<string, int>)
    requires CheckRule(rule).Ok? && !CountsGroupField(rule)
    ensures var e := Shot(rule, value, moment, fields);
            && Relevant(rule, e) && e.timestamp == At(moment)
            && HitOf(rule, e).moment == moment && HitOf(rule, e).key == FieldsKey(fields, rule.groupBy)
            && (rule.kind == ValueCount ==> HitOf(rule, e).value == Some(value))
  {
    var e := Shot(rule, value, moment, fields);
    assert rule.references[0] in rule.references && rule.references[0].Some?;
    assert KeyOf(e, rule.groupBy) == FieldsKey(fields, rule.groupBy);
  }

  /** Shots are collected as a volley. */
  lemma {:induction false} ShotsCollected(rule: Rule, n: nat, moment: real, fields: map<string, int>)
    requires CheckRule(rule).Ok? && !CountsGroupField(rule)
    ensures Collect(rule, Shots(rule, n, moment, fields)).Ok?
    ensures IsVolley(rule.kind, Collect(rule, Shots(rule, n, moment, fields)).value, n, moment,
                     FieldsKey(fields, rule.groupBy))
  {
    hide CheckRule, CountsGroupField, Shot, Relevant, HitOf, FieldsKey;
    if n > 0 {
      var shots := Shots(rule, n, moment, fields);
      assert shots[..n - 1] == Shots(rule, n - 1, moment, fields);
      ShotsCollected(rule, n - 1, moment, fields);
      ShotHit(rule, n, moment, fields);
      OneMoreShot(rule.kind, Collect(rule, shots[..n - 1]).value, HitOf(rule, shots[n - 1]), n, moment,
                  FieldsKey(fields, rule.groupBy));
    }
  }

  lemma OneMoreShot(kind: Kind, hits: seq<Hit>, h: Hit, n: nat, moment: real, key: seq<Value>)
    requires n > 0 && IsVolley(kind, hits, n - 1, moment, key)
    requires h.moment == moment && h.key == key && (kind == ValueCount ==> h.value == Some(n))
    ensures IsVolley(kind, hits + [h], n, moment, key)
  {
    forall g
      ensures g in hits + [h] <==> g in hits || g == h
    {
    }
  }

  /** Two volleys of events. */
  function TwoShots(rule: Rule, t: Test): seq<Event>
    requires CheckRule(rule) == Ok(t) && !CompleteFor(t)
  {
    Shots(rule, Sizes(t).0, 0.0, map[]) + Shots(rule, Sizes(t).1, t.span / 2.0, map[])
  }

  lemma TwoShotsCollected(rule: Rule, t: Test) returns (a: seq<Hit>, b: seq<Hit>)
    requires CheckRule(rule) == Ok(t) && !CompleteForRule(rule, t)
    ensures Collect(rule, TwoShots(rule, t)) == Ok(a + b)
    ensures TwoVolleys(t, a, b, Sizes(t).0, Sizes(t).1, FieldsKey(map[], rule.groupBy))
  {
    hide Collect, Shots, Sizes, IsVolley, CompleteFor;
    TestKind(rule, t);
    var first := Shots(rule, Sizes(t).0, 0.0, map[]);
    var second := Shots(rule, Sizes(t).1, t.span / 2.0, map[]);
    ShotsCollected(rule, Sizes(t).0, 0.0, map[]);
    ShotsCollected(rule, Sizes(t).1, t.span / 2.0, map[]);
    CollectConcat(rule, first, second);
    a, b := Collect(rule, first).value, Collect(rule, second).value;
  }

  lemma TestKind(rule: Rule, t: Test)
    requires CheckRule(rule) == Ok(t)
    ensures t.kind == rule.kind
  {
  }

  lemma GroupFieldFixed(rule: Rule, e: Event, f: Event)
    requires CountsGroupField(rule) && e.timestamp.At? && f.timestamp.At?
    ensures HitOf(rule, e).key == HitOf(rule, f).key ==> HitOf(rule, e).value == HitOf(rule, f).value
  {
    var i :| 0 <= i < |rule.groupBy| && rule.groupBy[i] == rule.condition.value.field.value;
    if HitOf(rule, e).key == HitOf(rule, f).key {
      assert HitOf(rule, e).key[i] == HitOf(rule, f).key[i];
    }
  }

  lemma {:induction false} CollectedFrom(rule: Rule, events: seq<Event>, h: Hit) returns (e: Event)
    requires Collect(rule, events).Ok? && h in Collect(rule, events).value
    ensures e in events && e.timestamp.At? && h == HitOf(rule, e)
  {
    hide HitOf, Relevant;
    var n := |events| - 1;
    var before := Collect(rule, events[..n]).value;
    if h in before {
      e := CollectedFrom(rule, events[..n], h);
    } else {
      e := events[n];
    }
  }

  lemma CollectedOneValue(rule: Rule, events: seq<Event>)
    requires CountsGroupField(rule) && Collect(rule, events).Ok?
    ensures OneValue(Collect(rule, events).value)
  {
    hide HitOf, Collect, CountsGroupField;
    var hits := Collect(rule, events).value;
    forall g, h | g in hits && h in hits && g.key == h.key
      ensures g.value == h.value
    {
      var d := CollectedFrom(rule, events, g);
      var e := CollectedFrom(rule, events, h);
      GroupFieldFixed(rule, d, e);
    }
  }

  /** The verdict over all windows, wherever they start. */
  ghost function MeantVerdict(rule: Rule, events: seq<Event>): Result<bool, Unsupported> {
    var t :- CheckRule(rule);
    var hits :- Collect(rule, events);
    Ok(FiresSomewhere(t, hits))
  }

  lemma VerdictIsMeant(rule: Rule, t: Test, events: seq<Event>)
    requires CheckRule(rule) == Ok(t) && CompleteForRule(rule, t)
    ensures Verdict(rule, events) == MeantVerdict(rule, events)
  {
    hide Collect, CheckRule, CompleteFor, Fires, FiresSomewhere, OneValue;
    TestKind(rule, t);
    var hits := Collect(rule, events);
    if hits.Ok? {
      if CountsGroupField(rule) {
        CollectedOneValue(rule, events);
      }
      Complete(t, hits.value);
    }
  }

  lemma VerdictMissed(rule: Rule, t: Test)
    requires CheckRule(rule) == Ok(t) && !CompleteForRule(rule, t)
    ensures Verdict(rule, TwoShots(rule, t)) == Ok(false) && MeantVerdict(rule, TwoShots(rule, t)) == Ok(true)
  {
    hide Collect, CheckRule, CompleteFor, Fires, FiresAt, TwoVolleys, Sizes, TwoShots;
    var a, b := TwoShotsCollected(rule, t);
    Missed(t, a, b, FieldsKey(map[], rule.groupBy));
  }

  /**
   The verdict is what the rule means, on every sequence of events, for exactly the rules of `CompleteForRule`: those
   whose comparison is one of `CompleteFor`, whose window holds nothing, or that count a field they group by.
   */
  lemma CompleteIff(rule: Rule, t: Test)
    requires CheckRule(rule) == Ok(t)
    ensures (forall events :: Verdict(rule, events) == MeantVerdict(rule, events)) <==> CompleteForRule(rule, t)
  {
    hide Verdict, MeantVerdict, CheckRule, CompleteForRule;
    if CompleteForRule(rule, t) {
      forall events
        ensures Verdict(rule, events) == MeantVerdict(rule, events)
      {
        VerdictIsMeant(rule, t, events);
      }
    } else {
      VerdictMissed(rule, t);
    }
  }

  // ---------------------------------------------------------------------------------------------------------
  // Groups do not influence each other, for the same rules and for rules without groups
  // ---------------------------------------------------------------------------------------------------------

  function OfGroup(hits: seq<Hit>, key: seq<Value>): seq<Hit> {
    if hits == [] then []
    else
      var n := |hits| - 1;
      var before := OfGroup(hits[..n], key);
      if hits[n].key == key then before + [hits[n]] else before
  }

  lemma {:induction false} OfGroupHits(hits: seq<Hit>, key: seq<Value>)
    ensures forall h :: h in OfGroup(hits, key) <==> h in hits && h.key == key
  {
    if hits != [] {
      OfGroupHits(hits[..|hits| - 1], key);
      assert forall h :: h in hits <==> h in hits[..|hits| - 1] || h == hits[|hits| - 1];
    }
  }

  lemma EventsStep(hits: seq<Hit>, h: Hit, key: seq<Value>, start: real, length: real)
    ensures EventsIn(hits + [h], key, start, length)
         == EventsIn(hits, key, start, length) + if In(h, start, length) && h.key == key then 1 else 0
  {
    assert (hits + [h])[..|hits|] == hits;
  }

  lemma {:induction false} OfGroupEvents(hits: seq<Hit>, key: seq<Value>, start: real, length: real)
    ensures EventsIn(OfGroup(hits, key), key, start, length) == EventsIn(hits, key, start, length)
  {
    if hits != [] {
      hide EventsIn;
      var n := |hits| - 1;
      OfGroupEvents(hits[..n], key, start, length);
      assert hits == hits[..n] + [hits[n]];
      EventsStep(hits[..n], hits[n], key, start, length);
      EventsStep(OfGroup(hits[..n], key), hits[n], key, start, length);
    }
  }

  lemma OfGroupMeasure(kind: Kind, hits: seq<Hit>, key: seq<Value>, start: real, length: real)
    ensures Measure(kind, OfGroup(hits, key), key, start, length) == Measure(kind, hits, key, start, length)
  {
    hide EventsIn, OfGroup;
    OfGroupEvents(hits, key, start, length);
    OfGroupHits(hits, key);
    assert ValuesIn(OfGroup(hits, key), key, start, length) == ValuesIn(hits, key, start, length);
  }

  /** The test passes on the events of some single group. */
  ghost predicate FiresOnSomeGroup(t: Test, hits: seq<Hit>) {
    exists key :: Fires(t, OfGroup(hits, key))
  }

  lemma GroupFires(t: Test, hits: seq<Hit>, key: seq<Value>)
    requires Fires(t, OfGroup(hits, key))
    ensures Fires(t, hits)
  {
    hide Measure, OfGroup;
    var group := OfGroup(hits, key);
    OfGroupHits(hits, key);
    var a :| a in group && FiresAt(t, group, a.moment);
    OfGroupMeasure(t.kind, hits, key, a.moment, t.span);
    assert FiresAt(t, hits, a.moment);
  }

  lemma GroupLocal(t: Test, hits: seq<Hit>)
    requires CompleteFor(t) || t.span <= 0.0 || (t.kind == ValueCount && OneValue(hits))
    ensures Fires(t, hits) <==> FiresOnSomeGroup(t, hits)
  {
    hide CompleteFor, Measure, OfGroup;
    if FiresOnSomeGroup(t, hits) {
      var key :| Fires(t, OfGroup(hits, key));
      GroupFires(t, hits, key);
    }
    if Fires(t, hits) {
      var a :| a in hits && FiresAt(t, hits, a.moment);
      var h :| h in hits && In(h, a.moment, t.span)
               && Compare(t.op, Measure(t.kind, hits, h.key, a.moment, t.span), t.threshold);
      var group := OfGroup(hits, h.key);
      OfGroupHits(hits, h.key);
      OfGroupMeasure(t.kind, hits, h.key, a.moment, t.span);
      assert FiresAt(t, group, a.moment);
      Complete(t, group);
    }
  }

  lemma {:induction false} OnlyGroup(hits: seq<Hit>, key: seq<Value>)
    requires forall h :: h in hits ==> h.key == key
    ensures OfGroup(hits, key) == hits
    ensures forall other :: other != key ==> OfGroup(hits, other) == []
  {
    if hits != [] {
      var n := |hits| - 1;
      assert hits[n] in hits;
      OnlyGroup(hits[..n], key);
      assert hits == hits[..n] + [hits[n]];
    }
  }

  lemma {:induction false} OfGroupConcat(a: seq<Hit>, b: seq<Hit>, key: seq<Value>)
    ensures OfGroup(a + b, key) == OfGroup(a, key) + OfGroup(b, key)
  {
    if b == [] {
      assert a + b == a;
    } else {
      assert (a + b)[..|a + b| - 1] == a + b[..|b| - 1];
      OfGroupConcat(a, b[..|b| - 1], key);
    }
  }

  /** With one group there is none to be influenced by. */
  lemma OneGroupLocal(t: Test, hits: seq<Hit>, key: seq<Value>)
    requires forall h :: h in hits ==> h.key == key
    ensures Fires(t, hits) <==> FiresOnSomeGroup(t, hits)
  {
    hide FiresAt, OfGroup;
    OnlyGroup(hits, key);
    if FiresOnSomeGroup(t, hits) {
      var other :| Fires(t, OfGroup(hits, other));
      assert other == key;
    }
  }

  // A third volley, of another group, adds a window in which the first group passes, and passes in none itself.
  lemma Influenced(t: Test, a: seq<Hit>, b: seq<Hit>, c: seq<Hit>, key: seq<Value>, other: seq<Value>)
    requires !CompleteFor(t) && t.span > 0.0 && key != other
    requires TwoVolleys(t, a, b, Sizes(t).0, Sizes(t).1, key)
    requires IsVolley(t.kind, c, Sizes(t).1, -0.75 * t.span, other)
    ensures Fires(t, a + b + c) && !FiresOnSomeGroup(t, a + b + c)
  {
    hide Fires, FiresAt, OfGroup, CompleteFor;
    Missed(t, a, b, key);
    VolleySilent(t, c, -0.75 * t.span, other);
    TwoGroups(a + b, c, key, other);
    IntruderFires(t, a + b + c, c, key, -0.75 * t.span);
    TwoGroupsSilent(t, a + b + c, key, other);
  }

  lemma TwoGroups(own: seq<Hit>, intruder: seq<Hit>, key: seq<Value>, other: seq<Value>)
    requires key != other
    requires (forall h :: h in own ==> h.key == key) && forall h :: h in intruder ==> h.key == other
    ensures OfGroup(own + intruder, key) == own && OfGroup(own + intruder, other) == intruder
    ensures forall k :: k != key && k != other ==> OfGroup(own + intruder, k) == []
  {
    hide OfGroup;
    OnlyGroup(own, key);
    OnlyGroup(intruder, other);
    forall k: seq<Value>
      ensures OfGroup(own + intruder, k) == OfGroup(own, k) + OfGroup(intruder, k)
    {
      OfGroupConcat(own, intruder, k);
    }
    assert own + [] == own && [] + intruder == intruder;
  }

  lemma IntruderFires(t: Test, hits: seq<Hit>, intruder: seq<Hit>, key: seq<Value>, at: real)
    requires FiresAt(t, OfGroup(hits, key), at) && intruder != []
    requires forall h :: h in intruder ==> h in hits && h.moment == at
    ensures Fires(t, hits)
  {
    hide Measure, OfGroup;
    OfGroupHits(hits, key);
    OfGroupMeasure(t.kind, hits, key, at, t.span);
    assert intruder[0] in hits;
    assert FiresAt(t, hits, at);
  }

  lemma TwoGroupsSilent(t: Test, hits: seq<Hit>, k: seq<Value>, l: seq<Value>)
    requires !Fires(t, OfGroup(hits, k)) && !Fires(t, OfGroup(hits, l))
    requires forall key :: key != k && key != l ==> OfGroup(hits, key) == []
    ensures !FiresOnSomeGroup(t, hits)
  {
    hide FiresAt, OfGroup;
  }

  /** The events of one group. */
  function EventsOf(rule: Rule, events: seq<Event>, key: seq<Value>): seq<Event> {
    if events == [] then []
    else
      var n := |events| - 1;
      var before := EventsOf(rule, events[..n], key);
      if KeyOf(events[n], rule.groupBy) == key then before + [events[n]] else before
  }

  lemma CollectStep(rule: Rule, events: seq<Event>, e: Event)
    requires Collect(rule, events).Ok?
    ensures !Relevant(rule, e) ==> Collect(rule, events + [e]) == Collect(rule, events)
    ensures Relevant(rule, e) ==>
              if e.timestamp.At? then Collect(rule, events + [e]) == Ok(Collect(rule, events).value + [HitOf(rule, e)])
              else Collect(rule, events + [e]).Err?
  {
    hide HitOf, Relevant;
    assert (events + [e])[..|events|] == events;
  }

  lemma CollectPrefix(rule: Rule, events: seq<Event>)
    requires events != [] && Collect(rule, events).Ok?
    ensures Collect(rule, events[..|events| - 1]).Ok?
  {
  }

  lemma OfGroupStep(hits: seq<Hit>, h: Hit, key: seq<Value>)
    ensures OfGroup(hits + [h], key) == if h.key == key then OfGroup(hits, key) + [h] else OfGroup(hits, key)
  {
    assert (hits + [h])[..|hits|] == hits;
  }

  lemma EventsOfStep(rule: Rule, events: seq<Event>, e: Event, key: seq<Value>)
    ensures EventsOf(rule, events + [e], key)
         == if KeyOf(e, rule.groupBy) == key then EventsOf(rule, events, key) + [e] else EventsOf(rule, events, key)
  {
    assert (events + [e])[..|events|] == events;
  }

  // One more event, collected with its group and with all events.
  lemma GroupCollectedStep(rule: Rule, events: seq<Event>, e: Event, key: seq<Value>)
    requires Collect(rule, events).Ok? && Collect(rule, events + [e]).Ok?
    requires Collect(rule, EventsOf(rule, events, key)) == Ok(OfGroup(Collect(rule, events).value, key))
    ensures Collect(rule, EventsOf(rule, events + [e], key)) == Ok(OfGroup(Collect(rule, events + [e]).value, key))
  {
    hide Collect, Relevant, OfGroup, EventsOf;
    CollectStep(rule, events, e);
    CollectStep(rule, EventsOf(rule, events, key), e);
    EventsOfStep(rule, events, e, key);
    if Relevant(rule, e) {
      OfGroupStep(Collect(rule, events).value, HitOf(rule, e), key);
    }
  }

  /** Collecting from one group's events is keeping that group's part of what is collected. */
  lemma {:induction false} GroupCollected(rule: Rule, events: seq<Event>, key: seq<Value>)
    requires Collect(rule, events).Ok?
    ensures Collect(rule, EventsOf(rule, events, key)) == Ok(OfGroup(Collect(rule, events).value, key))
  {
    if events == [] {
      NothingCollected(rule, key);
    } else {
      hide Collect, OfGroup, EventsOf;
      var n := |events| - 1;
      assert events == events[..n] + [events[n]];
      CollectPrefix(rule, events);
      GroupCollected(rule, events[..n], key);
      GroupCollectedStep(rule, events[..n], events[n], key);
    }
  }

  lemma NothingCollected(rule: Rule, key: seq<Value>)
    ensures Collect(rule, []) == Ok([]) && EventsOf(rule, [], key) == [] && OfGroup([], key) == []
  {
  }

  /** The rule fires on the events of some single group. */
  ghost predicate SomeGroupFires(rule: Rule, events: seq<Event>) {
    exists key :: Verdict(rule, EventsOf(rule, events, key)) == Ok(true)
  }

  lemma SomeGroupFiresIff(rule: Rule, t: Test, events: seq<Event>)
    requires CheckRule(rule) == Ok(t) && Collect(rule, events).Ok?
    ensures SomeGroupFires(rule, events) <==> FiresOnSomeGroup(t, Collect(rule, events).value)
  {
    hide Collect, CheckRule, Fires, OfGroup, EventsOf;
    var hits := Collect(rule, events).value;
    forall key: seq<Value>
      ensures Verdict(rule, EventsOf(rule, events, key)) == Ok(Fires(t, OfGroup(hits, key)))
    {
      GroupCollected(rule, events, key);
    }
  }

  lemma NoGrouping(rule: Rule, events: seq<Event>)
    requires rule.groupBy == [] && Collect(rule, events).Ok?
    ensures forall h :: h in Collect(rule, events).value ==> h.key == []
  {
    hide Collect;
    forall h | h in Collect(rule, events).value
      ensures h.key == []
    {
      var e := CollectedFrom(rule, events, h);
    }
  }

  /** The rules under which one group's events cannot change what is found in another. */
  predicate LocalForRule(rule: Rule, t: Test) {
    CompleteForRule(rule, t) || rule.groupBy == []
  }

  /** On these events the rule fires exactly when it fires on one group's events alone. */
  ghost predicate Local(rule: Rule, events: seq<Event>) {
    Verdict(rule, events) == Ok(true) <==> SomeGroupFires(rule, events)
  }

  lemma RuleLocal(rule: Rule, t: Test, events: seq<Event>)
    requires CheckRule(rule) == Ok(t) && LocalForRule(rule, t) && Collect(rule, events).Ok?
    ensures Local(rule, events)
  {
    hide Collect, CheckRule, CompleteFor, Fires, OneValue, CountsGroupField, SomeGroupFires, FiresOnSomeGroup;
    var hits := Collect(rule, events).value;
    TestKind(rule, t);
    SomeGroupFiresIff(rule, t, events);
    if rule.groupBy == [] {
      NoGrouping(rule, events);
      OneGroupLocal(t, hits, []);
    } else {
      if CountsGroupField(rule) {
        CountsValues(rule);
        CollectedOneValue(rule, events);
      }
      GroupLocal(t, hits);
    }
  }

  lemma CountsValues(rule: Rule)
    requires CountsGroupField(rule)
    ensures rule.kind == ValueCount
  {
  }

  /** Two volleys of one group, and a third of another group that only adds a window to try. */
  function ThreeShots(rule: Rule, t: Test): seq<Event>
    requires CheckRule(rule) == Ok(t) && !LocalForRule(rule, t)
  {
    TwoShots(rule, t) + Shots(rule, Sizes(t).1, -0.75 * t.span, map[rule.groupBy[0] := 0])
  }

  lemma OtherKey(groupBy: seq<string>)
    requires groupBy != []
    ensures FieldsKey(map[], groupBy) != FieldsKey(map[groupBy[0] := 0], groupBy)
  {
    assert FieldsKey(map[], groupBy)[0] == None && FieldsKey(map[groupBy[0] := 0], groupBy)[0] == Some(0);
  }

  lemma RuleInfluenced(rule: Rule, t: Test)
    requires CheckRule(rule) == Ok(t) && !LocalForRule(rule, t)
    ensures Collect(rule, ThreeShots(rule, t)).Ok? && !Local(rule, ThreeShots(rule, t))
  {
    hide Collect, CheckRule, CompleteFor, Fires, FiresAt, TwoVolleys, IsVolley, Sizes, TwoShots, Shots;
    hide SomeGroupFires, FiresOnSomeGroup;
    var intruder := map[rule.groupBy[0] := 0];
    var third := Shots(rule, Sizes(t).1, -0.75 * t.span, intruder);
    var key, other := FieldsKey(map[], rule.groupBy), FieldsKey(intruder, rule.groupBy);
    TestKind(rule, t);
    OtherKey(rule.groupBy);
    var a, b := TwoShotsCollected(rule, t);
    ShotsCollected(rule, Sizes(t).1, -0.75 * t.span, intruder);
    CollectConcat(rule, TwoShots(rule, t), third);
    var c := Collect(rule, third).value;
    Influenced(t, a, b, c, key, other);
    SomeGroupFiresIff(rule, t, ThreeShots(rule, t));
  }

  /**
   The rule fires exactly when it fires on one group's events alone, on every sequence of events with timestamps, for
   exactly the rules of `LocalForRule`: the complete ones and those that do not group.
   */
  lemma GroupLocalIff(rule: Rule, t: Test)
    requires CheckRule(rule) == Ok(t)
    ensures (forall events :: Collect(rule, events).Ok? ==> Local(rule, events)) <==> LocalForRule(rule, t)
  {
    hide Collect, CheckRule, Local, LocalForRule;
    if LocalForRule(rule, t) {
      forall events | Collect(rule, events).Ok?
        ensures Local(rule, events)
      {
        RuleLocal(rule, t, events);
      }
    } else {
      RuleInfluenced(rule, t);
    }
  }

  // ---------------------------------------------------------------------------------------------------------
  // What silence says
  // ---------------------------------------------------------------------------------------------------------

  lemma {:induction false} EventsSplit(hits: seq<Hit>, key: seq<Value>, start: real, first: real, second: real)
    requires first >= 0.0 && second >= 0.0
    ensures EventsIn(hits, key, start, first + second)
         == EventsIn(hits, key, start, first) + EventsIn(hits, key, start + first, second)
  {
    if hits != [] {
      EventsSplit(hits[..|hits| - 1], key, start, first, second);
    }
  }

  lemma MeasureSplit(kind: Kind, hits: seq<Hit>, key: seq<Value>, start: real, first: real, second: real)
    requires first >= 0.0 && second >= 0.0
    ensures Measure(kind, hits, key, start, first + second)
         <= Measure(kind, hits, key, start, first) + Measure(kind, hits, key, start + first, second)
  {
    EventsSplit(hits, key, start, first, second);
    var a, b := ValuesIn(hits, key, start, first), ValuesIn(hits, key, start + first, second);
    assert ValuesIn(hits, key, start, first + second) == a + b;
    assert |a + b| == |a| + |b| - |a * b|;
  }

  /**
   A silent "more than k" rule (at least `k + 1`) bounds the density of events: any interval of `m` windows' length,
   wherever it starts, holds at most `m * k` events, or distinct values, of any one group.
   */
  lemma SilenceBoundsDensity(t: Test, hits: seq<Hit>, key: seq<Value>, start: real, m: nat, k: nat)
    requires t.op == GTE && t.threshold == k + 1 && t.span >= 0.0 && !Fires(t, hits)
    ensures Measure(t.kind, hits, key, start, m as real * t.span) <= m * k
  {
    hide Measure, Fires;
    var length := m as real * t.span;
    LengthOfWindows(m, t.span);
    Repeated(m, k);
    assert length == Windows(m, t.span);
    SilentLength(t, hits, key, start, m, k, length);
  }

  lemma SilentLength(t: Test, hits: seq<Hit>, key: seq<Value>, start: real, m: nat, k: nat, length: real)
    requires t.op == GTE && t.threshold == k + 1 && t.span >= 0.0 && !Fires(t, hits)
    requires length == Windows(m, t.span)
    ensures Measure(t.kind, hits, key, start, length) <= Times(m, k)
  {
    hide Measure, Fires;
    SilentWindows(t, hits, key, start, m, k);
  }

  /** The length of `m` windows in a row, and `m` times a bound, as sums. */
  function Windows(m: nat, span: real): real {
    if m == 0 then 0.0 else Windows(m - 1, span) + span
  }

  function Times(m: nat, k: nat): nat {
    if m == 0 then 0 else Times(m - 1, k) + k
  }

  lemma {:induction false} LengthOfWindows(m: nat, span: real)
    ensures Windows(m, span) == m as real * span
    ensures span >= 0.0 ==> Windows(m, span) >= 0.0
  {
    if m > 0 {
      LengthOfWindows(m - 1, span);
      assert m as real == (m - 1) as real + 1.0;
      Distributes((m - 1) as real, span);
    }
  }

  lemma Distributes(x: real, y: real)
    ensures (x + 1.0) * y == x * y + y
  {
  }

  lemma {:induction false} Repeated(m: nat, k: nat)
    ensures Times(m, k) == m * k
  {
    if m > 0 {
      Repeated(m - 1, k);
      assert m * k == (m - 1) * k + k;
    }
  }

  lemma {:induction false} SilentWindows(t: Test, hits: seq<Hit>, key: seq<Value>, start: real, m: nat, k: nat)
    requires t.op == GTE && t.threshold == k + 1 && t.span >= 0.0 && !Fires(t, hits)
    ensures Measure(t.kind, hits, key, start, Windows(m, t.span)) <= Times(m, k)
  {
    hide Measure, Fires;
    if m == 0 {
      EmptyWindow(t.kind, hits, key, start);
    } else {
      var shorter := Windows(m - 1, t.span);
      LengthOfWindows(m - 1, t.span);
      SilentWindows(t, hits, key, start, m - 1, k);
      MeasureSplit(t.kind, hits, key, start, shorter, t.span);
      SilentWindow(t, hits, key, start + shorter);
    }
  }

  lemma EmptyWindow(kind: Kind, hits: seq<Hit>, key: seq<Value>, start: real)
    ensures Measure(kind, hits, key, start, 0.0) == 0
  {
    NoneIn(hits, key, start, 0.0);
    assert ValuesIn(hits, key, start, 0.0) == {};
  }

  lemma SilentWindow(t: Test, hits: seq<Hit>, key: seq<Value>, start: real)
    requires t.op == GTE && t.threshold >= 1 && !Fires(t, hits)
    ensures Measure(t.kind, hits, key, start, t.span) <= t.threshold - 1
  {
    Complete(t, hits);
    if h :| h in hits && h.key == key && In(h, start, t.span) {
      assert !FiresAt(t, hits, start);
    } else {
      NoneIn(hits, key, start, t.span);
      assert ValuesIn(hits, key, start, t.span) == {};
    }
  }

  lemma {:induction false} ValuesAtMostEvents(hits: seq<Hit>, key: seq<Value>, start: real, length: real)
    ensures |ValuesIn(hits, key, start, length)| <= EventsIn(hits, key, start, length)
  {
    if hits == [] {
      assert ValuesIn(hits, key, start, length) == {};
    } else {
      var n := |hits| - 1;
      var before := ValuesIn(hits[..n], key, start, length);
      ValuesAtMostEvents(hits[..n], key, start, length);
      assert forall h :: h in hits <==> h in hits[..n] || h == hits[n];
      if In(hits[n], start, length) && hits[n].key == key {
        assert ValuesIn(hits, key, start, length) == before + {hits[n].value};
      } else {
        assert ValuesIn(hits, key, start, length) == before;
      }
    }
  }

  /** Where distinct values reach a threshold, events do. */
  lemma ValueCountImpliesEventCount(op: Operator, threshold: int, span: real, hits: seq<Hit>)
    requires op == GT || op == GTE
    requires Fires(Test(ValueCount, op, threshold, span), hits)
    ensures Fires(Test(EventCount, op, threshold, span), hits)
  {
    var t, t' := Test(ValueCount, op, threshold, span), Test(EventCount, op, threshold, span);
    var a :| a in hits && FiresAt(t, hits, a.moment);
    var h :| h in hits && In(h, a.moment, span) && Compare(op, Measure(ValueCount, hits, h.key, a.moment, span), threshold);
    ValuesAtMostEvents(hits, h.key, a.moment, span);
    assert FiresAt(t', hits, a.moment);
  }

  // ---------------------------------------------------------------------------------------------------------
  // The verdict depends on the events alone, not on their order or the origin of time
  // ---------------------------------------------------------------------------------------------------------

  /** A permutation of `a` holds `a`'s last element somewhere, and around it a permutation of the others. */
  lemma TakeOut<T>(a: seq<T>, b: seq<T>) returns (i: nat)
    requires multiset(a) == multiset(b) && a != []
    ensures i < |b| && b[i] == a[|a| - 1]
    ensures multiset(a[..|a| - 1]) == multiset(b[..i] + b[i + 1..])
  {
    var n := |a| - 1;
    assert a[n] in multiset(a);
    i :| 0 <= i < |b| && b[i] == a[n];
    assert a == a[..n] + [a[n]];
    assert b == b[..i] + [b[i]] + b[i + 1..];
    assert multiset(a[..n]) == multiset(a) - multiset{a[n]};
    assert multiset(b[..i] + b[i + 1..]) == multiset(b) - multiset{b[i]};
  }

  lemma {:induction false} EventsPermuted(a: seq<Hit>, b: seq<Hit>, key: seq<Value>, start: real, length: real)
    requires multiset(a) == multiset(b)
    ensures EventsIn(a, key, start, length) == EventsIn(b, key, start, length)
    decreases |a|
  {
    if a == [] {
      assert |multiset(b)| == 0;
    } else {
      var i := TakeOut(a, b);
      EventsPermuted(a[..|a| - 1], b[..i] + b[i + 1..], key, start, length);
      hide EventsIn;
      assert a == a[..|a| - 1] + [b[i]];
      assert b == (b[..i] + [b[i]]) + b[i + 1..];
      EventsConcat(a[..|a| - 1], [b[i]], key, start, length);
      EventsConcat(b[..i] + [b[i]], b[i + 1..], key, start, length);
      EventsConcat(b[..i], [b[i]], key, start, length);
      EventsConcat(b[..i], b[i + 1..], key, start, length);
    }
  }

  lemma PermutedFiresAt(t: Test, a: seq<Hit>, b: seq<Hit>, start: real)
    requires multiset(a) == multiset(b)
    ensures FiresAt(t, a, start) ==> FiresAt(t, b, start)
  {
    if FiresAt(t, a, start) {
      var h :| h in a && In(h, start, t.span) && Compare(t.op, Measure(t.kind, a, h.key, start, t.span), t.threshold);
      SameMembers(a, b);
      EventsPermuted(a, b, h.key, start, t.span);
      assert ValuesIn(a, h.key, start, t.span) == ValuesIn(b, h.key, start, t.span);
    }
  }

  lemma SameMembers<T>(a: seq<T>, b: seq<T>)
    requires multiset(a) == multiset(b)
    ensures forall x :: x in a <==> x in b
  {
    forall x
      ensures x in a <==> x in b
    {
      assert x in multiset(a) <==> x in multiset(b);
    }
  }

  lemma PermutedFires(t: Test, a: seq<Hit>, b: seq<Hit>)
    requires multiset(a) == multiset(b)
    ensures Fires(t, a) <==> Fires(t, b)
  {
    hide FiresAt;
    SameMembers(a, b);
    forall start: real
      ensures FiresAt(t, a, start) <==> FiresAt(t, b, start)
    {
      PermutedFiresAt(t, a, b, start);
      PermutedFiresAt(t, b, a, start);
    }
  }

  lemma {:induction false} CollectConcat(rule: Rule, a: seq<Event>, b: seq<Event>)
    ensures Collect(rule, a + b).Ok? <==> Collect(rule, a).Ok? && Collect(rule, b).Ok?
    ensures Collect(rule, a + b).Ok? ==>
              Collect(rule, a + b).value == Collect(rule, a).value + Collect(rule, b).value
  {
    hide Relevant, HitOf;
    if b == [] {
      assert a + b == a;
    } else {
      assert (a + b)[..|a + b| - 1] == a + b[..|b| - 1];
      CollectConcat(rule, a, b[..|b| - 1]);
    }
  }

  lemma {:induction false} CollectPermuted(rule: Rule, a: seq<Event>, b: seq<Event>)
    requires multiset(a) == multiset(b)
    ensures Collect(rule, a).Ok? <==> Collect(rule, b).Ok?
    ensures Collect(rule, a).Ok? ==> multiset(Collect(rule, a).value) == multiset(Collect(rule, b).value)
    decreases |a|
  {
    hide Collect;
    if a == [] {
      assert |multiset(b)| == 0;
    } else {
      var i := TakeOut(a, b);
      CollectPermuted(rule, a[..|a| - 1], b[..i] + b[i + 1..]);
      assert a == a[..|a| - 1] + [b[i]];
      assert b == (b[..i] + [b[i]]) + b[i + 1..];
      CollectConcat(rule, a[..|a| - 1], [b[i]]);
      CollectConcat(rule, b[..i] + [b[i]], b[i + 1..]);
      CollectConcat(rule, b[..i], [b[i]]);
      CollectConcat(rule, b[..i], b[i + 1..]);
    }
  }

  /** Listing the same events in another order changes neither the verdict nor whether there is one. */
  lemma VerdictPermuted(rule: Rule, a: seq<Event>, b: seq<Event>)
    requires multiset(a) == multiset(b)
    ensures Verdict(rule, a).Ok? <==> Verdict(rule, b).Ok?
    ensures Verdict(rule, a).Ok? ==> Verdict(rule, a) == Verdict(rule, b)
  {
    hide Fires, Collect, CheckRule;
    CollectPermuted(rule, a, b);
    var t, hits := CheckRule(rule), Collect(rule, a);
    if t.Ok? && hits.Ok? {
      PermutedFires(t.value, hits.value, Collect(rule, b).value);
    }
  }

  function Postponed(h: Hit, delay: real): Hit {
    h.(moment := h.moment + delay)
  }

  function Delayed(hits: seq<Hit>, delay: real): (r: seq<Hit>)
    ensures |r| == |hits| && forall i :: 0 <= i < |hits| ==> r[i] == Postponed(hits[i], delay)
  {
    seq(|hits|, i requires 0 <= i < |hits| => Postponed(hits[i], delay))
  }

  lemma {:induction false} EventsDelayed(hits: seq<Hit>, delay: real, key: seq<Value>, start: real, length: real)
    ensures EventsIn(Delayed(hits, delay), key, start + delay, length) == EventsIn(hits, key, start, length)
  {
    if hits != [] {
      var n := |hits| - 1;
      EventsDelayed(hits[..n], delay, key, start, length);
      assert Delayed(hits, delay)[..n] == Delayed(hits[..n], delay);
    }
  }

  lemma ValuesDelayed(hits: seq<Hit>, delay: real, key: seq<Value>, start: real, length: real)
    ensures ValuesIn(Delayed(hits, delay), key, start + delay, length) == ValuesIn(hits, key, start, length)
  {
    var late := Delayed(hits, delay);
    forall h | h in hits
      ensures Postponed(h, delay) in late
    {
      var i :| 0 <= i < |hits| && hits[i] == h;
      assert late[i] == Postponed(h, delay);
    }
    forall v | v in ValuesIn(hits, key, start, length)
      ensures v in ValuesIn(late, key, start + delay, length)
    {
      var h :| h in hits && In(h, start, length) && h.key == key && h.value == v;
      assert Postponed(h, delay) in late;
    }
  }

  lemma MeasureDelayed(kind: Kind, hits: seq<Hit>, delay: real, key: seq<Value>, start: real, length: real)
    ensures Measure(kind, Delayed(hits, delay), key, start + delay, length) == Measure(kind, hits, key, start, length)
  {
    hide EventsIn, ValuesIn, Delayed;
    EventsDelayed(hits, delay, key, start, length);
    ValuesDelayed(hits, delay, key, start, length);
  }

  lemma PostponedAmong(hits: seq<Hit>, delay: real, h: Hit)
    ensures h in hits <==> Postponed(h, delay) in Delayed(hits, delay)
  {
    var late := Delayed(hits, delay);
    if i :| 0 <= i < |hits| && hits[i] == h {
      assert late[i] == Postponed(h, delay);
    }
    if i :| 0 <= i < |late| && late[i] == Postponed(h, delay) {
      assert hits[i] == h;
    }
  }

  lemma DelayedFiresAt(t: Test, hits: seq<Hit>, delay: real, start: real)
    ensures FiresAt(t, hits, start) <==> FiresAt(t, Delayed(hits, delay), start + delay)
  {
    hide Measure, Delayed;
    if FiresAt(t, hits, start) {
      var h :| h in hits && In(h, start, t.span)
               && Compare(t.op, Measure(t.kind, hits, h.key, start, t.span), t.threshold);
      PostponedAmong(hits, delay, h);
      MeasureDelayed(t.kind, hits, delay, h.key, start, t.span);
    }
    if FiresAt(t, Delayed(hits, delay), start + delay) {
      var late :| late in Delayed(hits, delay) && In(late, start + delay, t.span)
                  && Compare(t.op, Measure(t.kind, Delayed(hits, delay), late.key, start + delay, t.span), t.threshold);
      var h := Postponed(late, -delay);
      assert Postponed(h, delay) == late;
      PostponedAmong(hits, delay, h);
      MeasureDelayed(t.kind, hits, delay, h.key, start, t.span);
    }
  }

  /** Moving every event by the same time changes nothing. */
  lemma DelayedFires(t: Test, hits: seq<Hit>, delay: real)
    ensures Fires(t, Delayed(hits, delay)) <==> Fires(t, hits)
  {
    hide FiresAt, Delayed;
    if Fires(t, hits) {
      var a :| a in hits && FiresAt(t, hits, a.moment);
      PostponedAmong(hits, delay, a);
      DelayedFiresAt(t, hits, delay, a.moment);
      assert FiresAt(t, Delayed(hits, delay), Postponed(a, delay).moment);
    }
    if Fires(t, Delayed(hits, delay)) {
      var late :| late in Delayed(hits, delay) && FiresAt(t, Delayed(hits, delay), late.moment);
      var a := Postponed(late, -delay);
      assert Postponed(a, delay) == late;
      PostponedAmong(hits, delay, a);
      DelayedFiresAt(t, hits, delay, a.moment);
    }
  }

  // ---------------------------------------------------------------------------------------------------------
  // The verdict, from the events alone
  // ---------------------------------------------------------------------------------------------------------

  /** Some rule that the correlation refers to matches the event. */
  predicate Matches(rule: Rule, e: Event) {
    exists x :: x in e.matches && Some(x) in rule.references
  }

  predicate SameField(d: Event, e: Event, field: string) {
    (field in d.fields <==> field in e.fields) && (field in d.fields ==> d.fields[field] == e.fields[field])
  }

  predicate SameGroup(rule: Rule, d: Event, e: Event) {
    forall g :: g in rule.groupBy ==> SameField(d, e, g)
  }

  predicate Within(e: Event, start: real, length: real) {
    e.timestamp.At? && start <= e.timestamp.moment < start + length
  }

  /** Where the matched events of `e`'s group stand that lie in the window. */
  function Positions(rule: Rule, events: seq<Event>, e: Event, start: real, length: real): (positions: set<nat>)
    ensures forall i :: i in positions ==> i < |events|
  {
    set i: nat | i < |events| && Matches(rule, events[i]) && SameGroup(rule, events[i], e) && Within(events[i], start, length)
  }

  /** The values they have of a field; a missing field is a value of its own. */
  function Values(rule: Rule, events: seq<Event>, e: Event, start: real, length: real, field: string): set<Value> {
    set i | i in Positions(rule, events, e, start, length) ::
      if field in events[i].fields then Some(events[i].fields[field]) else None
  }

  lemma RelevantIff(rule: Rule, e: Event)
    ensures Relevant(rule, e) <==> Matches(rule, e)
  {
    if Relevant(rule, e) {
      var r :| r in rule.references && r.Some? && r.value in e.matches;
      var x := r.value;
      assert r == Some(x) && x in e.matches && Some(x) in rule.references;
    }
    if Matches(rule, e) {
      var x :| x in e.matches && Some(x) in rule.references;
      var r := Some(x);
      assert r in rule.references && r.Some? && r.value in e.matches;
    }
  }

  lemma SameKeyIff(rule: Rule, d: Event, e: Event)
    ensures KeyOf(d, rule.groupBy) == KeyOf(e, rule.groupBy) <==> SameGroup(rule, d, e)
  {
    var k, l := KeyOf(d, rule.groupBy), KeyOf(e, rule.groupBy);
    if k == l {
      forall g | g in rule.groupBy
        ensures SameField(d, e, g)
      {
        var i :| 0 <= i < |rule.groupBy| && rule.groupBy[i] == g;
        assert k[i] == l[i];
      }
    }
    if SameGroup(rule, d, e) {
      forall i | 0 <= i < |rule.groupBy|
        ensures k[i] == l[i]
      {
        assert SameField(d, e, rule.groupBy[i]);
      }
    }
  }

  lemma PositionsStep(rule: Rule, events: seq<Event>, last: Event, e: Event, start: real, length: real)
    ensures Positions(rule, events + [last], e, start, length)
         == Positions(rule, events, e, start, length)
            + if Matches(rule, last) && SameGroup(rule, last, e) && Within(last, start, length) then {|events|} else {}
    ensures |events| !in Positions(rule, events, e, start, length)
  {
    hide Matches, SameGroup, Within;
    forall i: nat
      ensures i < |events| ==> (events + [last])[i] == events[i]
      ensures i == |events| ==> (events + [last])[i] == last
    {
    }
  }

  // What one more event that is collected adds to its group's counts.
  lemma HitStep(rule: Rule, events: seq<Event>, last: Event, e: Event, start: real, length: real)
    requires Collect(rule, events).Ok? && Collect(rule, events + [last]).Ok?
    ensures EventsIn(Collect(rule, events + [last]).value, KeyOf(e, rule.groupBy), start, length)
         == EventsIn(Collect(rule, events).value, KeyOf(e, rule.groupBy), start, length)
            + if Matches(rule, last) && SameGroup(rule, last, e) && Within(last, start, length) then 1 else 0
  {
    hide Collect, Relevant, Matches, SameGroup, EventsIn, KeyOf;
    RelevantIff(rule, last);
    CollectStep(rule, events, last);
    if Matches(rule, last) {
      HitKey(rule, last);
      SameKeyIff(rule, last, e);
      EventsStep(Collect(rule, events).value, HitOf(rule, last), KeyOf(e, rule.groupBy), start, length);
    }
  }

  lemma HitKey(rule: Rule, e: Event)
    requires e.timestamp.At?
    ensures HitOf(rule, e).key == KeyOf(e, rule.groupBy) && HitOf(rule, e).moment == e.timestamp.moment
  {
  }

  /** The number of matched events of the group in a window. */
  lemma {:induction false} EventsAre(rule: Rule, events: seq<Event>, e: Event, start: real, length: real)
    requires Collect(rule, events).Ok?
    ensures EventsIn(Collect(rule, events).value, KeyOf(e, rule.groupBy), start, length)
         == |Positions(rule, events, e, start, length)|
  {
    hide Collect, EventsIn, KeyOf, Positions, Matches, SameGroup;
    if events == [] {
      NothingThere(rule, e, start, length);
    } else {
      var n := |events| - 1;
      assert events == events[..n] + [events[n]];
      CollectPrefix(rule, events);
      EventsAre(rule, events[..n], e, start, length);
      HitStep(rule, events[..n], events[n], e, start, length);
      PositionsStep(rule, events[..n], events[n], e, start, length);
    }
  }

  lemma NothingThere(rule: Rule, e: Event, start: real, length: real)
    ensures Collect(rule, []) == Ok([]) && Positions(rule, [], e, start, length) == {}
    ensures EventsIn([], KeyOf(e, rule.groupBy), start, length) == 0
  {
  }

  lemma {:induction false} CollectedIff(rule: Rule, events: seq<Event>, h: Hit)
    requires Collect(rule, events).Ok?
    ensures h in Collect(rule, events).value
       <==> exists i :: 0 <= i < |events| && Matches(rule, events[i]) && events[i].timestamp.At? && h == HitOf(rule, events[i])
  {
    hide HitOf, Matches, Relevant, Collect;
    if events == [] {
      NothingThere(rule, Event(Missing, {}, map[]), 0.0, 0.0);
    } else {
      var n := |events| - 1;
      assert events == events[..n] + [events[n]];
      CollectPrefix(rule, events);
      CollectStep(rule, events[..n], events[n]);
      CollectedIff(rule, events[..n], h);
      RelevantIff(rule, events[n]);
      if h in Collect(rule, events[..n]).value {
        var i :| 0 <= i < n && Matches(rule, events[..n][i]) && events[..n][i].timestamp.At? && h == HitOf(rule, events[..n][i]);
        assert events[i] == events[..n][i];
      }
      if i :| 0 <= i < |events| && Matches(rule, events[i]) && events[i].timestamp.At? && h == HitOf(rule, events[i]) {
        assert i < n ==> events[..n][i] == events[i];
      }
    }
  }

  lemma HitValue(rule: Rule, e: Event, field: string)
    requires e.timestamp.At? && rule.condition.Some? && rule.condition.value.field == Some(field)
    ensures HitOf(rule, e).value == if field in e.fields then Some(e.fields[field]) else None
  {
  }

  /** The values of the group in a window. */
  lemma ValuesAre(rule: Rule, events: seq<Event>, e: Event, start: real, length: real, field: string)
    requires Collect(rule, events).Ok? && rule.condition.Some? && rule.condition.value.field == Some(field)
    ensures ValuesIn(Collect(rule, events).value, KeyOf(e, rule.groupBy), start, length)
         == Values(rule, events, e, start, length, field)
  {
    hide Collect, HitOf, KeyOf, Matches, SameGroup, Positions;
    var hits, key := Collect(rule, events).value, KeyOf(e, rule.groupBy);
    forall v | v in ValuesIn(hits, key, start, length)
      ensures v in Values(rule, events, e, start, length, field)
    {
      var h :| h in hits && In(h, start, length) && h.key == key && h.value == v;
      CollectedIff(rule, events, h);
      var i :| 0 <= i < |events| && Matches(rule, events[i]) && events[i].timestamp.At? && h == HitOf(rule, events[i]);
      HitKey(rule, events[i]);
      HitValue(rule, events[i], field);
      SameKeyIff(rule, events[i], e);
      InPositions(rule, events, e, start, length, i);
    }
    forall v | v in Values(rule, events, e, start, length, field)
      ensures v in ValuesIn(hits, key, start, length)
    {
      var i :| i < |events| && i in Positions(rule, events, e, start, length)
               && v == if field in events[i].fields then Some(events[i].fields[field]) else None;
      InPositions(rule, events, e, start, length, i);
      HitKey(rule, events[i]);
      HitValue(rule, events[i], field);
      SameKeyIff(rule, events[i], e);
      CollectedIff(rule, events, HitOf(rule, events[i]));
    }
  }

  lemma InPositions(rule: Rule, events: seq<Event>, e: Event, start: real, length: real, i: nat)
    ensures i in Positions(rule, events, e, start, length)
       <==> i < |events| && Matches(rule, events[i]) && SameGroup(rule, events[i], e) && Within(events[i], start, length)
  {
  }

  /** How much the group of `e` has in a window: matched events, or values of the counted field. */
  function Amount(rule: Rule, events: seq<Event>, e: Event, start: real, length: real): nat {
    if rule.kind == ValueCount && rule.condition.Some? && rule.condition.value.field.Some?
    then |Values(rule, events, e, start, length, rule.condition.value.field.value)|
    else |Positions(rule, events, e, start, length)|
  }

  lemma AmountIs(rule: Rule, t: Test, events: seq<Event>, e: Event, start: real)
    requires CheckRule(rule) == Ok(t) && Collect(rule, events).Ok?
    ensures Measure(t.kind, Collect(rule, events).value, KeyOf(e, rule.groupBy), start, t.span)
         == Amount(rule, events, e, start, t.span)
  {
    hide Collect, EventsIn, ValuesIn, KeyOf, Positions, Values;
    EventsAre(rule, events, e, start, t.span);
    if rule.kind == ValueCount {
      ValuesAre(rule, events, e, start, t.span, rule.condition.value.field.value);
    }
  }

  /** What the operator asks of an amount. */
  predicate Asks(op: Operator, amount: int, count: int) {
    || (op == LT && amount < count) || (op == LTE && amount <= count)
    || (op == GT && amount > count) || (op == GTE && amount >= count)
    || (op == EQ && amount == count) || (op == NEQ && amount != count)
  }

  /**
   A matched event `a` opens a window in which the group of a matched event `b` has an amount that the condition asks
   for.
   */
  predicate Triggers(rule: Rule, events: seq<Event>, a: Event, b: Event)
    requires rule.condition.Some? && rule.timespan.Some?
  {
    && a.timestamp.At? && Matches(rule, a) && Matches(rule, b)
    && Within(b, a.timestamp.moment, rule.timespan.value)
    && Asks(rule.condition.value.op, Amount(rule, events, b, a.timestamp.moment, rule.timespan.value),
            rule.condition.value.count)
  }

  lemma AsksIff(op: Operator, amount: int, count: int)
    ensures Compare(op, amount, count) <==> Asks(op, amount, count)
  {
  }

  /** The rule can be evaluated, and so can the time of every matched event. */
  predicate Evaluable(rule: Rule, events: seq<Event>) {
    && rule.kind != OtherKind && rule.references != [] && None !in rule.references
    && rule.condition.Some? && rule.condition.value.op != OtherOperator && rule.timespan.Some?
    && (rule.kind == ValueCount ==> rule.condition.value.field.Some? && rule.condition.value.field.value != "")
    && forall e :: e in events && Matches(rule, e) ==> e.timestamp.At?
  }

  lemma {:induction false} CollectableIff(rule: Rule, events: seq<Event>)
    ensures Collect(rule, events).Ok? <==> forall e :: e in events && Matches(rule, e) ==> e.timestamp.At?
  {
    hide Matches, Relevant, HitOf;
    if events != [] {
      var n := |events| - 1;
      CollectableIff(rule, events[..n]);
      RelevantIff(rule, events[n]);
      assert forall e :: e in events <==> e in events[..n] || e == events[n];
    }
  }

  lemma EvaluableIff(rule: Rule, events: seq<Event>)
    ensures Verdict(rule, events).Ok? <==> Evaluable(rule, events)
  {
    hide Collect, Matches, Fires;
    CollectableIff(rule, events);
  }

  /** The verdict is that some matched event triggers the rule: nothing but the events and the rule's settings. */
  lemma VerdictIff(rule: Rule, events: seq<Event>)
    requires Evaluable(rule, events)
    ensures Verdict(rule, events)
         == Ok(exists a, b :: a in events && b in events && Triggers(rule, events, a, b))
  {
    EvaluableIff(rule, events);
    hide Collect, Evaluable, Fires, Triggers, Matches;
    var t := CheckRule(rule).value;
    if Fires(t, Collect(rule, events).value) {
      var a, b := FiringTriggers(rule, t, events);
    }
    if a, b :| a in events && b in events && Triggers(rule, events, a, b) {
      TriggerFires(rule, t, events, a, b);
    }
  }

  lemma FiringTriggers(rule: Rule, t: Test, events: seq<Event>) returns (a: Event, b: Event)
    requires CheckRule(rule) == Ok(t) && Collect(rule, events).Ok? && Fires(t, Collect(rule, events).value)
    ensures a in events && b in events && rule.condition.Some? && rule.timespan.Some? && Triggers(rule, events, a, b)
  {
    hide Collect, Measure, Amount, Matches, HitOf, KeyOf;
    var hits := Collect(rule, events).value;
    var g :| g in hits && FiresAt(t, hits, g.moment);
    var h :| h in hits && In(h, g.moment, t.span)
             && Compare(t.op, Measure(t.kind, hits, h.key, g.moment, t.span), t.threshold);
    CollectedIff(rule, events, g);
    CollectedIff(rule, events, h);
    var i :| 0 <= i < |events| && Matches(rule, events[i]) && events[i].timestamp.At? && g == HitOf(rule, events[i]);
    var j :| 0 <= j < |events| && Matches(rule, events[j]) && events[j].timestamp.At? && h == HitOf(rule, events[j]);
    a, b := events[i], events[j];
    HitKey(rule, a);
    HitKey(rule, b);
    AmountIs(rule, t, events, b, g.moment);
    AsksIff(t.op, Amount(rule, events, b, g.moment, t.span), t.threshold);
  }

  lemma TriggerFires(rule: Rule, t: Test, events: seq<Event>, a: Event, b: Event)
    requires CheckRule(rule) == Ok(t) && Collect(rule, events).Ok?
    requires a in events && b in events && Triggers(rule, events, a, b)
    ensures Fires(t, Collect(rule, events).value)
  {
    hide Collect, Measure, Amount, Matches, HitOf, KeyOf;
    var hits := Collect(rule, events).value;
    var i :| 0 <= i < |events| && events[i] == a;
    var j :| 0 <= j < |events| && events[j] == b;
    CollectedIff(rule, events, HitOf(rule, a));
    CollectedIff(rule, events, HitOf(rule, b));
    HitKey(rule, a);
    HitKey(rule, b);
    AmountIs(rule, t, events, b, a.timestamp.moment);
    AsksIff(t.op, Amount(rule, events, b, a.timestamp.moment, t.span), t.threshold);
    assert FiresAt(t, hits, a.timestamp.moment);
  }

  /** Which error is raised: the first setting that does not do, and then the first matched event without a time. */
  lemma ErrorsIff(rule: Rule, events: seq<Event>)
    ensures Verdict(rule, events) == Err(UnsupportedType) <==> rule.kind == OtherKind
    ensures Verdict(rule, events) == Err(UnresolvedReferences)
       <==> rule.kind != OtherKind && (rule.references == [] || None in rule.references)
    ensures Verdict(rule, events) == Err(NoCondition) <==> Resolved(rule) && rule.condition == None
    ensures Verdict(rule, events) == Err(UnsupportedOperator)
       <==> Resolved(rule) && rule.condition.Some? && rule.condition.value.op == OtherOperator
    ensures Verdict(rule, events) == Err(NoField)
       <==> && Resolved(rule) && rule.condition.Some? && rule.condition.value.op != OtherOperator
            && rule.kind == ValueCount && Fieldless(rule.condition.value)
    ensures Verdict(rule, events) == Err(NoTimespan)
       <==> && Resolved(rule) && rule.condition.Some? && rule.condition.value.op != OtherOperator
            && !(rule.kind == ValueCount && Fieldless(rule.condition.value)) && rule.timespan == None
    ensures Verdict(rule, events) == Err(NoTimestamp) <==> CheckRule(rule).Ok? && FirstTimeless(rule, events, Missing)
    ensures Verdict(rule, events) == Err(BadTimestamp) <==> CheckRule(rule).Ok? && FirstTimeless(rule, events, Unparsable)
  {
    hide Collect, FirstTimeless, Fires;
    CollectErrors(rule, events);
  }

  /** The condition names no field. */
  predicate Fieldless(condition: Condition) {
    condition.field == None || condition.field == Some("")
  }

  predicate Resolved(rule: Rule) {
    rule.kind != OtherKind && rule.references != [] && None !in rule.references
  }

  /** The first matched event whose time cannot be used has this instead of one. */
  predicate FirstTimeless(rule: Rule, events: seq<Event>, timestamp: Timestamp) {
    exists i ::
      && 0 <= i < |events| && Matches(rule, events[i]) && events[i].timestamp == timestamp
      && forall j :: 0 <= j < i && Matches(rule, events[j]) ==> events[j].timestamp.At?
  }

  lemma {:induction false} CollectErrors(rule: Rule, events: seq<Event>)
    ensures Collect(rule, events).Err? ==> Collect(rule, events).error in {NoTimestamp, BadTimestamp}
    ensures Collect(rule, events) == Err(NoTimestamp) <==> FirstTimeless(rule, events, Missing)
    ensures Collect(rule, events) == Err(BadTimestamp) <==> FirstTimeless(rule, events, Unparsable)
  {
    hide Matches, Relevant, HitOf, FirstTimeless;
    if events == [] {
      NoneTimeless(rule);
    } else {
      var n := |events| - 1;
      CollectErrors(rule, events[..n]);
      CollectableIff(rule, events[..n]);
      RelevantIff(rule, events[n]);
      TimelessStep(rule, events, Missing);
      TimelessStep(rule, events, Unparsable);
    }
  }

  lemma NoneTimeless(rule: Rule)
    ensures !FirstTimeless(rule, [], Missing) && !FirstTimeless(rule, [], Unparsable)
  {
  }

  lemma TimelessStep(rule: Rule, events: seq<Event>, timestamp: Timestamp)
    requires events != [] && !timestamp.At?
    ensures var n := |events| - 1;
            FirstTimeless(rule, events, timestamp)
            <==> || FirstTimeless(rule, events[..n], timestamp)
                 || (&& (forall e :: e in events[..n] && Matches(rule, e) ==> e.timestamp.At?)
                     && Matches(rule, events[n]) && events[n].timestamp == timestamp)
  {
    hide Matches;
    var n := |events| - 1;
    assert forall i :: 0 <= i < n ==> events[..n][i] == events[i];
    if FirstTimeless(rule, events[..n], timestamp) {
      var i :| && 0 <= i < n && Matches(rule, events[..n][i]) && events[..n][i].timestamp == timestamp
               && forall j :: 0 <= j < i && Matches(rule, events[..n][j]) ==> events[..n][j].timestamp.At?;
      assert events[i].timestamp == timestamp;
    }
  }

  // ---------------------------------------------------------------------------------------------------------
  // The operators
  // ---------------------------------------------------------------------------------------------------------

  /**
   What each operator asks: on `n` matched events of one group at one moment, with as many values if values are counted,
   the verdict compares `n` with the threshold.
   */
  lemma OperatorsMean(rule: Rule, t: Test, n: nat, moment: real)
    requires CheckRule(rule) == Ok(t) && !CountsGroupField(rule) && t.span > 0.0 && n >= 1
    ensures var v, k := Verdict(rule, Shots(rule, n, moment, map[])), rule.condition.value.count;
            match rule.condition.value.op
            case LT => v == Ok(n < k)
            case LTE => v == Ok(n <= k)
            case GT => v == Ok(n > k)
            case GTE => v == Ok(n >= k)
            case EQ => v == Ok(n == k)
            case NEQ => v == Ok(n != k)
            case OtherOperator => false
  {
    TestIs(rule, t);
    hide Collect, CheckRule, CountsGroupField, Shots, FiresAt, Measure, FieldsKey;
    var shots := Shots(rule, n, moment, map[]);
    ShotsCollected(rule, n, moment, map[]);
    VolleyVerdict(t, Collect(rule, shots).value, n, moment, FieldsKey(map[], rule.groupBy));
  }

  lemma TestIs(rule: Rule, t: Test)
    requires CheckRule(rule) == Ok(t)
    ensures t.kind == rule.kind && rule.condition.Some? && t.op == rule.condition.value.op != OtherOperator
    ensures t.threshold == rule.condition.value.count && rule.timespan == Some(t.span)
  {
  }

  lemma VolleyVerdict(t: Test, hits: seq<Hit>, n: nat, moment: real, key: seq<Value>)
    requires IsVolley(t.kind, hits, n, moment, key) && n >= 1 && t.span > 0.0
    ensures Fires(t, hits) <==> Compare(t.op, n, t.threshold)
  {
    hide FiresAt, Measure, FirstValues;
    VolleyMeasured(t.kind, hits, n, moment, key, moment, t.span);
    FiresIff(t, hits, key, moment);
    assert hits[0] in hits;
  }

  /** More than k is at least k + 1, and at most k is less than k + 1. */
  lemma OperatorLaws(kind: Kind, k: int, span: real, hits: seq<Hit>)
    ensures Fires(Test(kind, GT, k, span), hits) <==> Fires(Test(kind, GTE, k + 1, span), hits)
    ensures Fires(Test(kind, LTE, k, span), hits) <==> Fires(Test(kind, LT, k + 1, span), hits)
  {
    SameTest(Test(kind, GT, k, span), Test(kind, GTE, k + 1, span), hits);
    SameTest(Test(kind, LTE, k, span), Test(kind, LT, k + 1, span), hits);
  }

  lemma SameTest(t: Test, t': Test, hits: seq<Hit>)
    requires t.kind == t'.kind && t.span == t'.span
    requires forall n: nat :: Compare(t.op, n, t.threshold) <==> Compare(t'.op, n, t'.threshold)
    ensures Fires(t, hits) <==> Fires(t', hits)
  {
    hide Measure, Compare;
    forall start: real
      ensures FiresAt(t, hits, start) <==> FiresAt(t', hits, start)
    {
    }
  }
}
