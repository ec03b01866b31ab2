/**
 The behaviour baseline (baseline/build.py) and the rules that judge events against it (tools/otde/baseline.py).
 `DetectsExactlyTheUnseen` says what the pair learns and detects together.
 */
module Baseline {

  import opened Results
  import opened Sorting

  const OT_NDR: string := "ot_ndr"

  /** What `int()` makes of an event's function code. */
  datatype Code = NoCode | Number(n: int) | NotANumber

  datatype Event = Event(fields: map<string, string>, code: Code)

  function Get(e: Event, name: string): Option<string> {
    if name in e.fields then Some(e.fields[name]) else None
  }

  /** A field that is there and not empty, as Python's truth test asks. */
  predicate Holds(e: Event, name: string, value: string) {
    Get(e, name) == Some(value) && value != ""
  }

  predicate IsOt(e: Event) {
    Get(e, "product") == Some(OT_NDR)
  }

  datatype Artifact = Artifact(
    assets: seq<string>,
    pairs: seq<(string, string)>,
    functions: map<string, seq<int>>,
    services: seq<string>)

  datatype ValueError = BadFunctionCode

  // ---------------------------------------------------------------------------------------------------------
  // What a set of events exhibits
  // ---------------------------------------------------------------------------------------------------------

  predicate ShowsAsset(e: Event, a: string) {
    IsOt(e) && (Holds(e, "src_ip", a) || Holds(e, "dst_ip", a))
  }

  predicate ShowsPair(e: Event, p: (string, string)) {
    IsOt(e) && Holds(e, "src_ip", p.0) && Holds(e, "dst_ip", p.1)
  }

  predicate ShowsService(e: Event, s: string) {
    IsOt(e) && Holds(e, "service", s)
  }

  predicate ShowsCode(e: Event, s: string, c: int) {
    ShowsService(e, s) && e.code == Number(c)
  }

  /** Building fails on an event like this. */
  predicate Unbuildable(e: Event) {
    IsOt(e) && Get(e, "service").Some? && Get(e, "service").value != "" && e.code.NotANumber?
  }

  predicate SeenAsset(events: seq<Event>, a: string) {
    exists e :: e in events && ShowsAsset(e, a)
  }

  predicate SeenPair(events: seq<Event>, p: (string, string)) {
    exists e :: e in events && ShowsPair(e, p)
  }

  predicate SeenService(events: seq<Event>, s: string) {
    exists e :: e in events && ShowsService(e, s)
  }

  predicate SeenCode(events: seq<Event>, s: string, c: int) {
    exists e :: e in events && ShowsCode(e, s, c)
  }

  /** The artifact lists, in order, exactly what the events exhibit. */
  ghost predicate Learned(events: seq<Event>, b: Artifact) {
    && Sorted(LessText, b.assets) && (forall a :: a in b.assets <==> SeenAsset(events, a))
    && Sorted(LessPair, b.pairs) && (forall p :: p in b.pairs <==> SeenPair(events, p))
    && Sorted(LessText, b.services) && (forall s :: s in b.services <==> SeenService(events, s))
    && (forall s :: s in b.functions <==> exists c :: SeenCode(events, s, c))
    && forall s :: s in b.functions ==>
         Sorted(LessNumber, b.functions[s]) && forall c :: c in b.functions[s] <==> SeenCode(events, s, c)
  }

  // ---------------------------------------------------------------------------------------------------------
  // Building
  // ---------------------------------------------------------------------------------------------------------

  /** What has been gathered so far. */
  datatype Gathered = Gathered(
    assets: set<string>,
    pairs: set<(string, string)>,
    functions: map<string, set<int>>,
    services: set<string>)

  ghost predicate Gathers(events: seq<Event>, g: Gathered) {
    && (forall a :: a in g.assets <==> SeenAsset(events, a))
    && (forall p :: p in g.pairs <==> SeenPair(events, p))
    && (forall s :: s in g.services <==> SeenService(events, s))
    && (forall s :: s in g.functions <==> exists c :: SeenCode(events, s, c))
    && forall s, c :: s in g.functions ==> (c in g.functions[s] <==> SeenCode(events, s, c))
  }

  /** The body of the loop over events: one event is added to what has been gathered. */
  method Gather(g: Gathered, e: Event) returns (r: Result<Gathered, ValueError>)
    ensures r.Err? <==> Unbuildable(e)
    ensures r.Ok? ==>
              && (forall a :: a in r.value.assets <==> a in g.assets || ShowsAsset(e, a))
              && (forall p :: p in r.value.pairs <==> p in g.pairs || ShowsPair(e, p))
              && (forall s :: s in r.value.services <==> s in g.services || ShowsService(e, s))
              && (forall s :: s in r.value.functions <==> s in g.functions || exists c :: ShowsCode(e, s, c))
              && forall s, c :: s in r.value.functions ==>
                   (c in r.value.functions[s] <==> (s in g.functions && c in g.functions[s]) || ShowsCode(e, s, c))
  {
    if Get(e, "product") != Some(OT_NDR) {
      return Ok(g);
    }
    var assets, pairs, functions, services := g.assets, g.pairs, g.functions, g.services;
    var src, dst := Get(e, "src_ip"), Get(e, "dst_ip");
    if src.Some? && src.value != "" {
      assets := assets + {src.value};
    }
    if dst.Some? && dst.value != "" {
      assets := assets + {dst.value};
    }
    if src.Some? && src.value != "" && dst.Some? && dst.value != "" {
      pairs := pairs + {(src.value, dst.value)};
    }
    var service := Get(e, "service");
    if service.Some? && service.value != "" {
      services := services + {service.value};
      if e.code != NoCode {
        if e.code.NotANumber? {
          return Err(BadFunctionCode);
        }
        var known := if service.value in functions then functions[service.value] else {};
        assert ShowsCode(e, service.value, e.code.n);
        functions := functions[service.value := known + {e.code.n}];
      }
    }
    return Ok(Gathered(assets, pairs, functions, services));
  }

  lemma GathersMore(events: seq<Event>, e: Event, g: Gathered, g': Gathered)
    requires Gathers(events, g)
    requires forall a :: a in g'.assets <==> a in g.assets || ShowsAsset(e, a)
    requires forall p :: p in g'.pairs <==> p in g.pairs || ShowsPair(e, p)
    requires forall s :: s in g'.services <==> s in g.services || ShowsService(e, s)
    requires forall s :: s in g'.functions <==> s in g.functions || exists c :: ShowsCode(e, s, c)
    requires forall s, c :: s in g'.functions ==>
               (c in g'.functions[s] <==> (s in g.functions && c in g.functions[s]) || ShowsCode(e, s, c))
    ensures Gathers(events + [e], g')
  {
    OneMoreSeen(events, e);
    hide SeenAsset, SeenPair, SeenService, SeenCode, ShowsAsset, ShowsPair, ShowsService, ShowsCode;
  }

  method Build(events: seq<Event>) returns (r: Result<Artifact, ValueError>)
    ensures r.Err? <==> exists e :: e in events && Unbuildable(e)
    ensures r.Ok? ==> Learned(events, r.value)
  {
    hide ShowsAsset, ShowsPair, ShowsService, ShowsCode, Unbuildable, LessText, LessPair;
    var g := Gathered({}, {}, map[], {});
    for i := 0 to |events|
      invariant forall e :: e in events[..i] ==> !Unbuildable(e)
      invariant Gathers(events[..i], g)
    {
      hide SeenAsset, SeenPair, SeenService, SeenCode, Gathers, Learned;
      assert events[..i + 1] == events[..i] + [events[i]];
      var next := Gather(g, events[i]);
      if next.Err? {
        assert Unbuildable(events[i]);
        return Err(BadFunctionCode);
      }
      GathersMore(events[..i], events[i], g, next.value);
      g := next.value;
    }
    hide SeenAsset, SeenPair, SeenService, SeenCode;
    assert events[..|events|] == events;
    TextOrder();
    PairOrder();
    var assets := Sort(LessText, g.assets);
    var pairs := Sort(LessPair, g.pairs);
    var services := Sort(LessText, g.services);
    var functions := SortFunctions(g.functions);
    return Ok(Artifact(assets, pairs, functions, services));
  }

  method SortFunctions(functions: map<string, set<int>>) returns (sorted: map<string, seq<int>>)
    ensures sorted.Keys == functions.Keys
    ensures forall s :: s in sorted ==> Lists(LessNumber, sorted[s], functions[s])
  {
    NumberOrder();
    sorted := map[];
    var todo := functions.Keys;
    while todo != {}
      invariant todo <= functions.Keys && sorted.Keys == functions.Keys - todo
      invariant forall s :: s in sorted ==> Lists(LessNumber, sorted[s], functions[s])
      decreases todo
    {
      var s :| s in todo;
      var codes := Sort(LessNumber, functions[s]);
      sorted := sorted[s := codes];
      todo := todo - {s};
    }
    assert sorted.Keys == functions.Keys;
  }

  // What is seen with one more event is what was seen before and what the event shows.
  lemma OneMoreSeen(events: seq<Event>, e: Event)
    ensures forall a :: SeenAsset(events + [e], a) <==> SeenAsset(events, a) || ShowsAsset(e, a)
    ensures forall p :: SeenPair(events + [e], p) <==> SeenPair(events, p) || ShowsPair(e, p)
    ensures forall s :: SeenService(events + [e], s) <==> SeenService(events, s) || ShowsService(e, s)
    ensures forall s, c :: SeenCode(events + [e], s, c) <==> SeenCode(events, s, c) || ShowsCode(e, s, c)
  {
    hide ShowsAsset, ShowsPair, ShowsService, ShowsCode;
    assert forall x :: x in events + [e] <==> x in events || x == e;
    assert e in events + [e];
  }

  // ---------------------------------------------------------------------------------------------------------
  // Detecting
  // ---------------------------------------------------------------------------------------------------------

  datatype Kind = NewAsset(field: Option<string>) | NewPair | NewFunctionCode | OtherKind

  datatype Config = Config(service: Option<string>, kind: Kind)

  datatype Unsupported = NoBaselineBlock | UnsupportedType

  function MatchBaseline(config: Option<Config>, e: Event, b: Artifact): Result<bool, Unsupported> {
    if config.None? then Err(NoBaselineBlock)
    else if config.value.service.Some? && Get(e, "service") != config.value.service then Ok(false)
    else
      match config.value.kind
      case NewAsset(field) =>
        var value := Get(e, if field.Some? then field.value else "src_ip");
        Ok(value.Some? && value.value !in b.assets)
      case NewPair =>
        var src, dst := Get(e, "src_ip"), Get(e, "dst_ip");
        if src.None? || src.value == "" || dst.None? || dst.value == "" then Ok(false)
        else Ok((src.value, dst.value) !in b.pairs)
      case NewFunctionCode =>
        var service := Get(e, "service");
        if service.None? then Ok(false)
        else if !e.code.Number? then Ok(false)
        else Ok(service.value !in b.functions || e.code.n !in b.functions[service.value])
      case OtherKind => Err(UnsupportedType)
  }

  /** The rule is meant for this event. */
  predicate Applies(c: Config, e: Event) {
    c.service.Some? ==> Get(e, "service") == c.service
  }

  /** The behaviour a rule looks for in an event, and that no event of the training set exhibited. */
  predicate Unseen(kind: Kind, events: seq<Event>, e: Event)
    requires kind != OtherKind
  {
    match kind
    case NewAsset(field) =>
      var value := Get(e, if field.Some? then field.value else "src_ip");
      value.Some? && !SeenAsset(events, value.value)
    case NewPair =>
      var src, dst := Get(e, "src_ip"), Get(e, "dst_ip");
      src.Some? && src.value != "" && dst.Some? && dst.value != "" && !SeenPair(events, (src.value, dst.value))
    case NewFunctionCode =>
      Get(e, "service").Some? && e.code.Number? && !SeenCode(events, Get(e, "service").value, e.code.n)
  }

  /** Against a baseline built from `events`, a rule fires on exactly what no event of `events` exhibited. */
  lemma DetectsExactlyTheUnseen(c: Config, e: Event, events: seq<Event>, b: Artifact)
    requires Learned(events, b)
    ensures MatchBaseline(Some(c), e, b).Err? <==> Applies(c, e) && c.kind == OtherKind
    ensures c.kind != OtherKind ==>
              (MatchBaseline(Some(c), e, b) == Ok(true) <==> Applies(c, e) && Unseen(c.kind, events, e))
  {
    hide SeenAsset, SeenPair, SeenService, SeenCode, Sorted;
  }

  /** The endpoint a rule on new assets looks at. */
  function Watched(kind: Kind): string
    requires kind.NewAsset?
  {
    if kind.field.Some? then kind.field.value else "src_ip"
  }

  /**
   On a training event a rule fires only where the learner does not look: on an empty endpoint, on an empty service
   with a function code, or on a field other than the two endpoints whose value is no known asset.
   */
  lemma FiresOnTrainingIff(c: Config, e: Event, events: seq<Event>, b: Artifact)
    requires Learned(events, b) && e in events && IsOt(e) && c.kind != OtherKind
    ensures MatchBaseline(Some(c), e, b)
         == Ok(Applies(c, e) && match c.kind
                                case NewAsset(_) =>
                                  var value := Get(e, Watched(c.kind));
                                  if Watched(c.kind) in {"src_ip", "dst_ip"} then value == Some("")
                                  else value.Some? && !SeenAsset(events, value.value)
                                case NewPair => false
                                case NewFunctionCode => Get(e, "service") == Some("") && e.code.Number?)
  {
    hide Learned, MatchBaseline, Get, IsOt;
    DetectsExactlyTheUnseen(c, e, events, b);
    var r := MatchBaseline(Some(c), e, b);
    assert r.Ok? && (r == Ok(true) <==> Applies(c, e) && Unseen(c.kind, events, e));
    assert r.value ==> r == Ok(true);
    match c.kind
    case NewAsset(_) =>
      if Get(e, Watched(c.kind)).Some? && Watched(c.kind) in {"src_ip", "dst_ip"} {
        TrainedAsset(e, events, Watched(c.kind));
      }
    case NewPair =>
      if Get(e, "src_ip").Some? && Get(e, "dst_ip").Some? {
        TrainedPair(e, events, Get(e, "src_ip").value, Get(e, "dst_ip").value);
      }
    case NewFunctionCode =>
      if Get(e, "service").Some? && e.code.Number? {
        TrainedCode(e, events);
      }
  }

  lemma TrainedAsset(e: Event, events: seq<Event>, name: string)
    requires e in events && IsOt(e) && name in {"src_ip", "dst_ip"} && Get(e, name).Some?
    ensures SeenAsset(events, Get(e, name).value) <==> Get(e, name).value != ""
  {
    hide Get, IsOt;
    if Get(e, name).value != "" {
      assert ShowsAsset(e, Get(e, name).value);
    }
  }

  lemma TrainedPair(e: Event, events: seq<Event>, src: string, dst: string)
    requires e in events && IsOt(e) && Get(e, "src_ip") == Some(src) && Get(e, "dst_ip") == Some(dst)
    ensures SeenPair(events, (src, dst)) || src == "" || dst == ""
  {
    hide Get, IsOt;
    if src != "" && dst != "" {
      assert ShowsPair(e, (src, dst));
    }
  }

  lemma TrainedCode(e: Event, events: seq<Event>)
    requires e in events && IsOt(e) && Get(e, "service").Some? && e.code.Number?
    ensures SeenCode(events, Get(e, "service").value, e.code.n) <==> Get(e, "service").value != ""
  {
    hide Get, IsOt;
    if Get(e, "service").value != "" {
      assert ShowsCode(e, Get(e, "service").value, e.code.n);
    }
  }

  /** Training on more events can only silence a rule. */
  lemma MoreTrainingIsQuieter(c: Config, e: Event, events: seq<Event>, more: seq<Event>, b: Artifact, b': Artifact)
    requires Learned(events, b) && Learned(more, b') && forall x :: x in events ==> x in more
    requires MatchBaseline(Some(c), e, b') == Ok(true)
    ensures MatchBaseline(Some(c), e, b) == Ok(true)
  {
    DetectsExactlyTheUnseen(c, e, events, b);
    DetectsExactlyTheUnseen(c, e, more, b');
  }

  /** The artifact depends on which events there are, not on their order or how often each occurs. */
  lemma ArtifactDetermined(events: seq<Event>, events': seq<Event>, b: Artifact, b': Artifact)
    requires Learned(events, b) && Learned(events', b') && forall x :: x in events <==> x in events'
    ensures b == b'
  {
    hide SeenAsset, SeenPair, SeenService, SeenCode, LessText, LessPair;
    SameSeen(events, events');
    TextOrder();
    PairOrder();
    SameLists(LessText, b.assets, b'.assets);
    SameLists(LessPair, b.pairs, b'.pairs);
    SameLists(LessText, b.services, b'.services);
    FunctionsDetermined(events, events', b, b');
  }

  lemma FunctionsDetermined(events: seq<Event>, events': seq<Event>, b: Artifact, b': Artifact)
    requires Learned(events, b) && Learned(events', b') && forall x :: x in events <==> x in events'
    ensures b.functions == b'.functions
  {
    hide SeenAsset, SeenPair, SeenService, SeenCode, LessText, LessPair;
    SameSeen(events, events');
    NumberOrder();
    forall s | s in b.functions
      ensures s in b'.functions && b.functions[s] == b'.functions[s]
    {
      SameLists(LessNumber, b.functions[s], b'.functions[s]);
    }
  }

  lemma SameLists<T(!new)>(less: Order<T>, a: seq<T>, b: seq<T>)
    requires StrictTotal(less) && Sorted(less, a) && Sorted(less, b)
    requires forall x :: x in a <==> x in b
    ensures a == b
  {
    SortedUnique(less, a, b, set x | x in a);
  }

  lemma SameSeen(events: seq<Event>, events': seq<Event>)
    requires forall x :: x in events <==> x in events'
    ensures forall a :: SeenAsset(events, a) <==> SeenAsset(events', a)
    ensures forall p :: SeenPair(events, p) <==> SeenPair(events', p)
    ensures forall s :: SeenService(events, s) <==> SeenService(events', s)
    ensures forall s, c :: SeenCode(events, s, c) <==> SeenCode(events', s, c)
  {
  }

  // ---------------------------------------------------------------------------------------------------------
  // Learner and detector, by the fields of the events
  // ---------------------------------------------------------------------------------------------------------

  predicate HasText(e: Event, name: string, text: string) {
    name in e.fields && e.fields[name] == text
  }

  /** An OT event has `a` at one of its ends. */
  predicate AtAnEnd(e: Event, a: string) {
    HasText(e, "product", "ot_ndr") && (HasText(e, "src_ip", a) || HasText(e, "dst_ip", a))
  }

  predicate FromTo(e: Event, src: string, dst: string) {
    HasText(e, "product", "ot_ndr") && HasText(e, "src_ip", src) && HasText(e, "dst_ip", dst)
  }

  predicate Called(e: Event, service: string, c: int) {
    HasText(e, "product", "ot_ndr") && HasText(e, "service", service) && e.code == Number(c)
  }

  lemma SeenAssetIff(events: seq<Event>, a: string)
    ensures SeenAsset(events, a) <==> a != "" && exists e :: e in events && AtAnEnd(e, a)
  {
    forall e
      ensures ShowsAsset(e, a) <==> AtAnEnd(e, a) && a != ""
    {
    }
    hide ShowsAsset, AtAnEnd;
  }

  lemma SeenPairIff(events: seq<Event>, src: string, dst: string)
    ensures SeenPair(events, (src, dst)) <==> src != "" && dst != "" && exists e :: e in events && FromTo(e, src, dst)
  {
    forall e
      ensures ShowsPair(e, (src, dst)) <==> FromTo(e, src, dst) && src != "" && dst != ""
    {
    }
    hide ShowsPair, FromTo;
  }

  predicate Offers(e: Event, service: string) {
    HasText(e, "product", "ot_ndr") && HasText(e, "service", service)
  }

  lemma SeenServiceIff(events: seq<Event>, s: string)
    ensures SeenService(events, s) <==> s != "" && exists e :: e in events && Offers(e, s)
  {
    forall e
      ensures ShowsService(e, s) <==> Offers(e, s) && s != ""
    {
    }
    hide ShowsService, Offers;
  }

  lemma SeenCodeIff(events: seq<Event>, s: string, c: int)
    ensures SeenCode(events, s, c) <==> s != "" && exists e :: e in events && Called(e, s, c)
  {
    forall e
      ensures ShowsCode(e, s, c) <==> Called(e, s, c) && s != ""
    {
    }
    hide ShowsCode, Called;
  }

  predicate ListsCode(b: Artifact, s: string, c: int) {
    s in b.functions && c in b.functions[s]
  }

  /** What the artifact lists, by the fields of the events it was built from; lists of numbers are increasing. */
  lemma LearnedIs(events: seq<Event>, b: Artifact)
    requires Learned(events, b)
    ensures forall a :: a in b.assets <==> a != "" && exists e :: e in events && AtAnEnd(e, a)
    ensures forall src, dst ::
              (src, dst) in b.pairs <==> src != "" && dst != "" && exists e :: e in events && FromTo(e, src, dst)
    ensures forall s :: s in b.services <==> s != "" && exists e :: e in events && Offers(e, s)
    ensures forall s, c ::
              ListsCode(b, s, c) <==> s != "" && exists e :: e in events && Called(e, s, c)
    ensures forall s :: s in b.functions ==>
              b.functions[s] != [] && forall i, j :: 0 <= i < j < |b.functions[s]| ==> b.functions[s][i] < b.functions[s][j]
  {
    hide SeenAsset, SeenPair, SeenService, SeenCode, AtAnEnd, FromTo, Called, Offers, LessText, LessPair;
    forall a
      ensures a in b.assets <==> a != "" && exists e :: e in events && AtAnEnd(e, a)
    {
      SeenAssetIff(events, a);
    }
    forall src, dst
      ensures (src, dst) in b.pairs <==> src != "" && dst != "" && exists e :: e in events && FromTo(e, src, dst)
    {
      SeenPairIff(events, src, dst);
    }
    forall s
      ensures s in b.services <==> s != "" && exists e :: e in events && Offers(e, s)
    {
      SeenServiceIff(events, s);
    }
    forall s, c
      ensures ListsCode(b, s, c) <==> s != "" && exists e :: e in events && Called(e, s, c)
    {
      SeenCodeIff(events, s, c);
    }
    forall s | s in b.functions
      ensures b.functions[s] != []
    {
      var c :| SeenCode(events, s, c);
      assert c in b.functions[s];
    }
  }

  /** Building fails on an OT event whose service is named and whose function code is no number. */
  lemma UnbuildableIff(e: Event)
    ensures Unbuildable(e)
       <==> && HasText(e, "product", "ot_ndr") && "service" in e.fields && !HasText(e, "service", "")
            && e.code == NotANumber
  {
  }

  /** Whether a rule of each type fires, by the fields of the event and of the events learned from. */
  lemma MatchIs(config: Config, e: Event, events: seq<Event>, b: Artifact)
    requires Learned(events, b)
    ensures MatchBaseline(None, e, b) == Err(NoBaselineBlock)
    ensures var r := MatchBaseline(Some(config), e, b);
            if config.service.Some? && !HasText(e, "service", config.service.value) then r == Ok(false)
            else
              match config.kind
              case OtherKind => r == Err(UnsupportedType)
              case NewAsset(field) =>
                var name := if field.Some? then field.value else "src_ip";
                r == Ok(name in e.fields
                        && (e.fields[name] == "" || forall t :: t in events ==> !AtAnEnd(t, e.fields[name])))
              case NewPair =>
                r == Ok(&& "src_ip" in e.fields && "dst_ip" in e.fields
                        && e.fields["src_ip"] != "" && e.fields["dst_ip"] != ""
                        && forall t :: t in events ==> !FromTo(t, e.fields["src_ip"], e.fields["dst_ip"]))
              case NewFunctionCode =>
                r == Ok(&& "service" in e.fields && e.code.Number?
                        && (e.fields["service"] == ""
                            || forall t :: t in events ==> !Called(t, e.fields["service"], e.code.n)))
  {
    hide Learned, SeenAsset, SeenPair, SeenCode, AtAnEnd, FromTo, Called;
    DetectsExactlyTheUnseen(config, e, events, b);
    if config.kind.NewAsset? {
      var name := if config.kind.field.Some? then config.kind.field.value else "src_ip";
      if name in e.fields {
        SeenAssetIff(events, e.fields[name]);
      }
    }
    if "src_ip" in e.fields && "dst_ip" in e.fields {
      SeenPairIff(events, e.fields["src_ip"], e.fields["dst_ip"]);
    }
    if "service" in e.fields && e.code.Number? {
      SeenCodeIff(events, e.fields["service"], e.code.n);
    }
  }
}
