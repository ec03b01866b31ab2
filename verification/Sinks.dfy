/**
 Log lines and Loki streams (collector/sinks.py). `DecodesBack` exhibits a decoder for the lines, which shows that no
 two field lists print alike; `ToLokiStreams` is proved against a declarative grouping of the events.
 */
module Sinks {

  import opened Results

  // ---------------------------------------------------------------------------------------------------------
  // Printing
  // ---------------------------------------------------------------------------------------------------------

  datatype Field = Field(name: string, text: string)

  /** Python's `str.replace` for a pattern of one character. */
  function Replace(s: string, c: char, with: string): string {
    if s == "" then "" else (if s[0] == c then with else [s[0]]) + Replace(s[1..], c, with)
  }

  function Logfmt(text: string): string {
    if text == "" || ' ' in text || '"' in text || '=' in text
    then "\"" + Replace(Replace(text, '\\', "\\\\"), '"', "\\\"") + "\""
    else text
  }

  function Printed(f: Field): string {
    f.name + "=" + Logfmt(f.text)
  }

  /** The fields of one line, joined by single spaces. */
  function Line(fields: seq<Field>): string {
    if fields == [] then ""
    else if |fields| == 1 then Printed(fields[0])
    else Printed(fields[0]) + " " + Line(fields[1..])
  }

  // ---------------------------------------------------------------------------------------------------------
  // Decoding
  // ---------------------------------------------------------------------------------------------------------

  /** A piece read off a line, and what follows it. */
  datatype Piece = Piece(text: string, rest: string)

  /** What comes before the first '='. */
  function ReadName(s: string): (r: Option<Piece>)
    ensures r.Some? ==> |r.value.rest| < |s|
  {
    if s == "" then None
    else if s[0] == '=' then Some(Piece("", s[1..]))
    else
      match ReadName(s[1..])
      case None => None
      case Some(p) => Some(Piece([s[0]] + p.text, p.rest))
  }

  /** Escaped text up to the closing quote. */
  function ReadQuoted(s: string): (r: Option<Piece>)
    ensures r.Some? ==> |r.value.rest| < |s|
  {
    if s == "" then None
    else if s[0] == '"' then Some(Piece("", s[1..]))
    else
      var skip := if s[0] == '\\' then 1 else 0;
      if |s| <= skip then None
      else
        match ReadQuoted(s[skip + 1..])
        case None => None
        case Some(p) => Some(Piece([s[skip]] + p.text, p.rest))
  }

  /** Text up to the next space. */
  function ReadBare(s: string): (p: Piece)
    ensures |p.rest| <= |s|
  {
    if s == "" || s[0] == ' ' then Piece("", s)
    else
      var p := ReadBare(s[1..]);
      Piece([s[0]] + p.text, p.rest)
  }

  function ReadValue(s: string): (r: Option<Piece>)
    ensures r.Some? ==> |r.value.rest| <= |s|
  {
    if s != "" && s[0] == '"' then ReadQuoted(s[1..]) else Some(ReadBare(s))
  }

  function ReadFields(s: string): Option<seq<Field>>
    decreases |s|
  {
    match ReadName(s)
    case None => None
    case Some(name) =>
      match ReadValue(name.rest)
      case None => None
      case Some(value) =>
        if value.rest == "" then Some([Field(name.text, value.text)])
        else
          match ReadFields(value.rest[1..])
          case None => None
          case Some(fields) => Some([Field(name.text, value.text)] + fields)
  }

  function Decode(s: string): Option<seq<Field>> {
    if s == "" then Some([]) else ReadFields(s)
  }

  // ---------------------------------------------------------------------------------------------------------
  // Lines are uniquely decodable
  // ---------------------------------------------------------------------------------------------------------

  /** Both escapes at once, character by character. */
  function Escaped(s: string): string {
    if s == "" then "" else (if s[0] == '\\' || s[0] == '"' then ['\\', s[0]] else [s[0]]) + Escaped(s[1..])
  }

  lemma {:induction false} ReplaceConcat(s: string, t: string, c: char, with: string)
    ensures Replace(s + t, c, with) == Replace(s, c, with) + Replace(t, c, with)
  {
    if s == "" {
      assert s + t == t;
    } else {
      assert (s + t)[1..] == s[1..] + t;
      ReplaceConcat(s[1..], t, c, with);
    }
  }

  /** The two replacements in this order do not disturb each other. */
  lemma {:induction false} TwoReplacements(s: string)
    ensures Replace(Replace(s, '\\', "\\\\"), '"', "\\\"") == Escaped(s)
  {
    if s != "" {
      var head := if s[0] == '\\' then "\\\\" else [s[0]];
      TwoReplacements(s[1..]);
      ReplaceConcat(head, Replace(s[1..], '\\', "\\\\"), '"', "\\\"");
      ReplacedHead(s[0]);
    }
  }

  lemma ReplacedHead(c: char)
    ensures Replace(if c == '\\' then "\\\\" else [c], '"', "\\\"") == if c == '\\' || c == '"' then ['\\', c] else [c]
  {
    assert Replace("\\\\", '"', "\\\"") == "\\" + Replace("\\", '"', "\\\"");
  }

  // One character or escape pair read off the front.
  lemma ReadQuotedStep(c: char, t: string)
    requires ReadQuoted(t).Some?
    ensures var p := ReadQuoted(t).value;
            && ReadQuoted(['\\', c] + t) == Some(Piece([c] + p.text, p.rest))
            && (c != '"' && c != '\\' ==> ReadQuoted([c] + t) == Some(Piece([c] + p.text, p.rest)))
  {
    assert (['\\', c] + t)[2..] == t && ([c] + t)[1..] == t;
  }

  lemma {:induction false} QuotedReadsBack(s: string, rest: string)
    ensures ReadQuoted(Escaped(s) + ("\"" + rest)) == Some(Piece(s, rest))
  {
    if s == "" {
      assert "" + ("\"" + rest) == "\"" + rest;
      assert ("\"" + rest)[1..] == rest;
    } else {
      hide ReadQuoted;
      var tail := Escaped(s[1..]) + ("\"" + rest);
      QuotedReadsBack(s[1..], rest);
      ReadQuotedStep(s[0], tail);
      EscapedStep(s, "\"" + rest);
      assert s == [s[0]] + s[1..];
    }
  }

  lemma EscapedStep(s: string, rest: string)
    requires s != ""
    ensures var head := if s[0] == '\\' || s[0] == '"' then ['\\', s[0]] else [s[0]];
            Escaped(s) + rest == head + (Escaped(s[1..]) + rest)
  {
  }

  lemma {:induction false} BareReadsBack(s: string, rest: string)
    requires ' ' !in s && (rest == "" || rest[0] == ' ')
    ensures ReadBare(s + rest) == Piece(s, rest)
  {
    if s == "" {
      assert s + rest == rest;
    } else {
      assert s + rest == [s[0]] + (s[1..] + rest);
      assert (s + rest)[1..] == s[1..] + rest;
      BareReadsBack(s[1..], rest);
      assert s == [s[0]] + s[1..];
    }
  }

  lemma {:induction false} NameReadsBack(s: string, rest: string)
    requires '=' !in s
    ensures ReadName(s + ("=" + rest)) == Some(Piece(s, rest))
  {
    if s == "" {
      assert "" + ("=" + rest) == "=" + rest;
      assert ("=" + rest)[1..] == rest;
    } else {
      var tail := s[1..] + ("=" + rest);
      assert s + ("=" + rest) == [s[0]] + tail;
      assert ([s[0]] + tail)[1..] == tail;
      NameReadsBack(s[1..], rest);
      assert s == [s[0]] + s[1..];
    }
  }

  lemma ValueReadsBack(text: string, rest: string)
    requires rest == "" || rest[0] == ' '
    ensures ReadValue(Logfmt(text) + rest) == Some(Piece(text, rest))
  {
    hide ReadQuoted, ReadBare, Escaped, Replace;
    if text == "" || ' ' in text || '"' in text || '=' in text {
      TwoReplacements(text);
      QuotedValue(Escaped(text), rest);
      QuotedReadsBack(text, rest);
    } else {
      BareReadsBack(text, rest);
      assert (text + rest)[0] == text[0];
    }
  }

  /** A value without space, quote or '=' prints as itself; any other, and the empty one, escaped between quotes. */
  lemma LogfmtForm(text: string)
    ensures Logfmt(text) == if text != "" && ' ' !in text && '"' !in text && '=' !in text then text
                            else "\"" + Escaped(text) + "\""
  {
    hide Replace, Escaped;
    TwoReplacements(text);
  }

  lemma QuotedValue(escaped: string, rest: string)
    ensures ReadValue("\"" + escaped + "\"" + rest) == ReadQuoted(escaped + ("\"" + rest))
  {
    hide ReadQuoted;
    var printed := "\"" + escaped + "\"" + rest;
    assert printed == "\"" + (escaped + ("\"" + rest));
    assert printed[0] == '"' && printed[1..] == escaped + ("\"" + rest);
  }

  predicate PlainNames(fields: seq<Field>) {
    forall f :: f in fields ==> '=' !in f.name
  }

  lemma LineOfOne(f: Field)
    ensures Line([f]) == f.name + ("=" + (Logfmt(f.text) + ""))
  {
    hide Logfmt;
    assert Logfmt(f.text) + "" == Logfmt(f.text);
  }

  lemma LineOfMore(f: Field, others: seq<Field>)
    requires others != []
    ensures Line([f] + others) == f.name + ("=" + (Logfmt(f.text) + (" " + Line(others))))
  {
    hide Logfmt;
    assert ([f] + others)[1..] == others;
    assert Line([f] + others) == Printed(f) + " " + Line(others);
  }

  // What stands before the first field's rest reads back as that field.
  lemma FieldReadsBack(f: Field, rest: string)
    requires '=' !in f.name && (rest == "" || rest[0] == ' ')
    ensures var s := f.name + ("=" + (Logfmt(f.text) + rest));
            && s != ""
            && (rest == "" ==> Decode(s) == Some([f]))
            && (rest != "" && ReadFields(rest[1..]).Some? ==> Decode(s) == Some([f] + ReadFields(rest[1..]).value))
  {
    hide Logfmt, ReadName, ReadValue;
    NameReadsBack(f.name, Logfmt(f.text) + rest);
    ValueReadsBack(f.text, rest);
  }

  /** A printed line of plain names decodes to the fields it was printed from. */
  lemma {:induction false} DecodesBack(fields: seq<Field>)
    requires PlainNames(fields)
    ensures Decode(Line(fields)) == Some(fields)
    ensures fields != [] ==> Line(fields) != ""
  {
    hide Logfmt, ReadFields, Line;
    if fields == [] {
      EmptyLine();
    } else {
      var f, others := fields[0], fields[1..];
      assert f in fields && fields == [f] + others;
      if others == [] {
        assert fields == [f];
        LineOfOne(f);
        FieldReadsBack(f, "");
      } else {
        DecodesBack(others);
        LineOfMore(f, others);
        FieldReadsBack(f, " " + Line(others));
        assert (" " + Line(others))[1..] == Line(others);
      }
    }
  }

  lemma EmptyLine()
    ensures Line([]) == ""
  {
  }

  lemma {:induction false} NameIsPlain(s: string)
    ensures ReadName(s).Some? ==> '=' !in ReadName(s).value.text
  {
    if s != "" && s[0] != '=' {
      NameIsPlain(s[1..]);
    }
  }

  /** The decoder never makes up a name with '='. */
  lemma {:induction false} ReadsPlainNames(s: string)
    ensures ReadFields(s).Some? ==> PlainNames(ReadFields(s).value)
    decreases |s|
  {
    hide ReadName, ReadValue;
    NameIsPlain(s);
    if ReadName(s).Some? && ReadValue(ReadName(s).value.rest).Some? {
      var rest := ReadValue(ReadName(s).value.rest).value.rest;
      if rest != "" {
        ReadsPlainNames(rest[1..]);
      }
    }
  }

  /** A printed line decodes to the fields it was printed from exactly when no name holds '='. */
  lemma DecodesBackIff(fields: seq<Field>)
    ensures Decode(Line(fields)) == Some(fields) <==> PlainNames(fields)
  {
    hide ReadFields, Line;
    if PlainNames(fields) {
      DecodesBack(fields);
    }
    ReadsPlainNames(Line(fields));
  }

  /** No two field lists print to the same line. */
  lemma LinesUnique(a: seq<Field>, b: seq<Field>)
    requires PlainNames(a) && PlainNames(b) && Line(a) == Line(b)
    ensures a == b
  {
    DecodesBack(a);
    DecodesBack(b);
  }

  // ---------------------------------------------------------------------------------------------------------
  // Streams
  // ---------------------------------------------------------------------------------------------------------

  /**
   An event: its fields in order, without repeated names, and what the conversion to nanoseconds makes of its
   timestamp, which is nothing where the conversion fails.
   */
  datatype Event = Event(fields: seq<Field>, nanoseconds: Option<string>)

  datatype StreamError = KeyError(name: string) | ValueError

  datatype Key = Key(product: string, service: string)

  datatype Entry = Entry(nanoseconds: string, line: string)

  datatype Stream = Stream(key: Key, values: seq<Entry>)

  function Lookup(fields: seq<Field>, name: string): Option<string> {
    if fields == [] then None else if fields[0].name == name then Some(fields[0].text) else Lookup(fields[1..], name)
  }

  function Shown(fields: seq<Field>): seq<Field> {
    if fields == [] then []
    else (if fields[0].name == "product" || fields[0].name == "service" then [] else [fields[0]]) + Shown(fields[1..])
  }

  /** What makes an event unusable, in the order the code finds out. */
  function Fault(e: Event): Option<StreamError> {
    if Lookup(e.fields, "product").None? then Some(KeyError("product"))
    else if Lookup(e.fields, "service").None? then Some(KeyError("service"))
    else if Lookup(e.fields, "timestamp").None? then Some(KeyError("timestamp"))
    else if e.nanoseconds.None? then Some(ValueError)
    else None
  }

  function KeyOf(e: Event): Key
    requires Fault(e).None?
  {
    Key(Lookup(e.fields, "product").value, Lookup(e.fields, "service").value)
  }

  function EntryOf(e: Event): Entry
    requires Fault(e).None?
  {
    Entry(e.nanoseconds.value, Line(Shown(e.fields)))
  }

  predicate Usable(events: seq<Event>) {
    forall i :: 0 <= i < |events| ==> Fault(events[i]).None?
  }

  /** The keys of the events, in order of first appearance. */
  function Keys(events: seq<Event>): seq<Key>
    requires Usable(events)
  {
    if events == [] then []
    else
      var n := |events| - 1;
      var before := Keys(events[..n]);
      if KeyOf(events[n]) in before then before else before + [KeyOf(events[n])]
  }

  /** The entries of one key, in event order. */
  function EntriesOf(events: seq<Event>, key: Key): seq<Entry>
    requires Usable(events)
  {
    if events == [] then []
    else
      var n := |events| - 1;
      var before := EntriesOf(events[..n], key);
      if KeyOf(events[n]) == key then before + [EntryOf(events[n])] else before
  }

  function Streams(events: seq<Event>, keys: seq<Key>): (s: seq<Stream>)
    requires Usable(events)
    ensures |s| == |keys| && forall i :: 0 <= i < |keys| ==> s[i] == Stream(keys[i], EntriesOf(events, keys[i]))
  {
    seq(|keys|, i requires 0 <= i < |keys| => Stream(keys[i], EntriesOf(events, keys[i])))
  }

  // ---------------------------------------------------------------------------------------------------------
  // What the streams hold, field by field
  // ---------------------------------------------------------------------------------------------------------

  predicate HasField(e: Event, name: string) {
    exists f :: f in e.fields && f.name == name
  }

  /** The event's field of this name has this text; names are not repeated, and were they, the first would count. */
  predicate FieldIs(e: Event, name: string, text: string) {
    exists i :: 0 <= i < |e.fields| && e.fields[i] == Field(name, text) && forall j :: 0 <= j < i ==> e.fields[j].name != name
  }

  predicate Increasing(positions: seq<nat>) {
    forall i, j :: 0 <= i < j < |positions| ==> positions[i] < positions[j]
  }

  predicate IsOther(f: Field) {
    f.name != "product" && f.name != "service"
  }

  /** All fields but product and service, in their order: `positions` says where they stand. */
  predicate OthersAt(others: seq<Field>, fields: seq<Field>, positions: seq<nat>) {
    && Increasing(positions) && |positions| == |others|
    && (forall i :: 0 <= i < |others| ==> positions[i] < |fields| && others[i] == fields[positions[i]])
    && forall j :: 0 <= j < |fields| ==> (j in positions <==> IsOther(fields[j]))
  }

  ghost predicate AreOthers(others: seq<Field>, fields: seq<Field>) {
    exists positions :: OthersAt(others, fields, positions)
  }

  /** The entry has the event's time and, if names are plain, a line that decodes to the other fields. */
  ghost predicate IsEntryOf(e: Event, entry: Entry) {
    && e.nanoseconds == Some(entry.nanoseconds)
    && (PlainNames(e.fields) ==> exists others :: Decode(entry.line) == Some(others) && AreOthers(others, e.fields))
  }

  predicate Belongs(e: Event, key: Key) {
    FieldIs(e, "product", key.product) && FieldIs(e, "service", key.service)
  }

  /** The stream holds an entry for each event that belongs to its key, in the order of events. */
  ghost predicate StreamAt(events: seq<Event>, s: Stream, positions: seq<nat>) {
    && Increasing(positions) && |positions| == |s.values|
    && (forall i :: 0 <= i < |positions| ==> positions[i] < |events| && IsEntryOf(events[positions[i]], s.values[i]))
    && forall j :: 0 <= j < |events| ==> (j in positions <==> Belongs(events[j], s.key))
  }

  ghost predicate IsStream(events: seq<Event>, s: Stream) {
    exists positions :: StreamAt(events, s, positions)
  }

  /** Some event of the key comes before all events of the other key. */
  predicate AppearsBefore(events: seq<Event>, key: Key, other: Key) {
    exists i :: 0 <= i < |events| && Belongs(events[i], key) && forall j :: 0 <= j <= i ==> !Belongs(events[j], other)
  }

  /** One stream for every key there is, in order of first appearance. */
  ghost predicate Grouped(events: seq<Event>, streams: seq<Stream>) {
    && (forall i :: 0 <= i < |streams| ==> IsStream(events, streams[i]))
    && (forall i, j :: 0 <= i < j < |streams| ==> AppearsBefore(events, streams[i].key, streams[j].key))
    && forall j :: 0 <= j < |events| ==> exists i :: 0 <= i < |streams| && Belongs(events[j], streams[i].key)
  }

  /** What is wrong with an event: the first of the three fields that is missing, or else its timestamp. */
  predicate FailsWith(e: Event, error: StreamError) {
    match error
    case KeyError(name) =>
      !HasField(e, name)
      && (name == "product"
          || (HasField(e, "product") && (name == "service" || (HasField(e, "service") && name == "timestamp"))))
    case ValueError =>
      HasField(e, "product") && HasField(e, "service") && HasField(e, "timestamp") && e.nanoseconds == None
  }

  predicate Complete(e: Event) {
    HasField(e, "product") && HasField(e, "service") && HasField(e, "timestamp") && e.nanoseconds.Some?
  }

  lemma {:induction false} LookupIs(fields: seq<Field>, name: string, nanoseconds: Option<string>)
    ensures Lookup(fields, name).Some? <==> HasField(Event(fields, nanoseconds), name)
    ensures forall text :: Lookup(fields, name) == Some(text) <==> FieldIs(Event(fields, nanoseconds), name, text)
  {
    if fields != [] {
      var e, rest := Event(fields, nanoseconds), Event(fields[1..], nanoseconds);
      LookupIs(fields[1..], name, nanoseconds);
      assert forall f :: f in fields <==> f == fields[0] || f in fields[1..];
      forall text
        ensures FieldIs(e, name, text) <==> fields[0] == Field(name, text) || (fields[0].name != name && FieldIs(rest, name, text))
      {
        FieldIsStep(e, rest, name, text);
      }
    }
  }

  lemma FieldIsStep(e: Event, rest: Event, name: string, text: string)
    requires e.fields != [] && rest.fields == e.fields[1..]
    ensures FieldIs(e, name, text)
       <==> e.fields[0] == Field(name, text) || (e.fields[0].name != name && FieldIs(rest, name, text))
  {
    if i :| 0 <= i < |e.fields| && e.fields[i] == Field(name, text) && forall j :: 0 <= j < i ==> e.fields[j].name != name {
      if i > 0 {
        assert rest.fields[i - 1] == Field(name, text);
      }
    }
    if e.fields[0].name != name {
      if i :| 0 <= i < |rest.fields| && rest.fields[i] == Field(name, text)
              && forall j :: 0 <= j < i ==> rest.fields[j].name != name {
        assert e.fields[i + 1] == Field(name, text);
        forall j | 0 <= j < i + 1
          ensures e.fields[j].name != name
        {
          assert j > 0 ==> e.fields[j] == rest.fields[j - 1];
        }
      }
    }
  }

  lemma FaultIs(e: Event)
    ensures Fault(e).None? <==> Complete(e)
    ensures Fault(e).Some? ==> FailsWith(e, Fault(e).value)
  {
    hide Lookup, HasField;
    LookupIs(e.fields, "product", e.nanoseconds);
    LookupIs(e.fields, "service", e.nanoseconds);
    LookupIs(e.fields, "timestamp", e.nanoseconds);
  }

  /** The events can be grouped when each has its three fields and a timestamp that can be converted. */
  lemma UsableIff(events: seq<Event>)
    ensures Usable(events) <==> forall i :: 0 <= i < |events| ==> Complete(events[i])
  {
    hide Fault, Complete;
    forall i | 0 <= i < |events|
      ensures Fault(events[i]).None? <==> Complete(events[i])
    {
      FaultIs(events[i]);
    }
  }

  lemma KeyIs(e: Event, key: Key)
    requires Fault(e).None?
    ensures Belongs(e, key) <==> KeyOf(e) == key
  {
    hide Lookup, FieldIs;
    LookupIs(e.fields, "product", e.nanoseconds);
    LookupIs(e.fields, "service", e.nanoseconds);
  }

  lemma {:induction false} ShownPositions(fields: seq<Field>) returns (positions: seq<nat>)
    ensures OthersAt(Shown(fields), fields, positions)
  {
    hide Shown;
    if fields == [] {
      positions := [];
      NothingShown();
    } else {
      var n := |fields| - 1;
      var before := ShownPositions(fields[..n]);
      ShownLast(fields);
      assert fields == fields[..n] + [fields[n]];
      OneMoreField(Shown(fields[..n]), fields[..n], before, fields[n]);
      positions := if IsOther(fields[n]) then before + [n] else before;
    }
  }

  lemma NothingShown()
    ensures Shown([]) == []
  {
  }

  lemma OneMoreField(others: seq<Field>, fields: seq<Field>, positions: seq<nat>, f: Field)
    requires OthersAt(others, fields, positions)
    ensures if IsOther(f) then OthersAt(others + [f], fields + [f], positions + [|fields|])
            else OthersAt(others, fields + [f], positions)
  {
    hide IsOther;
    forall j
      ensures j in positions + [|fields|] <==> j in positions || j == |fields|
    {
    }
    forall j | j in positions
      ensures j < |fields|
    {
      var i :| 0 <= i < |positions| && positions[i] == j;
    }
  }

  lemma {:induction false} ShownLast(fields: seq<Field>)
    requires fields != []
    ensures var n := |fields| - 1;
            Shown(fields) == if IsOther(fields[n]) then Shown(fields[..n]) + [fields[n]] else Shown(fields[..n])
  {
    var n := |fields| - 1;
    if n > 0 {
      ShownLast(fields[1..]);
      assert fields[1..][..n - 1] == fields[..n][1..];
    }
  }

  lemma EntryIs(e: Event)
    requires Fault(e).None?
    ensures IsEntryOf(e, EntryOf(e))
  {
    hide Shown, Line, OthersAt, Decode;
    var positions := ShownPositions(e.fields);
    if PlainNames(e.fields) {
      ShownPlain(e.fields);
      DecodesBack(Shown(e.fields));
      assert AreOthers(Shown(e.fields), e.fields);
    }
  }

  lemma ShownPlain(fields: seq<Field>)
    requires PlainNames(fields)
    ensures PlainNames(Shown(fields))
  {
    hide Shown;
    var positions := ShownPositions(fields);
    forall f | f in Shown(fields)
      ensures f in fields
    {
      var i :| 0 <= i < |Shown(fields)| && Shown(fields)[i] == f;
      assert fields[positions[i]] == f;
    }
  }

  lemma {:induction false} EntryPositions(events: seq<Event>, key: Key) returns (positions: seq<nat>)
    requires Usable(events)
    ensures StreamAt(events, Stream(key, EntriesOf(events, key)), positions)
  {
    hide Fault, KeyOf, EntryOf, Belongs, IsEntryOf, StreamAt;
    if events == [] {
      positions := [];
      NothingStreamed(key);
    } else {
      var n := |events| - 1;
      var before := EntryPositions(events[..n], key);
      assert events == events[..n] + [events[n]];
      KeyIs(events[n], key);
      EntryIs(events[n]);
      OneMoreEvent(events[..n], Stream(key, EntriesOf(events[..n], key)), before, events[n], EntryOf(events[n]));
      positions := if KeyOf(events[n]) == key then before + [n] else before;
    }
  }

  lemma NothingStreamed(key: Key)
    ensures StreamAt([], Stream(key, []), [])
  {
  }

  lemma OneMoreEvent(events: seq<Event>, s: Stream, positions: seq<nat>, e: Event, entry: Entry)
    requires StreamAt(events, s, positions) && IsEntryOf(e, entry)
    ensures if Belongs(e, s.key) then StreamAt(events + [e], Stream(s.key, s.values + [entry]), positions + [|events|])
            else StreamAt(events + [e], s, positions)
  {
    hide Belongs, IsEntryOf;
    forall j
      ensures j in positions + [|events|] <==> j in positions || j == |events|
    {
    }
    forall j | j in positions
      ensures j < |events|
    {
      var i :| 0 <= i < |positions| && positions[i] == j;
    }
  }

  /** Keys are listed in order of first appearance. */
  lemma {:induction false} KeysAppear(events: seq<Event>, i: nat, j: nat)
    requires Usable(events) && i < j < |Keys(events)|
    ensures AppearsBefore(events, Keys(events)[i], Keys(events)[j])
  {
    hide Fault, KeyOf, Belongs, AppearsBefore;
    if events != [] {
      var n := |events| - 1;
      var before, keys := Keys(events[..n]), Keys(events);
      if j < |before| {
        KeysAppear(events[..n], i, j);
        AppearsLonger(events, n, keys[i], keys[j]);
      } else {
        NewAppears(events[..n], keys[i], keys[j]);
        AppearsLonger(events, n, keys[i], keys[j]);
      }
    }
  }

  lemma AppearsLonger(events: seq<Event>, n: nat, key: Key, other: Key)
    requires n <= |events| && AppearsBefore(events[..n], key, other)
    ensures AppearsBefore(events, key, other)
  {
    hide Belongs;
    var k :| 0 <= k < n && Belongs(events[..n][k], key) && forall m :: 0 <= m <= k ==> !Belongs(events[..n][m], other);
    assert Belongs(events[k], key);
    forall m | 0 <= m <= k
      ensures !Belongs(events[m], other)
    {
      assert events[m] == events[..n][m];
    }
  }

  // A key that is listed comes before one that is not listed yet.
  lemma NewAppears(events: seq<Event>, key: Key, other: Key)
    requires Usable(events) && key in Keys(events) && other !in Keys(events)
    ensures AppearsBefore(events, key, other)
  {
    hide Fault, KeyOf, Belongs, Keys;
    KeysDistinct(events);
    var k :| 0 <= k < |events| && KeyOf(events[k]) == key;
    KeyIs(events[k], key);
    forall m | 0 <= m <= k
      ensures !Belongs(events[m], other)
    {
      KeyIs(events[m], other);
      assert KeyOf(events[m]) in Keys(events);
    }
  }

  lemma EveryEventBelongs(events: seq<Event>, j: nat)
    requires Usable(events) && j < |events|
    ensures exists i :: 0 <= i < |Keys(events)| && Belongs(events[j], Keys(events)[i])
  {
    hide Fault, KeyOf, Belongs, Keys;
    KeysDistinct(events);
    assert KeyOf(events[j]) in Keys(events);
    var i :| 0 <= i < |Keys(events)| && Keys(events)[i] == KeyOf(events[j]);
    KeyIs(events[j], Keys(events)[i]);
  }

  lemma KeyedStream(events: seq<Event>, key: Key)
    requires Usable(events)
    ensures IsStream(events, Stream(key, EntriesOf(events, key)))
  {
    hide StreamAt;
    var positions := EntryPositions(events, key);
  }

  /** The streams are the events grouped by their product and service fields. */
  lemma StreamsGrouped(events: seq<Event>)
    requires Usable(events)
    ensures Grouped(events, Streams(events, Keys(events)))
  {
    hide Fault, KeyOf, Belongs, Keys, EntriesOf, Streams, AppearsBefore, IsStream;
    var keys := Keys(events);
    var streams := Streams(events, keys);
    assert |streams| == |keys| && forall i :: 0 <= i < |streams| ==> streams[i] == Stream(keys[i], EntriesOf(events, keys[i]));
    forall i | 0 <= i < |streams|
      ensures IsStream(events, streams[i])
    {
      KeyedStream(events, keys[i]);
    }
    forall i, j | 0 <= i < j < |streams|
      ensures AppearsBefore(events, streams[i].key, streams[j].key)
    {
      KeysAppear(events, i, j);
    }
    forall j | 0 <= j < |events|
      ensures exists i :: 0 <= i < |streams| && Belongs(events[j], streams[i].key)
    {
      EveryEventBelongs(events, j);
      var i :| 0 <= i < |keys| && Belongs(events[j], keys[i]);
      assert streams[i].key == keys[i];
    }
  }

  method ToLokiStreams(events: seq<Event>) returns (r: Result<seq<Stream>, StreamError>)
    ensures r.Ok? <==> Usable(events)
    ensures r.Ok? ==> Grouped(events, r.value)
    ensures r.Ok? ==> r.value == Streams(events, Keys(events))
    ensures r.Err? ==> exists i :: 0 <= i < |events| && Usable(events[..i]) && Fault(events[i]) == Some(r.error)
  {
    hide Fault, KeyOf, EntryOf, Grouped;
    var order: seq<Key> := [];
    var grouped: map<Key, seq<Entry>> := map[];
    for i := 0 to |events|
      invariant Usable(events[..i])
      invariant order == Keys(events[..i])
      invariant forall k :: k in grouped <==> k in order
      invariant forall k :: k in grouped ==> grouped[k] == EntriesOf(events[..i], k)
    {
      var e := events[i];
      if Fault(e).Some? {
        return Err(Fault(e).value);
      }
      assert events[..i + 1][..i] == events[..i];
      var key := KeyOf(e);
      if key !in grouped {
        NoEntries(events[..i], key);
        order := order + [key];
        grouped := grouped[key := []];
      }
      grouped := grouped[key := grouped[key] + [EntryOf(e)]];
    }
    assert events[..|events|] == events;
    StreamsGrouped(events);
    var streams := seq(|order|, i requires 0 <= i < |order| => Stream(order[i], grouped[order[i]]));
    assert streams == Streams(events, Keys(events));
    return Ok(streams);
  }

  lemma {:induction false} NoEntries(events: seq<Event>, key: Key)
    requires Usable(events) && key !in Keys(events)
    ensures EntriesOf(events, key) == []
  {
    if events != [] {
      NoEntries(events[..|events| - 1], key);
    }
  }

  /** No key is listed twice, and the keys listed are those of the events. */
  lemma {:induction false} KeysDistinct(events: seq<Event>)
    requires Usable(events)
    ensures forall i, j :: 0 <= i < j < |Keys(events)| ==> Keys(events)[i] != Keys(events)[j]
    ensures forall i :: 0 <= i < |events| ==> KeyOf(events[i]) in Keys(events)
    ensures forall k :: k in Keys(events) ==> exists i :: 0 <= i < |events| && KeyOf(events[i]) == k
  {
    hide Fault, KeyOf;
    if events != [] {
      var n := |events| - 1;
      KeysDistinct(events[..n]);
      forall k | k in Keys(events)
        ensures exists i :: 0 <= i < |events| && KeyOf(events[i]) == k
      {
        if k in Keys(events[..n]) {
          var i :| 0 <= i < n && KeyOf(events[..n][i]) == k;
          assert KeyOf(events[i]) == k;
        } else {
          assert KeyOf(events[n]) == k;
        }
      }
    }
  }

  function TotalEntries(streams: seq<Stream>): nat {
    if streams == [] then 0 else |streams[0].values| + TotalEntries(streams[1..])
  }

  /** Every event goes to exactly one stream: the streams' keys are distinct, and they hold as many entries together
      as there are events. */
  lemma {:induction false} EveryEventOnce(events: seq<Event>)
    requires Usable(events)
    ensures TotalEntries(Streams(events, Keys(events))) == |events|
  {
    hide Fault, KeyOf, EntryOf, TotalEntries, Streams, EntriesOf;
    if events == [] {
      NoStreams();
    } else {
      var n := |events| - 1;
      var key, before := KeyOf(events[n]), Keys(events[..n]);
      EveryEventOnce(events[..n]);
      KeysDistinct(events[..n]);
      if key in before {
        var i :| 0 <= i < |before| && before[i] == key;
        OneMoreAt(events, before, i);
      } else {
        NewKey(events, before);
      }
    }
  }

  lemma NoStreams()
    ensures TotalEntries(Streams([], Keys([]))) == 0
  {
  }

  // An event with a key of its own adds a stream with one entry.
  lemma NewKey(events: seq<Event>, before: seq<Key>)
    requires Usable(events) && events != []
    requires var n := |events| - 1; before == Keys(events[..n]) && KeyOf(events[n]) !in before
    ensures TotalEntries(Streams(events, before + [KeyOf(events[|events| - 1])]))
         == TotalEntries(Streams(events[..|events| - 1], before)) + 1
  {
    hide Fault, KeyOf, EntryOf, TotalEntries, Streams, Keys;
    var n := |events| - 1;
    var key := KeyOf(events[n]);
    OneMoreNowhere(events, before);
    NoEntries(events[..n], key);
    TotalAppend(Streams(events, before), Stream(key, EntriesOf(events, key)));
    assert Streams(events, before + [key]) == Streams(events, before) + [Stream(key, EntriesOf(events, key))];
  }

  lemma {:induction false} TotalAppend(s: seq<Stream>, t: Stream)
    ensures TotalEntries(s + [t]) == TotalEntries(s) + |t.values|
  {
    if s != [] {
      assert (s + [t])[1..] == s[1..] + [t];
      TotalAppend(s[1..], t);
    }
  }

  lemma {:induction false} OneMoreNowhere(events: seq<Event>, keys: seq<Key>)
    requires Usable(events) && events != []
    requires KeyOf(events[|events| - 1]) !in keys
    ensures TotalEntries(Streams(events, keys)) == TotalEntries(Streams(events[..|events| - 1], keys))
  {
    if keys != [] {
      hide Fault, KeyOf, EntryOf;
      OneMoreNowhere(events, keys[1..]);
      assert Streams(events, keys)[1..] == Streams(events, keys[1..]);
      assert Streams(events[..|events| - 1], keys)[1..] == Streams(events[..|events| - 1], keys[1..]);
    }
  }

  lemma {:induction false} OneMoreAt(events: seq<Event>, keys: seq<Key>, i: nat)
    requires Usable(events) && events != [] && i < |keys|
    requires keys[i] == KeyOf(events[|events| - 1])
    requires forall j, k :: 0 <= j < k < |keys| ==> keys[j] != keys[k]
    ensures TotalEntries(Streams(events, keys)) == TotalEntries(Streams(events[..|events| - 1], keys)) + 1
  {
    hide Fault, KeyOf, EntryOf;
    var short := events[..|events| - 1];
    assert Streams(events, keys)[1..] == Streams(events, keys[1..]);
    assert Streams(short, keys)[1..] == Streams(short, keys[1..]);
    if i == 0 {
      assert keys[0] !in keys[1..];
      OneMoreNowhere(events, keys[1..]);
    } else {
      OneMoreAt(events, keys[1..], i - 1);
    }
  }

  /**
   With '=' in a name, two different events can leave the same streams: they agree in product, service and timestamp,
   and only the line could tell them apart.
   */
  lemma EqualsInNameCollides(product: string, service: string, timestamp: string, nanoseconds: string)
    ensures var common := [Field("product", product), Field("service", service), Field("timestamp", timestamp)];
            var d := [Event(common + [Field("a", "b"), Field("c", "d")], Some(nanoseconds))];
            var e := [Event(common + [Field("a=b c", "d")], Some(nanoseconds))];
            d != e && Usable(d) && Usable(e) && Streams(d, Keys(d)) == Streams(e, Keys(e))
  {
    var p, s, t := Field("product", product), Field("service", service), Field("timestamp", timestamp);
    var first, second := [Field("a", "b"), Field("c", "d")], [Field("a=b c", "d")];
    var d, e := Event([p, s, t] + first, Some(nanoseconds)), Event([p, s, t] + second, Some(nanoseconds));
    assert d.fields[3] != e.fields[3] && [d][0] != [e][0];
    Headed(p, s, t, first);
    Headed(p, s, t, second);
    SameLines(t);
    hide Shown, Lookup, Line;
    OneEvent(d);
    OneEvent(e);
  }

  lemma OneEvent(e: Event)
    requires Fault(e).None?
    ensures Usable([e]) && Streams([e], Keys([e])) == [Stream(KeyOf(e), [EntryOf(e)])]
  {
    hide Fault, KeyOf, EntryOf;
    assert [e][..0] == [];
    assert Keys([e]) == [KeyOf(e)] && EntriesOf([e], KeyOf(e)) == [EntryOf(e)];
  }

  lemma Peel(f: Field, fields: seq<Field>)
    ensures Shown([f] + fields)
         == (if f.name == "product" || f.name == "service" then [] else [f]) + Shown(fields)
    ensures forall name ::
              Lookup([f] + fields, name) == if f.name == name then Some(f.text) else Lookup(fields, name)
  {
    assert ([f] + fields)[1..] == fields;
  }

  lemma Headed(p: Field, s: Field, t: Field, others: seq<Field>)
    requires p.name == "product" && s.name == "service" && t.name == "timestamp"
    requires forall f :: f in others ==> f.name != "product" && f.name != "service"
    ensures var fields := [p, s, t] + others;
            && Lookup(fields, "product") == Some(p.text) && Lookup(fields, "service") == Some(s.text)
            && Lookup(fields, "timestamp") == Some(t.text) && Shown(fields) == [t] + others
  {
    hide Lookup, Shown;
    Peel(p, [s] + ([t] + others));
    Peel(s, [t] + others);
    Peel(t, others);
    assert [p, s, t] + others == [p] + ([s] + ([t] + others));
    assert "service"[0] != "product"[0] && "timestamp"[0] != "product"[0] && "timestamp"[0] != "service"[0];
    AllShown(others);
    assert [] + ([] + ([t] + others)) == [t] + others;
  }

  lemma {:induction false} AllShown(fields: seq<Field>)
    requires forall f :: f in fields ==> f.name != "product" && f.name != "service"
    ensures Shown(fields) == fields
  {
    if fields != [] {
      AllShown(fields[1..]);
    }
  }

  lemma SameLines(t: Field)
    ensures Line([t] + [Field("a", "b"), Field("c", "d")]) == Line([t] + [Field("a=b c", "d")])
  {
    LineOfMore(t, [Field("a", "b"), Field("c", "d")]);
    LineOfMore(t, [Field("a=b c", "d")]);
    LineOfMore(Field("a", "b"), [Field("c", "d")]);
    LineOfOne(Field("c", "d"));
    LineOfOne(Field("a=b c", "d"));
    assert [Field("a", "b")] + [Field("c", "d")] == [Field("a", "b"), Field("c", "d")];
    hide Line;
    assert Logfmt("b") == "b" && Logfmt("d") == "d";
    assert "a=b c" + ("=" + ("d" + "")) == "a" + ("=" + ("b" + (" " + ("c" + ("=" + ("d" + ""))))));
  }
}
