/**
 Decoding a stream of frames. The three decoders (tools/dnp3-dpi, tools/s7comm-dpi, tools/opcua-dpi) run the same
 loop over different frame decoders; what the loop guarantees follows from three properties of the frame decoder,
 gathered in `SelfDelimiting`.
 */
module Framing {

  import opened Octets
  import opened Results

  /** A decoded frame and the number of octets it took. */
  datatype Decoded<F> = Decoded(frame: F, consumed: nat)

  type Decoder<!F, !E> = seq<octet> -> Result<Decoded<F>, E>

  // ---------------------------------------------------------------------------------------------------------
  // What a frame decoder promises
  // ---------------------------------------------------------------------------------------------------------

  /** An accepted frame takes at least `least` octets and no more than there are. */
  ghost predicate Consumes<F(!new), E(!new)>(decode: Decoder<F, E>, least: nat) {
    forall b :: decode(b).Ok? ==> 0 < least <= decode(b).value.consumed <= |b|
  }

  /** A verdict other than "incomplete" is not changed by further octets. */
  ghost predicate Stable<F(!new), E(!new)>(decode: Decoder<F, E>, needed: E -> Option<nat>) {
    forall b, more ::
      decode(b).Ok? || needed(decode(b).error).None? ==> decode(b + more) == decode(b)
  }

  /** A proper prefix of a frame asks for more octets, and for no more than the frame has. */
  ghost predicate Patient<F(!new), E(!new)>(decode: Decoder<F, E>, needed: E -> Option<nat>) {
    forall b, size ::
      decode(b).Ok? && 0 <= size < decode(b).value.consumed <= |b| ==> AsksForMore(decode(b[..size]), needed, size, decode(b).value.consumed)
  }

  predicate AsksForMore<F, E>(r: Result<Decoded<F>, E>, needed: E -> Option<nat>, size: nat, full: nat) {
    r.Err? && needed(r.error).Some? && size < needed(r.error).value <= full
  }

  ghost predicate SelfDelimiting<F(!new), E(!new)>(decode: Decoder<F, E>, needed: E -> Option<nat>, least: nat) {
    Consumes(decode, least) && Stable(decode, needed) && Patient(decode, needed)
  }

  // ---------------------------------------------------------------------------------------------------------
  // The loop
  // ---------------------------------------------------------------------------------------------------------

  /** Frames up to the first error, which is kept as the last entry. */
  ghost function Stream<F(!new), E(!new)>(decode: Decoder<F, E>, least: nat, bytes: seq<octet>): seq<Result<F, E>>
    requires Consumes(decode, least)
    decreases |bytes|
  {
    if bytes == [] then []
    else
      match decode(bytes)
      case Err(e) => [Err(e)]
      case Ok(d) => [Ok(d.frame)] + Stream(decode, least, bytes[d.consumed..])
  }

  /** The octets the loop has not turned into frames when it stops. */
  ghost function Rest<F(!new), E(!new)>(decode: Decoder<F, E>, least: nat, bytes: seq<octet>): seq<octet>
    requires Consumes(decode, least)
    decreases |bytes|
  {
    if bytes == [] then []
    else
      match decode(bytes)
      case Err(_) => bytes
      case Ok(d) => Rest(decode, least, bytes[d.consumed..])
  }

  function Frames<F, E>(s: seq<Result<F, E>>): seq<Result<F, E>> {
    if s == [] then [] else if s[0].Ok? then [s[0]] + Frames(s[1..]) else []
  }

  ghost predicate AllOk<F, E>(s: seq<Result<F, E>>) {
    forall i :: 0 <= i < |s| ==> s[i].Ok?
  }

  // ---------------------------------------------------------------------------------------------------------
  // What the loop promises
  // ---------------------------------------------------------------------------------------------------------

  lemma {:induction false} FramesPrepend<F, E>(f: F, t: seq<Result<F, E>>)
    ensures Frames([Ok(f)] + t) == [Ok(f)] + Frames(t)
  {
    assert ([Ok(f)] + t)[1..] == t;
  }

  lemma {:induction false} FramesAllOk<F, E>(s: seq<Result<F, E>>)
    ensures AllOk(Frames(s)) && |Frames(s)| <= |s|
    ensures AllOk(s) ==> Frames(s) == s
  {
    if s != [] && s[0].Ok? {
      FramesAllOk(s[1..]);
      if AllOk(s) {
        assert AllOk(s[1..]);
      }
    }
  }

  /** What follows the frames: nothing, or the verdict on the octets that were left over. */
  ghost function Ending<F(!new), E(!new)>(decode: Decoder<F, E>, rest: seq<octet>): seq<Result<F, E>> {
    if rest == [] then [] else if decode(rest).Err? then [Err(decode(rest).error)] else []
  }

  /**
   The loop reports frames and then at most one error: the verdict on what it could not decode, which is there
   exactly when octets are left over.
   */
  lemma {:induction false} StreamShape<F(!new), E(!new)>(decode: Decoder<F, E>, least: nat, bytes: seq<octet>)
    requires Consumes(decode, least)
    ensures var s, rest := Stream(decode, least, bytes), Rest(decode, least, bytes);
            s == Frames(s) + Ending(decode, rest) && (rest != [] ==> decode(rest).Err?)
    decreases |bytes|
  {
    if bytes != [] {
      match decode(bytes)
      case Err(e) => assert Frames(Stream(decode, least, bytes)) == [];
      case Ok(d) =>
        StreamShape(decode, least, bytes[d.consumed..]);
        FramesPrepend(d.frame, Stream(decode, least, bytes[d.consumed..]));
    }
  }

  /** No error is reported exactly when no octets are left over. */
  lemma NoErrorIffNoRest<F(!new), E(!new)>(decode: Decoder<F, E>, least: nat, bytes: seq<octet>)
    requires Consumes(decode, least)
    ensures AllOk(Stream(decode, least, bytes)) <==> Rest(decode, least, bytes) == []
  {
    var s, rest := Stream(decode, least, bytes), Rest(decode, least, bytes);
    StreamShape(decode, least, bytes);
    FramesAllOk(s);
    if rest != [] {
      assert s[|s| - 1].Err?;
    }
  }

  /** There are no more frames than the octets allow, so the loop runs at most that often. */
  lemma {:induction false} StreamLength<F(!new), E(!new)>(decode: Decoder<F, E>, least: nat, bytes: seq<octet>)
    requires Consumes(decode, least)
    ensures least * |Frames(Stream(decode, least, bytes))| + |Rest(decode, least, bytes)| <= |bytes|
    decreases |bytes|
  {
    hide Frames;
    if bytes == [] {
      NoFrames<F, E>();
    } else {
      match decode(bytes)
      case Err(e) => FramesOfError<F, E>(e);
      case Ok(d) =>
        var t := Stream(decode, least, bytes[d.consumed..]);
        StreamLength(decode, least, bytes[d.consumed..]);
        FramesPrepend(d.frame, t);
        OneMore(least, |Frames(t)|, |Rest(decode, least, bytes)|, |bytes|, d.consumed);
    }
  }

  lemma NoFrames<F, E>()
    ensures Frames<F, E>([]) == []
  {
  }

  lemma FramesOfError<F, E>(e: E)
    ensures Frames<F, E>([Err(e)]) == []
  {
  }

  lemma OneMore(least: nat, n: nat, rest: nat, size: nat, consumed: nat)
    requires least <= consumed && least * n + rest <= size - consumed
    ensures least * (1 + n) + rest <= size
  {
    assert least * (1 + n) == least + least * n;
  }

  /** Feeding more octets: the frames decoded so far stay, and decoding goes on from the octets left over. */
  lemma {:induction false} StreamExtended<F(!new), E(!new)>(decode: Decoder<F, E>, needed: E -> Option<nat>, least: nat,
                                                             a: seq<octet>, b: seq<octet>)
    requires SelfDelimiting(decode, needed, least)
    ensures Stream(decode, least, a + b)
         == Frames(Stream(decode, least, a)) + Stream(decode, least, Rest(decode, least, a) + b)
    decreases |a|
  {
    if a == [] {
      assert a + b == b && [] + b == b;
    } else if decode(a).Ok? {
      var d := decode(a).value;
      var t := Stream(decode, least, a[d.consumed..]);
      assert decode(a + b) == decode(a);
      assert (a + b)[d.consumed..] == a[d.consumed..] + b;
      StreamExtended(decode, needed, least, a[d.consumed..], b);
      FramesPrepend(d.frame, t);
    }
  }

  /** Where the first part decodes without error, the stream of a concatenation is the concatenation of the streams. */
  lemma StreamComposes<F(!new), E(!new)>(decode: Decoder<F, E>, needed: E -> Option<nat>, least: nat,
                                         a: seq<octet>, b: seq<octet>)
    requires SelfDelimiting(decode, needed, least) && AllOk(Stream(decode, least, a))
    ensures Stream(decode, least, a + b) == Stream(decode, least, a) + Stream(decode, least, b)
  {
    NoErrorIffNoRest(decode, least, a);
    StreamExtended(decode, needed, least, a, b);
    FramesAllOk(Stream(decode, least, a));
    assert [] + b == b;
  }

  /** An error other than "incomplete" is final: no further octets change the report. */
  lemma StreamErrorFinal<F(!new), E(!new)>(decode: Decoder<F, E>, needed: E -> Option<nat>, least: nat,
                                           a: seq<octet>, b: seq<octet>)
    requires SelfDelimiting(decode, needed, least)
    requires var rest := Rest(decode, least, a);
             rest != [] && decode(rest).Err? && needed(decode(rest).error).None?
    ensures Stream(decode, least, a + b) == Stream(decode, least, a)
  {
    var rest := Rest(decode, least, a);
    StreamShape(decode, least, a);
    StreamExtended(decode, needed, least, a, b);
    assert decode(rest + b) == decode(rest);
    assert rest + b != [];
  }

  /**
   A stream cut anywhere inside a frame reports exactly the frames before the cut and then how many octets are
   missing at least.
   */
  lemma StreamCut<F(!new), E(!new)>(decode: Decoder<F, E>, needed: E -> Option<nat>, least: nat,
                                    a: seq<octet>, frame: seq<octet>, size: nat)
    requires SelfDelimiting(decode, needed, least) && AllOk(Stream(decode, least, a))
    requires decode(frame).Ok? && 0 < size < decode(frame).value.consumed
    ensures var s := Stream(decode, least, a + frame[..size]);
            && |s| == |Stream(decode, least, a)| + 1 && Frames(s) == Stream(decode, least, a)
            && s[|s| - 1].Err? && needed(s[|s| - 1].error).Some?
            && size < needed(s[|s| - 1].error).value <= decode(frame).value.consumed
  {
    var cut := frame[..size];
    StreamComposes(decode, needed, least, a, cut);
    assert AsksForMore(decode(cut), needed, size, decode(frame).value.consumed);
    var s := Stream(decode, least, a);
    FramesThenError(s, decode(cut).error);
  }

  lemma {:induction false} FramesThenError<F, E>(s: seq<Result<F, E>>, e: E)
    requires AllOk(s)
    ensures Frames(s + [Err(e)]) == s
  {
    if s != [] {
      assert AllOk(s[1..]);
      FramesThenError(s[1..], e);
      assert (s + [Err(e)])[1..] == s[1..] + [Err(e)];
    }
  }
}
