// What a byte stream means: its unique division into telegrams, junk bytes and an unresolved rest.
module Scanner {
  import opened Bytes
  import opened Wire

  datatype Segment = Junk(b: byte) | Telegram(bytes: seq<byte>)
  {
    function Raw(): seq<byte> {
      match this
      case Junk(b) => [b]
      case Telegram(w) => w
    }
  }

  datatype Parse = Parse(segments: seq<Segment>, rest: seq<byte>)

  /** The parser makes no decision about t yet: there is nothing to look at, or a SYNC without a complete header, or a
      good header whose announced bytes have not all arrived. It looks neither at an early version byte nor at
      sub-frames that have arrived, so it may be waiting in vain. */
  predicate Pending(t: seq<byte>) {
    || t == []
    || (t[0] == SYNC && |t| < HEADER)
    || (HeaderOk(t) && |t| < Announced(t))
  }

  predicate StartsTelegram(t: seq<byte>) {
    HeaderOk(t) && Announced(t) <= |t| && BlocksOk(t[HEADER..Announced(t)])
  }

  /** No continuation of t ever has a telegram at its first byte. */
  ghost predicate Dead(t: seq<byte>) {
    forall ext: seq<byte>, n: nat | n <= |t + ext| :: !WellFormed((t + ext)[..n])
  }

  function Flatten(segments: seq<Segment>): seq<byte> {
    if segments == [] then [] else segments[0].Raw() + Flatten(segments[1..])
  }

  function Frames(segments: seq<Segment>): seq<Frame>
    requires forall g | g in segments && g.Telegram? :: WellFormed(g.bytes)
  {
    if segments == [] then []
    else (if segments[0].Telegram? then [Decoded(segments[0].bytes)] else []) + Frames(segments[1..])
  }

  /** The left-to-right scan, one decision at a time. */
  function Scan(t: seq<byte>): (p: Parse)
    ensures forall g | g in p.segments && g.Telegram? :: WellFormed(g.bytes)
    decreases |t|
  {
    if Pending(t) then Parse([], t)
    else if StartsTelegram(t) then
      var n := Announced(t);
      TelegramPrefix(t);
      var p := Scan(t[n..]);
      Parse([Telegram(t[..n])] + p.segments, p.rest)
    else
      var p := Scan(t[1..]);
      Parse([Junk(t[0])] + p.segments, p.rest)
  }

  function Output(t: seq<byte>): seq<Frame> { Frames(Scan(t).segments) }

  function Rest(t: seq<byte>): seq<byte> { Scan(t).rest }

  // ---- Local facts -------------------------------------------------------------------------------

  lemma TelegramPrefix(t: seq<byte>)
    requires HeaderOk(t) && Announced(t) <= |t|
    ensures WellFormed(t[..Announced(t)]) <==> StartsTelegram(t)
  {
    var n := Announced(t);
    assert t[..n] + t[n..] == t;
    HeaderExtends(t[..n], t[n..]);
    assert t[..n][HEADER..] == t[HEADER..n];
  }

  /** A stream has a telegram in front exactly when it has a well-formed prefix, and then only one. */
  lemma WellFormedPrefix(t: seq<byte>, n: nat)
    requires n <= |t| && WellFormed(t[..n])
    ensures StartsTelegram(t) && n == Announced(t) && !Pending(t)
  {
    assert t[..n] + t[n..] == t;
    HeaderExtends(t[..n], t[n..]);
    TelegramPrefix(t);
  }

  /** Once a position is resolved, later bytes do not change the decision. */
  lemma ResolvedStays(t: seq<byte>, ext: seq<byte>)
    requires !Pending(t)
    ensures !Pending(t + ext)
    ensures StartsTelegram(t + ext) <==> StartsTelegram(t)
    ensures StartsTelegram(t) ==> Announced(t + ext) == Announced(t)
  {
    if |t| >= HEADER {
      HeaderExtends(t, ext);
      if HeaderOk(t) {
        assert (t + ext)[HEADER..Announced(t)] == t[HEADER..Announced(t)];
      }
    }
  }

  lemma RejectedIsDead(t: seq<byte>)
    requires !Pending(t) && !StartsTelegram(t)
    ensures Dead(t)
  {
    forall ext: seq<byte>, n: nat | n <= |t + ext|
      ensures !WellFormed((t + ext)[..n])
    {
      ResolvedStays(t, ext);
      if WellFormed((t + ext)[..n]) {
        WellFormedPrefix(t + ext, n);
      }
    }
  }

  lemma TelegramNotDead(t: seq<byte>)
    requires StartsTelegram(t)
    ensures !Dead(t)
  {
    TelegramPrefix(t);
    assert t + [] == t;
    assert WellFormed((t + [])[..Announced(t)]);
  }

  // ---- The declarative reading and its uniqueness ------------------------------------------------

  /** Segment i of a parse, judged by the stream from its first byte on. */
  ghost predicate SegmentOk(g: Segment, t: seq<byte>) {
    match g
    case Telegram(w) => WellFormed(w)
    case Junk(_) => !Pending(t) && Dead(t)
  }

  /** The stream from segment i on. */
  function From(p: Parse, i: nat): seq<byte>
    requires i <= |p.segments|
  {
    Flatten(p.segments[i..]) + p.rest
  }

  /** The segments and the rest make up the stream; the telegrams are well formed; a byte is junk only where the
      decision has been reached and no continuation could ever have a telegram; about the rest there is no decision
      yet. */
  ghost predicate IsParse(s: seq<byte>, p: Parse) {
    && From(p, 0) == s
    && Pending(p.rest)
    && forall i | 0 <= i < |p.segments| :: SegmentOk(p.segments[i], From(p, i))
  }

  function Tail(p: Parse): Parse
    requires p.segments != []
  {
    Parse(p.segments[1..], p.rest)
  }

  lemma IsParseCons(s: seq<byte>, p: Parse)
    requires p.segments != []
    requires s == p.segments[0].Raw() + From(Tail(p), 0)
    ensures IsParse(s, p) <==> SegmentOk(p.segments[0], s) && IsParse(From(Tail(p), 0), Tail(p))
  {
    assert p.segments[0..] == p.segments && Tail(p).segments[0..] == Tail(p).segments;
    assert From(p, 0) == s;
    forall i | 0 <= i < |Tail(p).segments|
      ensures From(Tail(p), i) == From(p, i + 1) && Tail(p).segments[i] == p.segments[i + 1]
    {
      assert Tail(p).segments[i..] == p.segments[i + 1..];
    }
    if IsParse(s, p) {
      forall i | 0 <= i < |Tail(p).segments|
        ensures SegmentOk(Tail(p).segments[i], From(Tail(p), i))
      {
        assert SegmentOk(p.segments[i + 1], From(p, i + 1));
      }
    }
  }

  lemma FromZero(p: Parse)
    ensures From(p, 0) == Flatten(p.segments) + p.rest
    ensures p.segments != [] ==> From(p, 0) == p.segments[0].Raw() + From(Tail(p), 0)
  {
    assert p.segments[0..] == p.segments;
    if p.segments != [] {
      assert Tail(p).segments[0..] == p.segments[1..];
    }
  }

  /** How many bytes the decision at the head of t resolves. */
  function Stride(t: seq<byte>): (n: nat)
    requires !Pending(t)
    ensures 1 <= n <= |t|
  {
    if StartsTelegram(t) then Announced(t) else 1
  }

  /** The segment that the decision at the head of t produces. */
  function Head(t: seq<byte>): (g: Segment)
    requires !Pending(t)
    ensures g.Raw() == t[..Stride(t)]
  {
    if StartsTelegram(t) then Telegram(t[..Announced(t)]) else Junk(t[0])
  }

  lemma ScanStep(t: seq<byte>)
    requires !Pending(t)
    ensures Scan(t) == Parse([Head(t)] + Scan(t[Stride(t)..]).segments, Rest(t[Stride(t)..]))
    ensures Scan(t).segments != [] && Scan(t).segments[0] == Head(t) && Tail(Scan(t)) == Scan(t[Stride(t)..])
    ensures t == Head(t).Raw() + t[Stride(t)..]
    ensures SegmentOk(Head(t), t)
  {
    if StartsTelegram(t) {
      TelegramPrefix(t);
    } else {
      RejectedIsDead(t);
    }
  }

  lemma {:induction false} ScanIsParse(t: seq<byte>)
    ensures IsParse(t, Scan(t))
    decreases |t|
  {
    if Pending(t) {
      FromZero(Scan(t));
    } else {
      var u := t[Stride(t)..];
      ScanIsParse(u);
      assert From(Scan(u), 0) == u;
      hide *;
      ScanStep(t);
      IsParseCons(t, Scan(t));
    }
  }

  /** A segment that fits the declaration is the one the decision at the head produces. */
  lemma HeadMatches(t: seq<byte>, g: Segment, u: seq<byte>)
    requires t == g.Raw() + u && SegmentOk(g, t)
    ensures !Pending(t) && Head(t) == g && t[Stride(t)..] == u
  {
    match g
    case Junk(b) =>
      if StartsTelegram(t) {
        TelegramNotDead(t);
      }
    case Telegram(w) =>
      assert t[..|w|] == w && t[|w|..] == u;
      WellFormedPrefix(t, |w|);
  }

  /** The declarative reading leaves no choice. */
  lemma {:induction false} ParseUnique(t: seq<byte>, p: Parse)
    requires IsParse(t, p)
    ensures p == Scan(t)
    decreases |p.segments|
  {
    FromZero(p);
    if p.segments == [] {
      assert t == p.rest;
    } else {
      var g, u := p.segments[0], From(Tail(p), 0);
      assert t == g.Raw() + u;
      assert p == Parse([g] + Tail(p).segments, Tail(p).rest);
      IsParseCons(t, p);
      ParseUnique(u, Tail(p));
      assert Rest(u) == Scan(u).rest;
      hide *;
      HeadMatches(t, g, u);
      ScanStep(t);
    }
  }

  /** The scan is the one and only declarative parse. */
  lemma ScanRefinesDeclaration(t: seq<byte>, p: Parse)
    ensures IsParse(t, p) <==> p == Scan(t)
  {
    ScanIsParse(t);
    if IsParse(t, p) {
      ParseUnique(t, p);
    }
  }

  /** Where segment i of a parse begins in the stream. */
  function Position(p: Parse, i: nat): nat
    requires i <= |p.segments|
  {
    |Flatten(p.segments[..i])|
  }

  lemma {:induction false} FlattenConcat(g: seq<Segment>, h: seq<Segment>)
    ensures Flatten(g + h) == Flatten(g) + Flatten(h)
  {
    if g == [] {
      assert g + h == h;
    } else {
      assert (g + h)[1..] == g[1..] + h;
      FlattenConcat(g[1..], h);
      AppendAssoc(g[0].Raw(), Flatten(g[1..]), Flatten(h));
    }
  }

  lemma PositionCuts(p: Parse, i: nat)
    requires i <= |p.segments|
    ensures From(p, 0) == Flatten(p.segments[..i]) + From(p, i)
  {
    var g, h := p.segments[..i], p.segments[i..];
    assert p.segments[0..] == g + h;
    hide *;
    FlattenConcat(g, h);
    FromIs(p, i);
    FromIs(p, 0);
    AppendAssoc(Flatten(g), Flatten(h), p.rest);
  }

  lemma FromIs(p: Parse, i: nat)
    requires i <= |p.segments|
    ensures From(p, i) == Flatten(p.segments[i..]) + p.rest
  {
  }

  lemma PositionStep(p: Parse, i: nat)
    requires i < |p.segments|
    ensures Flatten(p.segments[..i + 1]) == Flatten(p.segments[..i]) + p.segments[i].Raw()
  {
    var g, s := p.segments[..i], p.segments[i];
    assert p.segments[..i + 1] == g + [s];
    assert Flatten([s]) == s.Raw() + Flatten([]);
    hide *;
    FlattenConcat(g, [s]);
    FlattenNone(s.Raw());
  }

  lemma FlattenNone(r: seq<byte>)
    ensures r + Flatten([]) == r
  {
  }

  /** Segment i of a parse of t sits in t at its position. */
  lemma SegmentInPlace(t: seq<byte>, p: Parse, i: nat)
    requires i < |p.segments| && From(p, 0) == t
    ensures Position(p, i) + |p.segments[i].Raw()| == Position(p, i + 1) <= |t|
    ensures t[Position(p, i)..Position(p, i + 1)] == p.segments[i].Raw()
    ensures t[Position(p, i)..] == From(p, i)
  {
    hide Flatten, From;
    PositionCuts(p, i);
    PositionCuts(p, i + 1);
    PositionStep(p, i);
    SliceOf(Flatten(p.segments[..i]), p.segments[i].Raw(), From(p, i + 1));
    SuffixOf(Flatten(p.segments[..i]), From(p, i));
  }

  lemma SliceOf(a: seq<byte>, b: seq<byte>, c: seq<byte>)
    ensures (a + b + c)[|a|..|a| + |b|] == b
  {
  }

  lemma SuffixOf(a: seq<byte>, b: seq<byte>)
    ensures (a + b)[|a|..] == b
  {
  }

  /** What a judged segment says about the stream from its position on. */
  lemma JudgedSegment(g: Segment, u: seq<byte>)
    requires SegmentOk(g, u) && g.Raw() <= u
    ensures g.Telegram? ==> StartsTelegram(u)
    ensures g.Junk? ==> Dead(u)
  {
    if g.Telegram? {
      assert u[..|g.bytes|] == g.bytes;
      WellFormedPrefix(u, |g.bytes|);
    }
  }

  lemma JudgedAt(t: seq<byte>, p: Parse, i: nat)
    requires IsParse(t, p) && i < |p.segments|
    ensures From(p, 0) == t && SegmentOk(p.segments[i], From(p, i))
  {
  }

  lemma RawFirst(p: Parse, i: nat)
    requires i < |p.segments|
    ensures p.segments[i].Raw() <= From(p, i)
  {
    assert p.segments[i..][0] == p.segments[i];
  }

  /** The segments occupy adjacent, increasing intervals of the stream: an emitted telegram is the slice of the stream
      at its position, and at the position of a junk byte no telegram ever starts. */
  lemma SegmentIntervals(t: seq<byte>, i: nat)
    requires i < |Scan(t).segments|
    ensures var p, at := Scan(t), Position(Scan(t), i);
      && at + |p.segments[i].Raw()| == Position(p, i + 1) <= |t|
      && t[at..at + |p.segments[i].Raw()|] == p.segments[i].Raw()
      && (p.segments[i].Telegram? ==> StartsTelegram(t[at..]))
      && (p.segments[i].Junk? ==> Dead(t[at..]))
  {
    hide *;
    var p := Scan(t);
    ScanIsParse(t);
    JudgedAt(t, p, i);
    SegmentInPlace(t, p, i);
    RawFirst(p, i);
    JudgedSegment(p.segments[i], From(p, i));
  }

  // ---- Incrementality ----------------------------------------------------------------------------

  /** Scanning a stream that arrives in two parts is scanning the first part and then resuming from its rest. */
  lemma {:induction false} ScanResumes(a: seq<byte>, b: seq<byte>)
    ensures Scan(a + b) == Parse(Scan(a).segments + Scan(Rest(a) + b).segments, Rest(Rest(a) + b))
    decreases |a|
  {
    if Pending(a) {
      assert [] + Scan(a + b).segments == Scan(a + b).segments;
    } else {
      var n, u := Stride(a), a[Stride(a)..];
      HeadStays(a, b);
      ScanStep(a);
      ScanStep(a + b);
      ScanResumes(u, b);
      assert Rest(a) == Rest(u);
      hide *;
      AppendAssoc([Head(a)], Scan(u).segments, Scan(Rest(u) + b).segments);
    }
  }

  /** The decision at the head of a is still the same with more bytes behind it. */
  lemma HeadStays(a: seq<byte>, b: seq<byte>)
    requires !Pending(a)
    ensures !Pending(a + b) && Stride(a + b) == Stride(a) && Head(a + b) == Head(a)
    ensures (a + b)[Stride(a)..] == a[Stride(a)..] + b
  {
    ResolvedStays(a, b);
    assert (a + b)[..Stride(a)] == a[..Stride(a)];
  }

  lemma FramesStep(g: seq<Segment>)
    requires g != [] && forall s | s in g && s.Telegram? :: WellFormed(s.bytes)
    ensures forall s | s in g[1..] && s.Telegram? :: WellFormed(s.bytes)
    ensures g[0].Telegram? ==> WellFormed(g[0].bytes)
    ensures Frames(g) == (if g[0].Telegram? then [Decoded(g[0].bytes)] else []) + Frames(g[1..])
  {
  }

  lemma {:induction false} FramesConcat(g: seq<Segment>, h: seq<Segment>)
    requires forall s | s in g + h && s.Telegram? :: WellFormed(s.bytes)
    ensures forall s | s in g :: s in g + h
    ensures forall s | s in h :: s in g + h
    ensures Frames(g + h) == Frames(g) + Frames(h)
  {
    hide *;
    assert forall s | s in g + h :: s in g || s in h;
    if g == [] {
      assert g + h == h;
      NoFrames();
    } else {
      assert (g + h)[1..] == g[1..] + h && (g + h)[0] == g[0];
      FramesStep(g + h);
      FramesStep(g);
      FramesConcat(g[1..], h);
      AppendAssoc(if g[0].Telegram? then [Decoded(g[0].bytes)] else [], Frames(g[1..]), Frames(h));
    }
  }

  lemma NoFrames()
    ensures Frames([]) == []
  {
  }

  lemma OutputResumes(a: seq<byte>, b: seq<byte>)
    ensures Output(a + b) == Output(a) + Output(Rest(a) + b)
    ensures Rest(a + b) == Rest(Rest(a) + b)
  {
    ScanResumes(a, b);
    FramesConcat(Scan(a).segments, Scan(Rest(a) + b).segments);
  }

  function Concat(chunks: seq<seq<byte>>): seq<byte> {
    if chunks == [] then [] else Concat(chunks[..|chunks| - 1]) + chunks[|chunks| - 1]
  }

  /** Concatenation keeps every chunk, whatever its length, in order. */
  lemma {:induction false} ConcatLaws(a: seq<seq<byte>>, c: seq<byte>, b: seq<seq<byte>>)
    ensures Concat([]) == [] && Concat([c]) == c
    ensures Concat(a + b) == Concat(a) + Concat(b)
    decreases |b|
  {
    assert [c][..0] == [];
    if b == [] {
      assert a + b == a;
    } else {
      var n := |b| - 1;
      ConcatLaws(a, c, b[..n]);
      assert (a + b)[..|a + b| - 1] == a + b[..n];
    }
  }

  /** Feeding chunk after chunk into a parser that keeps the rest between calls. */
  function FeedAll(chunks: seq<seq<byte>>): (seq<Frame>, seq<byte>) {
    if chunks == [] then ([], [])
    else
      var (out, buf) := FeedAll(chunks[..|chunks| - 1]);
      var t := buf + chunks[|chunks| - 1];
      (out + Output(t), Rest(t))
  }

  /** However a stream is cut up, the same frames come out in the same order and the same bytes are retained. */
  lemma {:induction false} ChunkingInvariance(chunks: seq<seq<byte>>)
    ensures FeedAll(chunks) == (Output(Concat(chunks)), Rest(Concat(chunks)))
  {
    if chunks != [] {
      ChunkingInvariance(chunks[..|chunks| - 1]);
      OutputResumes(Concat(chunks[..|chunks| - 1]), chunks[|chunks| - 1]);
    }
  }

  /** The frames known after a prefix are a prefix of the frames known later. */
  lemma OutputMonotone(a: seq<byte>, b: seq<byte>)
    ensures Output(a) <= Output(a + b)
  {
    OutputResumes(a, b);
  }

  // ---- Retention and conservation ----------------------------------------------------------------

  /** The retained rest is empty or starts with SYNC, is shorter than the longest telegram, and is a suffix of
      the stream: every byte is resolved once 1540 bytes from it on have arrived. */
  lemma {:induction false} BoundedRetention(t: seq<byte>)
    ensures Pending(Rest(t))
    ensures Rest(t) == [] || Rest(t)[0] == SYNC
    ensures |Rest(t)| < HEADER + BLOCK * 255
    ensures |Rest(t)| <= |t| && Rest(t) == t[|t| - |Rest(t)|..]
    decreases |t|
  {
    if !Pending(t) {
      var n := if StartsTelegram(t) then Announced(t) else 1;
      BoundedRetention(t[n..]);
      assert Rest(t) == Rest(t[n..]);
    }
  }

  function Skipped(segments: seq<Segment>): nat {
    if segments == [] then 0 else (if segments[0].Junk? then 1 else 0) + Skipped(segments[1..])
  }

  function WireLength(frames: seq<Frame>): nat {
    if frames == [] then 0 else HEADER + 3 * |frames[0].payload| / 2 + WireLength(frames[1..])
  }

  lemma {:induction false} FlattenLength(segments: seq<Segment>)
    requires forall g | g in segments && g.Telegram? :: WellFormed(g.bytes)
    ensures |Flatten(segments)| == Skipped(segments) + WireLength(Frames(segments))
  {
    if segments != [] {
      FlattenLength(segments[1..]);
      var fs := Frames(segments[1..]);
      if segments[0].Telegram? {
        assert Frames(segments) == [Decoded(segments[0].bytes)] + fs;
        assert Frames(segments)[1..] == fs;
      } else {
        assert Frames(segments) == fs;
      }
    }
  }

  /** Every received byte is skipped, part of exactly one emitted frame, or retained. */
  lemma ByteConservation(t: seq<byte>)
    ensures |t| == Skipped(Scan(t).segments) + WireLength(Output(t)) + |Rest(t)|
  {
    ScanIsParse(t);
    FromZero(Scan(t));
    FlattenLength(Scan(t).segments);
  }
}
