// The bridge's read loop: accumulates the latest telemetry per source and publishes it at intervals.
module Bridge {
  import opened Bytes
  import opened Wire
  import opened Scanner
  import opened VBusParser
  import opened Registries
  import opened VersionProtocol

  datatype Read = Data(bytes: seq<byte>) | ReadError

  /** What one iteration of the loop meets: whether the config version changed, what the device returns (no bytes on a
      timeout), the clock at the interval check and after publishing, and the publish interval then in force. */
  datatype Iteration = Iteration(versionChanged: bool, read: Read, checkedAt: int, publishedAt: int, interval: int)
  {
    predicate Runs() { !versionChanged && read.Data? }

    function Got(): seq<byte> { if read.Data? then read.bytes else [] }
  }

  type Table = map<u16, Telemetry>

  /** What was published, in which iteration, and when publishing ended. */
  datatype Publication = Publication(iteration: nat, endedAt: int, table: Table)

  datatype Outcome = Finished | ConfigChanged | SerialError

  // ---- The latest telemetry per source -------------------------------------------------------------

  /** The last-value table after a sequence of frames; frames of unknown devices change nothing. */
  function Latest(model: map<Key, PacketDef>, frames: seq<Frame>): Table {
    if frames == [] then map[]
    else
      var f := frames[|frames| - 1];
      var table := Latest(model, frames[..|frames| - 1]);
      if FrameKey(f) in model then table[f.source := Decoding(f, model[FrameKey(f)])] else table
  }

  /** Frame i is the last one from this source whose address is in the registry. */
  ghost predicate LastKnown(model: map<Key, PacketDef>, frames: seq<Frame>, src: u16, i: nat) {
    && i < |frames| && frames[i].source == src && FrameKey(frames[i]) in model
    && forall j | i < j < |frames| :: frames[j].source == src ==> FrameKey(frames[j]) !in model
  }

  lemma {:induction false} LatestOfLast(model: map<Key, PacketDef>, frames: seq<Frame>, src: u16, i: nat)
    requires LastKnown(model, frames, src, i)
    ensures src in Latest(model, frames)
    ensures Latest(model, frames)[src] == Decoding(frames[i], model[FrameKey(frames[i])])
  {
    var n := |frames| - 1;
    if i < n {
      assert LastKnown(model, frames[..n], src, i);
      LatestOfLast(model, frames[..n], src, i);
      assert frames[n].source == src ==> FrameKey(frames[n]) !in model;
    }
  }

  lemma {:induction false} LatestHasLast(model: map<Key, PacketDef>, frames: seq<Frame>, src: u16) returns (i: nat)
    requires src in Latest(model, frames)
    ensures LastKnown(model, frames, src, i)
  {
    var n := |frames| - 1;
    if frames[n].source == src && FrameKey(frames[n]) in model {
      i := n;
    } else {
      i := LatestHasLast(model, frames[..n], src);
    }
  }

  /** The table has a source exactly when a known-device frame came from it, and then holds the decoding of the last
      such frame. */
  lemma LatestIff(model: map<Key, PacketDef>, frames: seq<Frame>, src: u16)
    ensures src in Latest(model, frames) <==> exists i: nat :: LastKnown(model, frames, src, i)
    ensures forall i: nat | LastKnown(model, frames, src, i) ::
      src in Latest(model, frames) && Latest(model, frames)[src] == Decoding(frames[i], model[FrameKey(frames[i])])
  {
    if src in Latest(model, frames) {
      var i := LatestHasLast(model, frames, src);
    }
    forall i: nat | LastKnown(model, frames, src, i)
      ensures src in Latest(model, frames)
      ensures Latest(model, frames)[src] == Decoding(frames[i], model[FrameKey(frames[i])])
    {
      LatestOfLast(model, frames, src, i);
    }
  }

  // ---- When to publish -----------------------------------------------------------------------------

  /** All bytes read in the first k iterations. */
  function Received(its: seq<Iteration>, k: nat): seq<byte>
    requires k <= |its|
  {
    if k == 0 then [] else Received(its, k - 1) + its[k - 1].Got()
  }

  /** The table that the bytes of the first k iterations make up, however they were cut into reads. */
  function TableAt(model: map<Key, PacketDef>, its: seq<Iteration>, k: nat): Table
    requires k <= |its|
  {
    Latest(model, Output(Received(its, k)))
  }

  /** When the last publication ended; before the first one, when the loop started. */
  function LastPublish(start: int, pubs: seq<Publication>): int {
    if |pubs| == 0 then start else pubs[|pubs| - 1].endedAt
  }

  /** The publications of the first k iterations: one in every iteration where there is something to publish and the
      interval has passed since the last one. */
  function Schedule(model: map<Key, PacketDef>, its: seq<Iteration>, start: int, k: nat): (pubs: seq<Publication>)
    requires k <= |its|
  {
    if k == 0 then []
    else
      var before := Schedule(model, its, start, k - 1);
      before + Due(its[k - 1], k - 1, LastPublish(start, before), TableAt(model, its, k))
  }

  function Due(it: Iteration, k: nat, last: int, table: Table): seq<Publication> {
    if it.checkedAt - last >= it.interval && table != map[] then [Publication(k, it.publishedAt, table)] else []
  }

  /** The accumulator update for the frames of one read. */
  method Accumulate(reg: Registry, accum: Table, frames: seq<Frame>, ghost earlier: seq<Frame>) returns (table: Table)
    requires reg.Valid() && accum == Latest(reg.model, earlier)
    ensures table == Latest(reg.model, earlier + frames)
  {
    table := accum;
    assert earlier + frames[..0] == earlier;
    for i := 0 to |frames|
      invariant table == Latest(reg.model, earlier + frames[..i])
    {
      var f := frames[i];
      LatestSnoc(reg.model, earlier + frames[..i], f);
      assert earlier + frames[..i + 1] == earlier + frames[..i] + [f];
      var telemetry, known := Decode(f, reg);
      if !known {
        continue;
      }
      table := table[f.source := telemetry];
    }
    assert frames[..|frames|] == frames;
  }

  lemma LatestSnoc(model: map<Key, PacketDef>, frames: seq<Frame>, f: Frame)
    ensures Latest(model, frames + [f]) ==
      if FrameKey(f) in model then Latest(model, frames)[f.source := Decoding(f, model[FrameKey(f)])]
      else Latest(model, frames)
  {
    assert (frames + [f])[..|frames|] == frames;
  }

  /** How many iterations run before the loop is left. */
  predicate Leaves(its: seq<Iteration>, done: nat, outcome: Outcome)
    requires done <= |its|
  {
    && (forall i | 0 <= i < done :: its[i].Runs())
    && (outcome.Finished? <==> done == |its|)
    && (outcome.ConfigChanged? ==> done < |its| && its[done].versionChanged)
    && (outcome.SerialError? ==> done < |its| && !its[done].versionChanged && its[done].read.ReadError?)
  }

  lemma EmptyTable(model: map<Key, PacketDef>)
    ensures Latest(model, Output([])) == map[]
  {
  }

  method ReadLoop(reg: Registry, its: seq<Iteration>, start: int)
      returns (pubs: seq<Publication>, outcome: Outcome, done: nat)
    requires reg.Valid()
    ensures done <= |its| && Leaves(its, done, outcome)
    ensures pubs == Schedule(reg.model, its, start, done)
  {
    hide Scan, Frames, Latest;
    EmptyTable(reg.model);
    var parser := new Parser();
    var accum: Table := map[];
    var lastPublish := start;
    pubs, done := [], 0;
    while done < |its|
      invariant done <= |its| && forall i | 0 <= i < done :: its[i].Runs()
      invariant reg.Valid() && parser.Valid()
      invariant parser.fed == Received(its, done)
      invariant accum == TableAt(reg.model, its, done)
      invariant pubs == Schedule(reg.model, its, start, done)
      invariant lastPublish == LastPublish(start, pubs)
    {
      var it := its[done];
      if it.versionChanged {
        outcome := ConfigChanged;
        return;
      }
      if it.read.ReadError? {
        outcome := SerialError;
        return;
      }
      ghost var earlier := parser.emitted;
      if |it.read.bytes| > 0 {
        var frames := parser.Feed(it.read.bytes);
        accum := Accumulate(reg, accum, frames, earlier);
      }
      assert parser.fed == Received(its, done + 1);
      if it.checkedAt - lastPublish >= it.interval && |accum| > 0 {
        pubs := pubs + [Publication(done, it.publishedAt, accum)];
        lastPublish := it.publishedAt;
      }
      done := done + 1;
    }
    outcome := Finished;
  }

  // ---- What the table is made of -------------------------------------------------------------------

  /** What the device returned in the first k iterations. */
  function Reads(its: seq<Iteration>, k: nat): (chunks: seq<seq<byte>>)
    requires k <= |its| && forall i | 0 <= i < k :: its[i].read.Data?
    ensures |chunks| == k && forall i | 0 <= i < k :: chunks[i] == its[i].read.bytes
  {
    seq(k, i requires 0 <= i < k => its[i].read.bytes)
  }

  lemma {:induction false} ReceivedIsReads(its: seq<Iteration>, k: nat)
    requires k <= |its| && forall i | 0 <= i < k :: its[i].read.Data?
    ensures Received(its, k) == Concat(Reads(its, k))
  {
    if k > 0 {
      ReceivedIsReads(its, k - 1);
      assert Reads(its, k)[..k - 1] == Reads(its, k - 1);
    }
  }

  /** The table comes from all bytes of all reads, however short each of them is. */
  lemma TableOfReads(model: map<Key, PacketDef>, its: seq<Iteration>, k: nat)
    requires k <= |its| && forall i | 0 <= i < k :: its[i].read.Data?
    ensures TableAt(model, its, k) == Latest(model, Output(Concat(Reads(its, k))))
  {
    ReceivedIsReads(its, k);
  }

  /** Two runs that read the same bytes, cut in whatever way, have the same table. */
  lemma TableIgnoresCuts(model: map<Key, PacketDef>, its: seq<Iteration>, k: nat, jts: seq<Iteration>, l: nat)
    requires k <= |its| && forall i | 0 <= i < k :: its[i].read.Data?
    requires l <= |jts| && forall i | 0 <= i < l :: jts[i].read.Data?
    requires Concat(Reads(its, k)) == Concat(Reads(jts, l))
    ensures TableAt(model, its, k) == TableAt(model, jts, l)
  {
    TableOfReads(model, its, k);
    TableOfReads(model, jts, l);
  }

  /** The loop is left at the first changed version or read error, for that reason, or at the end. */
  lemma LeavesIff(its: seq<Iteration>, done: nat, outcome: Outcome)
    requires done <= |its|
    ensures Leaves(its, done, outcome) <==>
      && (forall i | 0 <= i < done :: !its[i].versionChanged && !its[i].read.ReadError?)
      && outcome ==
         (if done == |its| then Finished else if its[done].versionChanged then ConfigChanged else SerialError)
      && (done < |its| ==> its[done].versionChanged || its[done].read.ReadError?)
  {
  }

  // ---- What the schedule guarantees ----------------------------------------------------------------

  /** The clock does not go back while publishing. */
  predicate Forward(its: seq<Iteration>) {
    forall i | 0 <= i < |its| :: its[i].checkedAt <= its[i].publishedAt
  }

  /** Publication j shows, for each source, the decoding of the last known-device frame in all bytes received so far,
      and starts at least the interval then in force after the publication before it ended. */
  ghost predicate Correct(model: map<Key, PacketDef>, its: seq<Iteration>, start: int, pubs: seq<Publication>, j: nat)
    requires j < |pubs|
  {
    var p, i := pubs[j], pubs[j].iteration;
    var since := if j == 0 then start else pubs[j - 1].endedAt;
    && i < |its| && p.endedAt == its[i].publishedAt
    && p.table == TableAt(model, its, i + 1) != map[]
    && its[i].checkedAt - since >= its[i].interval
    && (j > 0 ==> pubs[j - 1].iteration < i)
  }

  lemma CorrectOld(model: map<Key, PacketDef>, its: seq<Iteration>, start: int,
                   before: seq<Publication>, due: seq<Publication>, j: nat)
    requires j < |before| && Correct(model, its, start, before, j)
    ensures Correct(model, its, start, before + due, j)
  {
  }

  lemma CorrectNew(model: map<Key, PacketDef>, its: seq<Iteration>, start: int, before: seq<Publication>, k: nat)
    requires k < |its| && (|before| > 0 ==> before[|before| - 1].iteration < k)
    ensures var due := Due(its[k], k, LastPublish(start, before), TableAt(model, its, k + 1));
      |due| <= 1 && (|due| > 0 ==> Correct(model, its, start, before + due, |before|))
  {
    hide TableAt;
  }

  lemma ScheduleAppends(model: map<Key, PacketDef>, its: seq<Iteration>, start: int, k: nat)
    requires 0 < k <= |its|
    ensures var before := Schedule(model, its, start, k - 1);
      Schedule(model, its, start, k) ==
      before + Due(its[k - 1], k - 1, LastPublish(start, before), TableAt(model, its, k))
  {
  }

  lemma DueIteration(it: Iteration, k: nat, last: int, table: Table)
    ensures var due := Due(it, k, last, table); |due| <= 1 && (|due| > 0 ==> due[0].iteration == k)
  {
  }

  lemma ScheduleNone(model: map<Key, PacketDef>, its: seq<Iteration>, start: int)
    ensures Schedule(model, its, start, 0) == []
  {
  }

  lemma {:induction false} LastIteration(model: map<Key, PacketDef>, its: seq<Iteration>, start: int, k: nat)
    requires k <= |its|
    ensures var pubs := Schedule(model, its, start, k); |pubs| > 0 ==> pubs[|pubs| - 1].iteration < k
  {
    hide *;
    if k == 0 {
      ScheduleNone(model, its, start);
    } else {
      var before := Schedule(model, its, start, k - 1);
      ScheduleAppends(model, its, start, k);
      LastIteration(model, its, start, k - 1);
      DueIteration(its[k - 1], k - 1, LastPublish(start, before), TableAt(model, its, k));
    }
  }

  lemma {:induction false} PublicationsCorrect(model: map<Key, PacketDef>, its: seq<Iteration>, start: int, k: nat)
    requires k <= |its|
    ensures forall j | 0 <= j < |Schedule(model, its, start, k)| ::
      Correct(model, its, start, Schedule(model, its, start, k), j)
    decreases k
  {
    hide *;
    if k == 0 {
      ScheduleNone(model, its, start);
    } else {
      var before := Schedule(model, its, start, k - 1);
      var due := Due(its[k - 1], k - 1, LastPublish(start, before), TableAt(model, its, k));
      ScheduleAppends(model, its, start, k);
      PublicationsCorrect(model, its, start, k - 1);
      LastIteration(model, its, start, k - 1);
      CorrectNew(model, its, start, before, k - 1);
      forall j | 0 <= j < |before + due|
        ensures Correct(model, its, start, before + due, j)
      {
        if j < |before| {
          CorrectOld(model, its, start, before, due, j);
        }
      }
    }
  }

  /** The publication shows the table of all bytes read up to and with its iteration, which is before done. */
  ghost predicate ShowsReads(model: map<Key, PacketDef>, its: seq<Iteration>, done: nat, p: Publication)
    requires done <= |its|
  {
    && p.iteration < done && (forall i | 0 <= i <= p.iteration :: its[i].read.Data?)
    && p.table == Latest(model, Output(Concat(Reads(its, p.iteration + 1))))
  }

  lemma CorrectShowsReads(model: map<Key, PacketDef>, its: seq<Iteration>, start: int, pubs: seq<Publication>, j: nat,
                          done: nat)
    requires done <= |its| && forall i | 0 <= i < done :: its[i].read.Data?
    requires j < |pubs| && Correct(model, its, start, pubs, j) && pubs[j].iteration < done
    ensures ShowsReads(model, its, done, pubs[j])
  {
    hide Latest, Output, Concat, TableAt;
    TableOfReads(model, its, pubs[j].iteration + 1);
  }

  /** Every publication of a run shows the table of all bytes read until then, however short the reads. */
  lemma PublicationsOfReads(model: map<Key, PacketDef>, its: seq<Iteration>, start: int, done: nat, outcome: Outcome)
    requires done <= |its| && Leaves(its, done, outcome)
    ensures forall p | p in Schedule(model, its, start, done) :: ShowsReads(model, its, done, p)
  {
    var pubs := Schedule(model, its, start, done);
    assert forall i | 0 <= i < done :: its[i].Runs();
    PublicationsCorrect(model, its, start, done);
    IterationsBelow(model, its, start, done);
    hide Schedule, Correct, ShowsReads, Leaves;
    forall p | p in pubs
      ensures ShowsReads(model, its, done, p)
    {
      var j :| 0 <= j < |pubs| && pubs[j] == p;
      CorrectShowsReads(model, its, start, pubs, j, done);
    }
  }

  lemma {:induction false} IterationsBelow(model: map<Key, PacketDef>, its: seq<Iteration>, start: int, k: nat)
    requires k <= |its|
    ensures forall p | p in Schedule(model, its, start, k) :: p.iteration < k
  {
    hide *;
    if k == 0 {
      ScheduleNone(model, its, start);
    } else {
      var before := Schedule(model, its, start, k - 1);
      ScheduleAppends(model, its, start, k);
      IterationsBelow(model, its, start, k - 1);
      DueIteration(its[k - 1], k - 1, LastPublish(start, before), TableAt(model, its, k));
    }
  }

  ghost predicate PublishedIn(pubs: seq<Publication>, i: nat) {
    exists j | 0 <= j < |pubs| :: pubs[j].iteration == i
  }

  lemma PublishedAppend(before: seq<Publication>, due: seq<Publication>, i: nat)
    ensures PublishedIn(before + due, i) <==> PublishedIn(before, i) || PublishedIn(due, i)
  {
    if PublishedIn(before, i) {
      var j :| 0 <= j < |before| && before[j].iteration == i;
      assert (before + due)[j].iteration == i;
    }
    if PublishedIn(due, i) {
      var j :| 0 <= j < |due| && due[j].iteration == i;
      assert (before + due)[|before| + j].iteration == i;
    }
    if PublishedIn(before + due, i) {
      var j :| 0 <= j < |before + due| && (before + due)[j].iteration == i;
      assert if j < |before| then before[j].iteration == i else due[j - |before|].iteration == i;
    }
  }

  lemma NothingPublished(i: nat)
    ensures !PublishedIn([], i)
  {
  }

  lemma PublishedDue(it: Iteration, k: nat, last: int, table: Table, i: nat)
    ensures PublishedIn(Due(it, k, last, table), i) <==>
            i == k && it.checkedAt - last >= it.interval && table != map[]
  {
    if i == k && it.checkedAt - last >= it.interval && table != map[] {
      assert Due(it, k, last, table)[0].iteration == i;
    }
  }

  /** Nothing is skipped: an iteration publishes exactly when the interval then in force has passed since the last
      publication before it and some source is known. */
  lemma {:induction false} PublishedIff(model: map<Key, PacketDef>, its: seq<Iteration>, start: int, k: nat, i: nat)
    requires k <= |its|
    ensures PublishedIn(Schedule(model, its, start, k), i) <==>
            i < k
            && its[i].checkedAt - LastPublish(start, Schedule(model, its, start, i)) >= its[i].interval
            && TableAt(model, its, i + 1) != map[]
    decreases k
  {
    hide *;
    if k == 0 {
      ScheduleNone(model, its, start);
      assert |Schedule(model, its, start, 0)| == 0;
      NothingPublished(i);
    } else {
      var before := Schedule(model, its, start, k - 1);
      var last, table := LastPublish(start, before), TableAt(model, its, k);
      ScheduleAppends(model, its, start, k);
      PublishedAppend(before, Due(its[k - 1], k - 1, last, table), i);
      PublishedIff(model, its, start, k - 1, i);
      PublishedDue(its[k - 1], k - 1, last, table, i);
    }
  }

  /** Two consecutive publications are at least an interval apart if the clock does not go back while publishing. */
  lemma PublicationsSpaced(model: map<Key, PacketDef>, its: seq<Iteration>, start: int, k: nat)
    requires k <= |its| && Forward(its)
    ensures var pubs := Schedule(model, its, start, k);
      forall j | 0 < j < |pubs| ::
        pubs[j].iteration < |its| && pubs[j].endedAt - pubs[j - 1].endedAt >= its[pubs[j].iteration].interval
  {
    PublicationsCorrect(model, its, start, k);
    hide Schedule, TableAt;
    var pubs := Schedule(model, its, start, k);
    forall j | 0 < j < |pubs|
      ensures pubs[j].iteration < |its| && pubs[j].endedAt - pubs[j - 1].endedAt >= its[pubs[j].iteration].interval
    {
      assert Correct(model, its, start, pubs, j);
    }
  }

  // ---- The loop and the config version -------------------------------------------------------------

  /** The version checks of the loop are those of reader r in a run of the config protocol: at[i] steps of the run have
      happened when iteration i checks. */
  ghost predicate ChecksVersion<C>(its: seq<Iteration>, c0: C, actions: seq<Action<C>>, at: seq<nat>, r: nat) {
    |at| == |its| && forall i | 0 <= i < |its| ::
      && at[i] <= |actions| && r in Run(c0, actions[..at[i]]).readers
      && its[i].versionChanged ==
         (Run(c0, actions[..at[i]]).Version() != Run(c0, actions[..at[i]]).readers[r].version)
  }

  /** An iteration that runs has current settings, unless an updater is just between its store and its bump or 2^64
      updates have gone by. */
  lemma RunsOnCurrentConfig<C>(its: seq<Iteration>, done: nat, outcome: Outcome,
                               c0: C, actions: seq<Action<C>>, at: seq<nat>, r: nat, i: nat)
    requires done <= |its| && Leaves(its, done, outcome) && ChecksVersion(its, c0, actions, at, r) && i < done
    requires var s := Run(c0, actions[..at[i]]); s.between == {} && s.bumps < s.readers[r].bumpsSeen + WORD64
    ensures var s := Run(c0, actions[..at[i]]); forall c | c in s.readers[r].snapshots :: c == s.Current()
  {
    assert its[i].Runs();
    NoStaleConfig(c0, actions[..at[i]], r);
  }

  /** The loop reports changed settings only after an update has been completed since the version was taken. */
  lemma ConfigChangedMeansUpdate<C>(its: seq<Iteration>, done: nat,
                                    c0: C, actions: seq<Action<C>>, at: seq<nat>, r: nat)
    requires done <= |its| && Leaves(its, done, ConfigChanged) && ChecksVersion(its, c0, actions, at, r)
    ensures done < |its|
    ensures var s := Run(c0, actions[..at[done]]); s.bumps > s.readers[r].bumpsSeen
  {
    hide Run;
    assert its[done].versionChanged;
    ChangedMeansBumped(c0, actions[..at[done]], r);
  }
}
