// The config version protocol: updaters store and then bump, readers take the version and then the config.
module VersionProtocol {

  import opened Bytes

  /** What a reader remembers: the counter value it saw and the configs it has taken since. The fields bumpsSeen and
      taken are history: how many bumps had happened then, and which of all configs each snapshot is. */
  datatype Reader<C> = Reader(version: nat, snapshots: seq<C>, bumpsSeen: nat, taken: seq<nat>)

  /** All configs ever stored (the last one is current), the number of version bumps, the updaters that have stored
      but not yet bumped, and the readers. */
  datatype State<C> = State(configs: seq<C>, bumps: nat, between: set<nat>, readers: map<nat, Reader<C>>)
  {
    function Version(): nat { bumps % WORD64 }

    function Current(): C
      requires configs != []
    {
      configs[|configs| - 1]
    }
  }

  /** The atomic steps, each by some updater u or reader r. */
  datatype Action<C> =
    | Store(u: nat, config: C)
    | Bump(u: nat)
    | ReadVersion(r: nat)
    | ReadConfig(r: nat)

  /** One step; an updater that is not at the step, or a reader that has no version yet, does nothing. */
  function Apply<C>(s: State<C>, a: Action<C>): (t: State<C>)
    requires s.configs != []
    ensures t.configs != []
  {
    match a
    case Store(u, c) =>
      if u in s.between then s else s.(configs := s.configs + [c], between := s.between + {u})
    case Bump(u) =>
      if u !in s.between then s else s.(bumps := s.bumps + 1, between := s.between - {u})
    case ReadVersion(r) =>
      s.(readers := s.readers[r := Reader(s.Version(), [], s.bumps, [])])
    case ReadConfig(r) =>
      if r !in s.readers then s
      else
        var d := s.readers[r];
        var e := d.(snapshots := d.snapshots + [s.Current()], taken := d.taken + [|s.configs| - 1]);
        s.(readers := s.readers[r := e])
  }

  function Run<C>(c0: C, actions: seq<Action<C>>): (s: State<C>)
    ensures s.configs != []
  {
    if actions == [] then State([c0], 0, {}, map[])
    else Apply(Run(c0, actions[..|actions| - 1]), actions[|actions| - 1])
  }

  /** Snapshots were taken at or after the remembered version. */
  ghost predicate ReaderOk<C>(s: State<C>, d: Reader<C>) {
    && d.version == d.bumpsSeen % WORD64 && d.bumpsSeen <= s.bumps
    && |d.taken| == |d.snapshots|
    && forall i | 0 <= i < |d.taken| ::
      d.bumpsSeen <= d.taken[i] < |s.configs| && d.snapshots[i] == s.configs[d.taken[i]]
  }

  ghost predicate Inv<C>(s: State<C>) {
    && |s.configs| == s.bumps + |s.between| + 1
    && forall r | r in s.readers :: ReaderOk(s, s.readers[r])
  }

  lemma ReaderStaysOk<C>(s: State<C>, t: State<C>, d: Reader<C>)
    requires ReaderOk(s, d) && s.configs <= t.configs && s.bumps <= t.bumps
    ensures ReaderOk(t, d)
  {
  }

  lemma NewSnapshotOk<C>(s: State<C>, d: Reader<C>)
    requires s.configs != [] && ReaderOk(s, d) && d.bumpsSeen < |s.configs|
    ensures ReaderOk(s, d.(snapshots := d.snapshots + [s.Current()], taken := d.taken + [|s.configs| - 1]))
  {
  }

  lemma CountStep<C>(s: State<C>, a: Action<C>)
    requires s.configs != [] && |s.configs| == s.bumps + |s.between| + 1
    ensures var t := Apply(s, a);
      |t.configs| == t.bumps + |t.between| + 1 && s.configs <= t.configs && s.bumps <= t.bumps
  {
    if a.Bump? && a.u in s.between {
      assert s.between == Apply(s, a).between + {a.u};
    }
  }

  lemma InvStep<C>(s: State<C>, a: Action<C>)
    requires s.configs != [] && Inv(s)
    ensures Inv(Apply(s, a))
  {
    var t := Apply(s, a);
    CountStep(s, a);
    forall r | r in t.readers
      ensures ReaderOk(t, t.readers[r])
    {
      if a.ReadVersion? && a.r == r {
      } else {
        assert ReaderOk(s, s.readers[r]);
        ReaderStaysOk(s, t, s.readers[r]);
        if a.ReadConfig? && a.r == r {
          NewSnapshotOk(s, s.readers[r]);
          ReaderStaysOk(s, t, t.readers[r]);
        }
      }
    }
  }

  lemma {:induction false} InvHolds<C>(c0: C, actions: seq<Action<C>>)
    ensures Inv(Run(c0, actions))
  {
    if actions != [] {
      InvHolds(c0, actions[..|actions| - 1]);
      InvStep(Run(c0, actions[..|actions| - 1]), actions[|actions| - 1]);
    }
  }

  /** The reader's version check passes, no updater is between its store and its bump, and fewer than 2^64 updates
      have been made since the reader took the version. */
  predicate Settled<C>(s: State<C>, r: nat)
    requires r in s.readers
  {
    && s.Version() == s.readers[r].version
    && s.between == {}
    && s.bumps < s.readers[r].bumpsSeen + WORD64
  }

  lemma SameResidue(a: nat, b: nat)
    requires a <= b < a + WORD64 && a % WORD64 == b % WORD64
    ensures a == b
  {
    var m := b - a;
    assert a == a / WORD64 * WORD64 + a % WORD64;
    assert b == b / WORD64 * WORD64 + b % WORD64;
  }

  ghost predicate Fresh<C>(s: State<C>, r: nat)
    requires s.configs != [] && r in s.readers
  {
    forall c | c in s.readers[r].snapshots :: c == s.Current()
  }

  lemma SettledIsFresh<C>(s: State<C>, r: nat)
    requires s.configs != [] && Inv(s) && r in s.readers && Settled(s, r)
    ensures Fresh(s, r)
  {
    var d := s.readers[r];
    assert ReaderOk(s, d);
    SameResidue(d.bumpsSeen, s.bumps);
    assert |s.configs| == s.bumps + 1;
    forall i | 0 <= i < |d.snapshots|
      ensures d.snapshots[i] == s.Current()
    {
      assert d.taken[i] == s.bumps;
    }
  }

  /** In every interleaving of any number of updaters and readers, a settled reader holds only current configs. */
  lemma NoStaleConfig<C>(c0: C, actions: seq<Action<C>>, r: nat)
    requires var s := Run(c0, actions); r in s.readers && Settled(s, r)
    ensures var s := Run(c0, actions); forall c | c in s.readers[r].snapshots :: c == s.Current()
  {
    hide Run, Inv, Settled;
    InvHolds(c0, actions);
    SettledIsFresh(Run(c0, actions), r);
  }

  /** A changed version means that some updater has completed an update since the version was taken. */
  lemma ChangedMeansBumped<C>(c0: C, actions: seq<Action<C>>, r: nat)
    requires var s := Run(c0, actions); r in s.readers && s.Version() != s.readers[r].version
    ensures var s := Run(c0, actions); s.bumps > s.readers[r].bumpsSeen
  {
    hide Run;
    InvHolds(c0, actions);
    var s := Run(c0, actions);
    assert ReaderOk(s, s.readers[r]);
  }

  /** A snapshot that is out of date is noticed by the version check as soon as the updaters have bumped. */
  lemma StaleIsNoticed<C>(c0: C, actions: seq<Action<C>>, r: nat, i: nat)
    requires var s := Run(c0, actions); r in s.readers && i < |s.readers[r].snapshots|
    requires var s := Run(c0, actions);
      s.readers[r].snapshots[i] != s.Current() && s.between == {} && s.bumps < s.readers[r].bumpsSeen + WORD64
    ensures var s := Run(c0, actions); s.Version() != s.readers[r].version
  {
    var s := Run(c0, actions);
    assert s.readers[r].snapshots[i] in s.readers[r].snapshots;
    if s.Version() == s.readers[r].version {
      NoStaleConfig(c0, actions, r);
    }
  }

  // ---- Both side conditions are needed -------------------------------------------------------------

  lemma RunSnoc<C>(c0: C, actions: seq<Action<C>>, a: Action<C>)
    ensures Run(c0, actions + [a]) == Apply(Run(c0, actions), a)
  {
    assert (actions + [a])[..|actions|] == actions;
  }

  const SNAPSHOT: nat := 0

  lemma Snapshotted<C>(c0: C) returns (actions: seq<Action<C>>)
    ensures Run(c0, actions) == State([c0], 0, {}, map[SNAPSHOT := Reader(0, [c0], 0, [0])])
  {
    var first := [ReadVersion(SNAPSHOT)];
    assert Run(c0, []) == State([c0], 0, {}, map[]);
    assert first[..0] == [];
    var s := Run(c0, first);
    assert s == State([c0], 0, {}, map[SNAPSHOT := Reader(0, [], 0, [])]);
    RunSnoc(c0, first, ReadConfig(SNAPSHOT));
    actions := first + [ReadConfig(SNAPSHOT)];
    assert Apply(s, ReadConfig(SNAPSHOT)).readers == map[SNAPSHOT := Reader(0, [] + [c0], 0, [] + [0])];
    assert [] + [c0] == [c0] && [] + [0] == [0];
  }

  /** Between an updater's store and its bump a stale snapshot passes the version check. */
  lemma StaleWhileBetween<C>(c0: C, c1: C)
    requires c0 != c1
    ensures exists actions: seq<Action<C>> :: var s := Run(c0, actions);
      && SNAPSHOT in s.readers && s.Version() == s.readers[SNAPSHOT].version
      && s.bumps < s.readers[SNAPSHOT].bumpsSeen + WORD64
      && s.readers[SNAPSHOT].snapshots == [c0] && s.Current() == c1
  {
    var actions := Snapshotted(c0);
    RunSnoc(c0, actions, Store(0, c1));
    assert Run(c0, actions + [Store(0, c1)]).Current() == c1;
  }

  lemma {:induction false} ManyUpdates<C>(c0: C, c1: C, prefix: seq<Action<C>>, n: nat)
      returns (actions: seq<Action<C>>)
    requires Run(c0, prefix).between == {}
    ensures var s, t := Run(c0, prefix), Run(c0, actions);
      && t.readers == s.readers && t.between == {} && t.bumps == s.bumps + n
      && (n > 0 ==> t.Current() == c1)
    decreases n
  {
    if n == 0 {
      actions := prefix;
    } else {
      actions := ManyUpdates(c0, c1, prefix, n - 1);
      RunSnoc(c0, actions, Store(0, c1));
      RunSnoc(c0, actions + [Store(0, c1)], Bump(0));
      actions := actions + [Store(0, c1)] + [Bump(0)];
    }
  }

  /** After exactly 2^64 updates the counter is back where it was and a stale snapshot passes the check. */
  lemma StaleAfterWraparound<C>(c0: C, c1: C)
    requires c0 != c1
    ensures exists actions: seq<Action<C>> :: var s := Run(c0, actions);
      && SNAPSHOT in s.readers && s.Version() == s.readers[SNAPSHOT].version
      && s.between == {}
      && s.readers[SNAPSHOT].snapshots == [c0] && s.Current() == c1
  {
    var prefix := Snapshotted(c0);
    var actions := ManyUpdates(c0, c1, prefix, WORD64);
    assert Run(c0, actions).Version() == 0;
  }

  // ---- Exactly when a passing check is worth something ---------------------------------------------

  /** Reader r's check passes with n updaters between store and bump and k bumps since it took the version. */
  predicate PassesWith<C>(s: State<C>, r: nat, n: nat, k: nat) {
    r in s.readers && s.Version() == s.readers[r].version && |s.between| == n && s.bumps == s.readers[r].bumpsSeen + k
  }

  /** Every run with a passing check of this kind has only current configs. */
  ghost predicate AlwaysFresh<C(!new)>(n: nat, k: nat) {
    forall c0: C, actions: seq<Action<C>>, r: nat | PassesWith(Run(c0, actions), r, n, k) :: Fresh(Run(c0, actions), r)
  }

  lemma PassingBumps(b: nat, k: nat)
    requires (b + k) % WORD64 == b % WORD64
    ensures k % WORD64 == 0
  {
    var q := (b + k) / WORD64 - b / WORD64;
    assert k == WORD64 * q;
  }

  lemma {:induction false} ManyStores<C>(c0: C, c1: C, prefix: seq<Action<C>>, n: nat) returns (actions: seq<Action<C>>)
    requires Run(c0, prefix).between == {}
    ensures var s, t := Run(c0, prefix), Run(c0, actions);
      && t.readers == s.readers && t.bumps == s.bumps
      && |t.between| == n && (forall u | u in t.between :: u < n)
      && (n > 0 ==> t.Current() == c1) && (n == 0 ==> t.Current() == s.Current())
    decreases n
  {
    if n == 0 {
      actions := prefix;
    } else {
      actions := ManyStores(c0, c1, prefix, n - 1);
      RunSnoc(c0, actions, Store(n - 1, c1));
      actions := actions + [Store(n - 1, c1)];
    }
  }

  lemma StaleRun<C(!new)>(c0: C, c1: C, n: nat, k: nat)
    requires c0 != c1 && k % WORD64 == 0 && (n > 0 || k > 0)
    ensures !AlwaysFresh<C>(n, k)
  {
    var prefix := Snapshotted(c0);
    var updated := ManyUpdates(c0, c1, prefix, k);
    var actions := ManyStores(c0, c1, updated, n);
    var s := Run(c0, actions);
    assert s.readers[SNAPSHOT].snapshots == [c0] && s.Current() == c1;
    assert PassesWith(s, SNAPSHOT, n, k);
    assert c0 in s.readers[SNAPSHOT].snapshots;
    assert !Fresh(s, SNAPSHOT);
  }

  lemma PassingIsFresh<C>(s: State<C>, r: nat, n: nat, k: nat)
    requires s.configs != [] && Inv(s) && PassesWith(s, r, n, k) && (k % WORD64 != 0 || (n == 0 && k == 0))
    ensures Fresh(s, r)
  {
    assert ReaderOk(s, s.readers[r]);
    PassingBumps(s.readers[r].bumpsSeen, k);
    hide Inv, Fresh, ReaderOk;
    assert s.between == {};
    SettledIsFresh(s, r);
  }

  /** Where the check can pass at all, which is where the bumps since are a multiple of 2^64, it guarantees current
      configs exactly when there are no bumps since and no updater between its store and its bump. */
  lemma AlwaysFreshIff<C(!new)>(c0: C, c1: C, n: nat, k: nat)
    requires c0 != c1
    ensures AlwaysFresh<C>(n, k) <==> k % WORD64 != 0 || (n == 0 && k == 0)
  {
    hide Run, Inv, Fresh;
    if k % WORD64 == 0 && (n > 0 || k > 0) {
      StaleRun(c0, c1, n, k);
    } else {
      forall c: C, actions: seq<Action<C>>, r: nat | PassesWith(Run(c, actions), r, n, k)
        ensures Fresh(Run(c, actions), r)
      {
        InvHolds(c, actions);
        PassingIsFresh(Run(c, actions), r, n, k);
      }
    }
  }
}
