// Home Assistant discovery: which (source, field) pairs get announced, and under which ids.
module Discovery {
  import opened Bytes
  import opened Hex
  import opened Names

  // ---- Identifiers ---------------------------------------------------------------------------------

  function CacheKey(src: u16, name: string): string { Hex4(src) + "/" + name }

  function IdText(src: u16, slug: string): string { "vbus2mqtt_" + Format4(src, LOWER) + "_" + slug }

  function UniqueId(al: Alphabet, src: u16, name: string): string { IdText(src, Slug(al, name)) }

  /** The cache never confuses two (source, field) pairs. */
  lemma CacheKeyInjective(s: u16, m: string, t: u16, n: string)
    ensures CacheKey(s, m) == CacheKey(t, n) <==> s == t && m == n
  {
    var a, b := CacheKey(s, m), CacheKey(t, n);
    assert a[..4] == Hex4(s) && b[..4] == Hex4(t);
    assert a[5..] == m && b[5..] == n;
    Format4Injective(s, t, UPPER);
  }

  /** The cache key is the address in capitals, a slash and the field name. */
  lemma CacheKeyIs(src: u16, name: string)
    ensures exists h :: ReadsAs(h, src, true) && CacheKey(src, name) == h + "/" + name
  {
    FormatReads(src, true);
    assert ReadsAs(Hex4(src), src, true);
  }

  /** The discovery id is a fixed prefix, the address in small letters and the slug, joined by underscores. */
  lemma UniqueIdIs(al: Alphabet, src: u16, name: string)
    ensures exists h :: ReadsAs(h, src, false) && UniqueId(al, src, name) == "vbus2mqtt_" + h + "_" + Slug(al, name)
  {
    FormatReads(src, false);
    assert ReadsAs(Format4(src, LOWER), src, false);
  }

  lemma UniqueIdIff(al: Alphabet, s: u16, m: string, t: u16, n: string)
    ensures UniqueId(al, s, m) == UniqueId(al, t, n) <==> s == t && Slug(al, m) == Slug(al, n)
  {
    var p := "vbus2mqtt_";
    var a, b := UniqueId(al, s, m), UniqueId(al, t, n);
    assert a[10..14] == Format4(s, LOWER) && b[10..14] == Format4(t, LOWER);
    assert a[15..] == Slug(al, m) && b[15..] == Slug(al, n);
    Format4Injective(s, t, LOWER);
  }

  /** Names in slug form, as the generator makes them, keep their discovery ids apart. */
  lemma UniqueIdInjective(al: Alphabet, s: u16, m: string, t: u16, n: string)
    requires al.Lawful() && SlugForm(al, m) && SlugForm(al, n)
    ensures UniqueId(al, s, m) == UniqueId(al, t, n) <==> s == t && m == n
  {
    UniqueIdIff(al, s, m, t, n);
    SlugFixedIff(al, m);
    SlugFixedIff(al, n);
  }

  /** The generator's own names always do. */
  lemma GeneratedIdIff(al: Alphabet, s: u16, m: string, t: u16, n: string)
    requires al.Lawful()
    ensures UniqueId(al, s, GoName(al, m)) == UniqueId(al, t, GoName(al, n)) <==>
            s == t && GoName(al, m) == GoName(al, n)
  {
    UniqueIdIff(al, s, GoName(al, m), t, GoName(al, n));
    GoNameIsSlug(al, m);
    GoNameIsSlug(al, n);
  }

  /** Other names can collide: two cache entries, one discovery id. */
  lemma UniqueIdCollides(al: Alphabet, src: u16)
    requires al.Lawful()
    ensures CacheKey(src, "field ") != CacheKey(src, "field")
    ensures UniqueId(al, src, "field ") == UniqueId(al, src, "field")
  {
    CacheKeyInjective(src, "field ", src, "field");
    var n := "field";
    assert forall i | 0 <= i < |n| :: n[i] in "field";
    assert ' ' in "_ -/";
    assert SlugForm(al, n);
    SlugFixedIff(al, n);
    var t := Squashed(al, al.Lower("field "));
    assert t[..5] == n && t[5] == '_';
    assert TrimRight(t) == TrimRight(n) == n;
  }

  // ---- Runs of the announcement cache --------------------------------------------------------------

  /** The atomic steps of any number of publishers and of reconnects: a critical section for a (source, field) pair,
      with the outcome of the publish if it leads to one, or the reset by the on-connect handler. */
  datatype Op = Claim(src: u16, name: string, succeeds: bool) | Reset
  {
    predicate Claims(s: u16, n: string) { Claim? && src == s && name == n }
  }

  /** The cache contents after a run. */
  function CacheAfter(ops: seq<Op>): set<string> {
    if ops == [] then {}
    else
      match ops[|ops| - 1]
      case Reset => {}
      case Claim(src, name, _) => CacheAfter(ops[..|ops| - 1]) + {CacheKey(src, name)}
  }

  /** Step i leads to a publish: its pair was not in the cache. */
  predicate Attempts(ops: seq<Op>, i: nat)
    requires i < |ops|
  {
    ops[i].Claim? && CacheKey(ops[i].src, ops[i].name) !in CacheAfter(ops[..i])
  }

  /** Step i leads to a publish that reaches the broker. */
  predicate Delivers(ops: seq<Op>, i: nat)
    requires i < |ops|
  {
    Attempts(ops, i) && ops[i].succeeds
  }

  ghost predicate ResetBetween(ops: seq<Op>, lo: int, hi: int) {
    exists m | 0 <= m < |ops| && lo < m < hi :: ops[m].Reset?
  }

  /** Step j claims the pair and no reset follows it before step n. */
  ghost predicate LiveClaim(ops: seq<Op>, j: nat, n: nat, src: u16, name: string) {
    j < n <= |ops| && ops[j].Claims(src, name) && !ResetBetween(ops, j, n)
  }

  lemma LiveClaimStep(ops: seq<Op>, j: nat, n: nat, src: u16, name: string)
    requires 0 < n <= |ops|
    ensures LiveClaim(ops, j, n, src, name) <==>
            !ops[n - 1].Reset? && ((j == n - 1 && ops[j].Claims(src, name)) || LiveClaim(ops, j, n - 1, src, name))
  {
    if j < n - 1 {
      if ops[n - 1].Reset? {
        assert ResetBetween(ops, j, n);
      } else if ResetBetween(ops, j, n) {
        var m :| 0 <= m < |ops| && j < m < n && ops[m].Reset?;
        assert ResetBetween(ops, j, n - 1);
      }
    }
  }

  ghost predicate SomeLiveClaim(ops: seq<Op>, n: nat, src: u16, name: string) {
    exists j: nat :: LiveClaim(ops, j, n, src, name)
  }

  lemma SomeLiveClaimStep(ops: seq<Op>, n: nat, src: u16, name: string)
    requires 0 < n <= |ops|
    ensures SomeLiveClaim(ops, n, src, name) <==>
            !ops[n - 1].Reset? && (ops[n - 1].Claims(src, name) || SomeLiveClaim(ops, n - 1, src, name))
  {
    hide LiveClaim;
    if SomeLiveClaim(ops, n, src, name) {
      var j: nat :| LiveClaim(ops, j, n, src, name);
      LiveClaimStep(ops, j, n, src, name);
    }
    if !ops[n - 1].Reset? && ops[n - 1].Claims(src, name) {
      LiveClaimStep(ops, n - 1, n, src, name);
    } else if !ops[n - 1].Reset? && SomeLiveClaim(ops, n - 1, src, name) {
      var j: nat :| LiveClaim(ops, j, n - 1, src, name);
      LiveClaimStep(ops, j, n, src, name);
    }
  }

  lemma CacheStep(ops: seq<Op>, n: nat, src: u16, name: string)
    requires 0 < n <= |ops|
    ensures CacheKey(src, name) in CacheAfter(ops[..n]) <==>
            !ops[n - 1].Reset? && (ops[n - 1].Claims(src, name) || CacheKey(src, name) in CacheAfter(ops[..n - 1]))
  {
    assert ops[..n][..n - 1] == ops[..n - 1];
    if ops[n - 1].Claim? {
      CacheKeyInjective(ops[n - 1].src, ops[n - 1].name, src, name);
    }
  }

  lemma {:induction false} CachedIff(ops: seq<Op>, n: nat, src: u16, name: string)
    requires n <= |ops|
    ensures CacheKey(src, name) in CacheAfter(ops[..n]) <==> SomeLiveClaim(ops, n, src, name)
    decreases n
  {
    if n > 0 {
      hide *;
      CachedIff(ops, n - 1, src, name);
      CacheStep(ops, n, src, name);
      SomeLiveClaimStep(ops, n, src, name);
    }
  }

  /** In every interleaving a claim leads to a publish exactly when each earlier claim of the same pair is followed by
      a reset before it: at most once per connection, and always the first time. */
  lemma AttemptedOncePerEpoch(ops: seq<Op>, i: nat)
    requires i < |ops| && ops[i].Claim?
    ensures Attempts(ops, i) <==>
            forall j | 0 <= j < i && ops[j].Claims(ops[i].src, ops[i].name) :: ResetBetween(ops, j, i)
  {
    var s, n := ops[i].src, ops[i].name;
    CachedIff(ops, i, s, n);
    assert forall j: nat | j < i && ops[j].Claims(s, n) :: LiveClaim(ops, j, i, s, n) <==> !ResetBetween(ops, j, i);
  }

  // ---- What reaches the broker ---------------------------------------------------------------------

  /** The steps from lo to hi belong to one connection. */
  ghost predicate Epoch(ops: seq<Op>, lo: nat, hi: nat) {
    && lo <= hi <= |ops|
    && (lo > 0 ==> ops[lo - 1].Reset?)
    && forall m | lo <= m < hi :: !ops[m].Reset?
  }

  ghost predicate FirstClaim(ops: seq<Op>, lo: nat, i: nat, src: u16, name: string) {
    lo <= i < |ops| && ops[i].Claims(src, name) && forall j | lo <= j < i :: !ops[j].Claims(src, name)
  }

  ghost predicate DeliveredIn(ops: seq<Op>, lo: nat, hi: nat, src: u16, name: string)
    requires hi <= |ops|
  {
    exists i | lo <= i < hi :: ops[i].Claims(src, name) && Delivers(ops, i)
  }

  lemma AttemptsInEpoch(ops: seq<Op>, lo: nat, hi: nat, i: nat)
    requires Epoch(ops, lo, hi) && lo <= i < hi && ops[i].Claim?
    ensures Attempts(ops, i) <==> FirstClaim(ops, lo, i, ops[i].src, ops[i].name)
  {
    var s, n := ops[i].src, ops[i].name;
    AttemptedOncePerEpoch(ops, i);
    forall j | 0 <= j < i && ops[j].Claims(s, n)
      ensures ResetBetween(ops, j, i) <==> j < lo
    {
      if j < lo {
        assert ops[lo - 1].Reset?;
      }
    }
  }

  /** In one connection a pair reaches the broker exactly when the publish of its first claim succeeded: a failed one
      is never repeated before the next reconnect. */
  lemma DeliveredIff(ops: seq<Op>, lo: nat, hi: nat, src: u16, name: string)
    requires Epoch(ops, lo, hi)
    ensures DeliveredIn(ops, lo, hi, src, name) <==>
            exists i | lo <= i < hi :: FirstClaim(ops, lo, i, src, name) && ops[i].succeeds
  {
    forall i | lo <= i < hi && ops[i].Claims(src, name)
      ensures Delivers(ops, i) <==> FirstClaim(ops, lo, i, src, name) && ops[i].succeeds
    {
      AttemptsInEpoch(ops, lo, hi, i);
    }
    if DeliveredIn(ops, lo, hi, src, name) {
      var i :| lo <= i < hi && ops[i].Claims(src, name) && Delivers(ops, i);
      assert FirstClaim(ops, lo, i, src, name) && ops[i].succeeds;
    }
    if i :| lo <= i < hi && FirstClaim(ops, lo, i, src, name) && ops[i].succeeds {
      assert ops[i].Claims(src, name) && Delivers(ops, i);
    }
  }

  /** A field whose first publish fails stays unannounced although the second would succeed; only a reconnect helps. */
  lemma FailureIsFinal(src: u16, name: string)
    ensures var ops := [Claim(src, name, false), Claim(src, name, true), Reset, Claim(src, name, true)];
      !DeliveredIn(ops, 0, 2, src, name) && DeliveredIn(ops, 3, 4, src, name)
  {
    var ops := [Claim(src, name, false), Claim(src, name, true), Reset, Claim(src, name, true)];
    DeliveredIff(ops, 0, 2, src, name);
    assert ops[0].Claims(src, name) && ops[1].Claims(src, name);
    DeliveredIff(ops, 3, 4, src, name);
    assert FirstClaim(ops, 3, 3, src, name);
  }

  // ---- The cache -----------------------------------------------------------------------------------

  class Cache {
    var discovered: set<string>
    ghost var ops: seq<Op>   // every step so far

    ghost predicate Valid()
      reads this
    {
      discovered == CacheAfter(ops)
    }

    constructor ()
      ensures Valid() && ops == []
    {
      discovered, ops := {}, [];
    }

    /** The on-connect handler. */
    method Clear()
      requires Valid()
      modifies this
      ensures Valid() && ops == old(ops) + [Reset]
    {
      discovered, ops := {}, ops + [Reset];
    }

    /** The critical section of a discovery publish; the outcome is that of the publish it leads to, if any. */
    method Enter(src: u16, name: string, ghost succeeds: bool) returns (already: bool)
      requires Valid()
      modifies this
      ensures Valid() && ops == old(ops) + [Claim(src, name, succeeds)]
      ensures already <==> !Attempts(ops, |ops| - 1)
    {
      var key := CacheKey(src, name);
      already := key in discovered;
      if !already {
        discovered := discovered + {key};
      }
      ghost var before := ops;
      ops := ops + [Claim(src, name, succeeds)];
      assert ops[..|before|] == before;
    }
  }

  function ClaimsOf(src: u16, names: seq<string>, outcomes: seq<bool>): seq<Op>
    requires |outcomes| == |names|
  {
    if names == [] then []
    else
      var n := |names| - 1;
      ClaimsOf(src, names[..n], outcomes[..n]) + [Claim(src, names[n], outcomes[n])]
  }

  /** The discovery ids that reached the broker in the steps from lo on. */
  function DeliveredIds(al: Alphabet, ops: seq<Op>, lo: nat): seq<string>
    decreases |ops|
  {
    if |ops| <= lo then []
    else
      var n := |ops| - 1;
      DeliveredIds(al, ops[..n], lo) + if Delivers(ops, n) then [UniqueId(al, ops[n].src, ops[n].name)] else []
  }

  /** One claim per field, in order. */
  lemma {:induction false} ClaimsAre(src: u16, names: seq<string>, outcomes: seq<bool>)
    requires |outcomes| == |names|
    ensures |ClaimsOf(src, names, outcomes)| == |names|
    ensures forall i | 0 <= i < |names| :: ClaimsOf(src, names, outcomes)[i] == Claim(src, names[i], outcomes[i])
  {
    if names != [] {
      ClaimsAre(src, names[..|names| - 1], outcomes[..|names| - 1]);
    }
  }

  /** The steps from lo to n that reach the broker. */
  function DeliveringSteps(ops: seq<Op>, lo: nat, n: nat): seq<nat>
    requires n <= |ops|
  {
    if n <= lo then [] else DeliveringSteps(ops, lo, n - 1) + if Delivers(ops, n - 1) then [n - 1] else []
  }

  lemma {:induction false} DeliveringStepsIff(ops: seq<Op>, lo: nat, n: nat, i: nat)
    requires n <= |ops|
    ensures i in DeliveringSteps(ops, lo, n) <==> lo <= i < n && Delivers(ops, i)
  {
    if n > lo {
      hide Delivers;
      DeliveringStepsIff(ops, lo, n - 1, i);
    }
  }

  predicate IncreasingBelow(s: seq<nat>, n: nat) {
    (forall k | 0 <= k < |s| :: s[k] < n) && forall k, l | 0 <= k < l < |s| :: s[k] < s[l]
  }

  lemma IncreasingSnoc(s: seq<nat>, n: nat)
    requires IncreasingBelow(s, n)
    ensures IncreasingBelow(s, n + 1) && IncreasingBelow(s + [n], n + 1)
  {
  }

  lemma {:induction false} DeliveringStepsOrdered(ops: seq<Op>, lo: nat, n: nat)
    requires n <= |ops|
    ensures IncreasingBelow(DeliveringSteps(ops, lo, n), n)
  {
    if n > lo {
      hide Delivers, IncreasingBelow;
      DeliveringStepsOrdered(ops, lo, n - 1);
      IncreasingSnoc(DeliveringSteps(ops, lo, n - 1), n - 1);
      assert DeliveringSteps(ops, lo, n - 1) + [] == DeliveringSteps(ops, lo, n - 1);
    }
  }

  lemma DeliversPrefix(ops: seq<Op>, n: nat)
    requires 0 < n <= |ops|
    ensures ops[..n][..n - 1] == ops[..n - 1]
    ensures Delivers(ops[..n], n - 1) <==> Delivers(ops, n - 1)
  {
    assert ops[..n][..n - 1] == ops[..n - 1];
  }

  /** This is the id of the pair that step i claims. */
  predicate IdOfStep(al: Alphabet, ops: seq<Op>, i: nat, id: string) {
    i < |ops| && ops[i].Claim? && id == UniqueId(al, ops[i].src, ops[i].name)
  }

  predicate IdsOfSteps(al: Alphabet, ops: seq<Op>, at: seq<nat>, ids: seq<string>) {
    |ids| == |at| && forall k | 0 <= k < |at| :: IdOfStep(al, ops, at[k], ids[k])
  }

  lemma IdsOfStepsSnoc(al: Alphabet, ops: seq<Op>, at: seq<nat>, ids: seq<string>, i: nat, id: string)
    requires IdsOfSteps(al, ops, at, ids)
    ensures IdsOfSteps(al, ops, at + [], ids + [])
    ensures IdOfStep(al, ops, i, id) ==> IdsOfSteps(al, ops, at + [i], ids + [id])
  {
    hide IdOfStep;
    assert at + [] == at && ids + [] == ids;
  }

  lemma DeliveredStep(al: Alphabet, ops: seq<Op>, lo: nat, n: nat)
    requires lo < n <= |ops|
    ensures Delivers(ops, n - 1) ==> ops[n - 1].Claim?
    ensures DeliveredIds(al, ops[..n], lo) == DeliveredIds(al, ops[..n - 1], lo) +
      if Delivers(ops, n - 1) then [UniqueId(al, ops[n - 1].src, ops[n - 1].name)] else []
  {
    DeliversPrefix(ops, n);
    hide Delivers, UniqueId;
  }

  lemma DefiningId(al: Alphabet, ops: seq<Op>, i: nat)
    requires i < |ops| && ops[i].Claim?
    ensures IdOfStep(al, ops, i, UniqueId(al, ops[i].src, ops[i].name))
  {
    hide UniqueId;
  }

  /** The ids delivered are those of the delivering steps, all of them, in order. */
  lemma {:induction false} DeliveredIdsAre(al: Alphabet, ops: seq<Op>, lo: nat, n: nat)
    requires n <= |ops|
    ensures IdsOfSteps(al, ops, DeliveringSteps(ops, lo, n), DeliveredIds(al, ops[..n], lo))
  {
    if n > lo {
      var at := DeliveringSteps(ops, lo, n - 1);
      assert DeliveringSteps(ops, lo, n) == at + if Delivers(ops, n - 1) then [n - 1] else [];
      hide *;
      DeliveredStep(al, ops, lo, n);
      DeliveredIdsAre(al, ops, lo, n - 1);
      if Delivers(ops, n - 1) {
        DefiningId(al, ops, n - 1);
        IdsOfStepsSnoc(al, ops, at, DeliveredIds(al, ops[..n - 1], lo), n - 1,
                       UniqueId(al, ops[n - 1].src, ops[n - 1].name));
      } else {
        IdsOfStepsSnoc(al, ops, at, DeliveredIds(al, ops[..n - 1], lo), 0, "");
      }
    }
  }

  /** Publishes discovery for the fields of one source that the cache does not hold yet; outcomes says which publishes
      reach the broker. The ids returned are those that did. */
  method PublishDiscovery(cache: Cache, al: Alphabet, src: u16, names: seq<string>, outcomes: seq<bool>)
      returns (ids: seq<string>)
    requires cache.Valid() && |outcomes| == |names|
    modifies cache
    ensures cache.Valid()
    ensures cache.ops == old(cache.ops) + ClaimsOf(src, names, outcomes)
    ensures ids == DeliveredIds(al, cache.ops, |old(cache.ops)|)
  {
    hide *;
    ids := [];
    ghost var lo := |cache.ops|;
    NothingClaimed(al, cache.ops, src, names, outcomes);
    for i := 0 to |names|
      invariant cache.Valid()
      invariant cache.ops == old(cache.ops) + ClaimsOf(src, names[..i], outcomes[..i])
      invariant ids == DeliveredIds(al, cache.ops, lo)
    {
      OneMoreClaim(al, cache.ops, src, names, outcomes, i, lo);
      AppendAssoc(old(cache.ops), ClaimsOf(src, names[..i], outcomes[..i]), [Claim(src, names[i], outcomes[i])]);
      var already := cache.Enter(src, names[i], outcomes[i]);
      if already {
        continue;
      }
      var slug := FieldSlug(al, names[i]);
      if outcomes[i] {
        ids := ids + [IdText(src, slug)];
      }
    }
    assert names[..|names|] == names && outcomes[..|names|] == outcomes;
  }

  lemma NothingClaimed(al: Alphabet, ops: seq<Op>, src: u16, names: seq<string>, outcomes: seq<bool>)
    requires |outcomes| == |names|
    ensures ops + ClaimsOf(src, names[..0], outcomes[..0]) == ops
    ensures DeliveredIds(al, ops, |ops|) == []
  {
  }

  lemma OneMoreClaim(al: Alphabet, before: seq<Op>, src: u16, names: seq<string>, outcomes: seq<bool>, i: nat, lo: nat)
    requires i < |names| == |outcomes| && lo <= |before|
    ensures ClaimsOf(src, names[..i + 1], outcomes[..i + 1])
         == ClaimsOf(src, names[..i], outcomes[..i]) + [Claim(src, names[i], outcomes[i])]
    ensures var ops := before + [Claim(src, names[i], outcomes[i])];
      DeliveredIds(al, ops, lo) == if Attempts(ops, |before|) && outcomes[i]
        then DeliveredIds(al, before, lo) + [IdText(src, Slug(al, names[i]))] else DeliveredIds(al, before, lo)
  {
    assert names[..i + 1][..i] == names[..i] && outcomes[..i + 1][..i] == outcomes[..i];
    var ops := before + [Claim(src, names[i], outcomes[i])];
    assert ops[..|before|] == before;
  }
}
