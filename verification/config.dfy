// The configuration store: in-memory updates, the saved file and what a restart makes of it.
module Config {
  import opened Bytes
  import opened Options

  datatype Settings = Settings(
    serialPort: string, baudRate: int,
    broker: string, topicPrefix: string, user: string, pass: string, retain: bool, qos: byte,
    publishInterval: int, logLevel: string, logFormat: string,
    haDiscovery: bool, haPrefix: string,
    webAddr: string, webUser: string, webPass: string, configFile: string)

  /** The file's contents: empty strings and zero stand for missing keys, as does None. */
  datatype Persisted = Persisted(
    serialPort: string, baudRate: int,
    broker: string, topicPrefix: string, user: string, pass: string, retain: Option<bool>, qos: Option<byte>,
    publishInterval: Option<int>, logLevel: string, logFormat: string)

  /** What a path holds: nothing, an incomplete or unreadable file, or a complete one. */
  datatype File = Missing | Garbled | Holds(saved: Persisted)

  function Prefer(s: string, default: string): string { if s != "" then s else default }

  /** The settings after loading a saved file over defaults. */
  function Overlay(d: Settings, p: Persisted): Settings {
    d.(serialPort := Prefer(p.serialPort, d.serialPort),
       baudRate := if p.baudRate != 0 then p.baudRate else d.baudRate,
       broker := Prefer(p.broker, d.broker),
       topicPrefix := Prefer(p.topicPrefix, d.topicPrefix),
       user := Prefer(p.user, d.user),
       pass := Prefer(p.pass, d.pass),
       retain := if p.retain.Some? then p.retain.value else d.retain,
       qos := if p.qos.Some? then p.qos.value else d.qos,
       publishInterval := if p.publishInterval.Some? then p.publishInterval.value else d.publishInterval,
       logLevel := Prefer(p.logLevel, d.logLevel),
       logFormat := Prefer(p.logFormat, d.logFormat))
  }

  /** A saved string wins unless it is empty. */
  predicate TextMerged(result: string, saved: string, default: string) {
    (saved != "" ==> result == saved) && (saved == "" ==> result == default)
  }

  /** A saved value wins if there is one. */
  predicate ValueMerged<T(==)>(result: T, saved: Option<T>, default: T) {
    (saved.Some? ==> saved == Some(result)) && (saved.None? ==> result == default)
  }

  /** Field by field, c is what the saved settings p make of the defaults d; what is not saved is as it was. */
  predicate Merged(d: Settings, p: Persisted, c: Settings) {
    && TextMerged(c.serialPort, p.serialPort, d.serialPort)
    && (p.baudRate != 0 ==> c.baudRate == p.baudRate) && (p.baudRate == 0 ==> c.baudRate == d.baudRate)
    && TextMerged(c.broker, p.broker, d.broker)
    && TextMerged(c.topicPrefix, p.topicPrefix, d.topicPrefix)
    && TextMerged(c.user, p.user, d.user)
    && TextMerged(c.pass, p.pass, d.pass)
    && ValueMerged(c.retain, p.retain, d.retain)
    && ValueMerged(c.qos, p.qos, d.qos)
    && ValueMerged(c.publishInterval, p.publishInterval, d.publishInterval)
    && TextMerged(c.logLevel, p.logLevel, d.logLevel)
    && TextMerged(c.logFormat, p.logFormat, d.logFormat)
    && c.haDiscovery == d.haDiscovery && c.haPrefix == d.haPrefix
    && c.webAddr == d.webAddr && c.webUser == d.webUser && c.webPass == d.webPass && c.configFile == d.configFile
  }

  /** Whatever the file holds, every setting is the saved one where that is present and not empty, and otherwise the
      default; a missing or unreadable file leaves the settings alone. */
  lemma MergeLaws(d: Settings, f: File, c: Settings)
    ensures Startup(d, f) == c <==> if f.Holds? then Merged(d, f.saved, c) else c == d
  {
  }

  /** A file that names only a broker changes only the broker. */
  lemma BrokerOnly(d: Settings, broker: string)
    requires broker != ""
    ensures Startup(d, Holds(Persisted("", 0, broker, "", "", "", None, None, None, "", ""))) == d.(broker := broker)
  {
    MergeLaws(d, Holds(Persisted("", 0, broker, "", "", "", None, None, None, "", "")), d.(broker := broker));
  }

  function Saved(c: Settings): Persisted {
    Persisted(c.serialPort, c.baudRate, c.broker, c.topicPrefix, c.user, c.pass,
              Some(c.retain), Some(c.qos), Some(c.publishInterval), c.logLevel, c.logFormat)
  }

  /** The settings of a fresh start with environment defaults d on a given file. */
  function Startup(d: Settings, f: File): Settings {
    if f.Holds? then Overlay(d, f.saved) else d
  }

  function Reload(d: Settings, c: Settings): Settings { Startup(d, Holds(Saved(c))) }

  // ---- Restart laws --------------------------------------------------------------------------------

  predicate KeptString(c: string, d: string) { c == "" ==> d == "" }

  /** Nothing was cleared that the environment sets, and nothing that is not persisted differs. */
  predicate Kept(d: Settings, c: Settings) {
    && KeptString(c.serialPort, d.serialPort) && (c.baudRate == 0 ==> d.baudRate == 0)
    && KeptString(c.broker, d.broker) && KeptString(c.topicPrefix, d.topicPrefix)
    && KeptString(c.user, d.user) && KeptString(c.pass, d.pass)
    && KeptString(c.logLevel, d.logLevel) && KeptString(c.logFormat, d.logFormat)
    && c.haDiscovery == d.haDiscovery && c.haPrefix == d.haPrefix
    && c.webAddr == d.webAddr && c.webUser == d.webUser && c.webPass == d.webPass && c.configFile == d.configFile
  }

  /** A restart brings back exactly the saved settings if and only if none of them was cleared to empty while the
      environment has a value, and the settings outside the file are still those of the environment. */
  lemma RestartLosslessIff(d: Settings, c: Settings)
    ensures Reload(d, c) == c <==> Kept(d, c)
  {
  }

  /** What a restart settles on survives every further save and restart. */
  lemma ReloadIdempotent(d: Settings, c: Settings)
    ensures Reload(d, Reload(d, c)) == Reload(d, c)
  {
    RestartLosslessIff(d, Reload(d, c));
  }

  /** Clearing the broker in the settings does not survive a restart in an environment that names one. */
  lemma ClearedBrokerReturns(d: Settings)
    requires d.broker != ""
    ensures var c := d.(broker := ""); Reload(d, c).broker == d.broker && Reload(d, c) != c
  {
  }

  // ---- Saving --------------------------------------------------------------------------------------

  type Files = map<string, File>

  function At(fs: Files, path: string): File { if path in fs then fs[path] else Missing }

  /** The steps in which a save changes the file system; writing a file begins by emptying it. */
  datatype FileOp = Truncate(path: string) | Fill(path: string, data: Persisted) | Rename(from: string, to: string)

  function ApplyOp(fs: Files, op: FileOp): Files {
    match op
    case Truncate(p) => fs[p := Garbled]
    case Fill(p, data) => fs[p := Holds(data)]
    case Rename(from, to) => fs[to := At(fs, from)] - {from}
  }

  function ApplyOps(fs: Files, ops: seq<FileOp>): Files {
    if ops == [] then fs else ApplyOp(ApplyOps(fs, ops[..|ops| - 1]), ops[|ops| - 1])
  }

  function Tmp(path: string): string { path + ".tmp" }

  /** How a save can end: an error in one of its system calls, or success. */
  datatype Outcome = MkdirFails | OpenFails | WriteFails | RenameFails | Completes

  function SaveOps(path: string, c: Settings, o: Outcome): seq<FileOp> {
    match o
    case MkdirFails => []
    case OpenFails => []
    case WriteFails => [Truncate(Tmp(path))]
    case RenameFails => [Truncate(Tmp(path)), Fill(Tmp(path), Saved(c))]
    case Completes => [Truncate(Tmp(path)), Fill(Tmp(path), Saved(c)), Rename(Tmp(path), path)]
  }

  /** A crash of the process leaves the file system as some failed save does. */
  lemma CrashIsOutcome(path: string, c: Settings, k: nat)
    requires k <= 3
    ensures exists o: Outcome :: SaveOps(path, c, Completes)[..k] == SaveOps(path, c, o)
  {
    var all := SaveOps(path, c, Completes);
    if k == 0 {
      assert all[..0] == SaveOps(path, c, MkdirFails);
    } else if k == 1 {
      assert all[..1] == SaveOps(path, c, WriteFails);
    } else if k == 2 {
      assert all[..2] == SaveOps(path, c, RenameFails);
    } else {
      assert all[..3] == SaveOps(path, c, Completes);
    }
  }

  lemma {:induction false} OpsElsewhere(fs: Files, ops: seq<FileOp>, path: string)
    requires forall op | op in ops :: !op.Rename? && op.path != path
    ensures At(ApplyOps(fs, ops), path) == At(fs, path)
  {
    if ops != [] {
      OpsElsewhere(fs, ops[..|ops| - 1], path);
    }
  }

  /** Only a completed save changes what the path holds, and then it holds all of the settings. */
  lemma SaveIsAtomic(fs: Files, path: string, c: Settings, o: Outcome)
    ensures At(ApplyOps(fs, SaveOps(path, c, o)), path) == if o.Completes? then Holds(Saved(c)) else At(fs, path)
  {
    assert |Tmp(path)| != |path|;
    var ops := SaveOps(path, c, o);
    if o.Completes? {
      var before := ApplyOps(fs, ops[..2]);
      assert ops[..2][..1] == ops[..1];
      assert At(before, Tmp(path)) == Holds(Saved(c));
    } else {
      OpsElsewhere(fs, ops, path);
    }
  }

  /** A save touches no other file, and a completed one leaves no temporary file behind. */
  lemma SaveElsewhere(fs: Files, path: string, c: Settings, o: Outcome, other: string)
    requires other != path && other != Tmp(path)
    ensures At(ApplyOps(fs, SaveOps(path, c, o)), other) == At(fs, other)
    ensures o.Completes? ==> At(ApplyOps(fs, SaveOps(path, c, o)), Tmp(path)) == Missing
  {
    assert |Tmp(path)| != |path|;
    var ops := SaveOps(path, c, o);
    if o.Completes? {
      assert ops[..2][..1] == ops[..1] && ops[..1][..0] == [];
      assert ApplyOps(fs, ops) == ApplyOp(ApplyOps(fs, ops[..2]), ops[2]);
      OpsElsewhere(fs, ops[..2], other);
    } else {
      OpsElsewhere(fs, ops, other);
    }
  }

  /** What a save leaves under the temporary name, however it ends. */
  lemma LeftBehind(fs: Files, path: string, c: Settings, o: Outcome)
    ensures At(ApplyOps(fs, SaveOps(path, c, o)), path + ".tmp") ==
      match o
      case MkdirFails => At(fs, path + ".tmp")
      case OpenFails => At(fs, path + ".tmp")
      case WriteFails => Garbled
      case RenameFails => Holds(Saved(c))
      case Completes => Missing
  {
    assert |Tmp(path)| != |path| && Tmp(path) == path + ".tmp";
    var ops := SaveOps(path, c, o);
    if |ops| > 0 {
      assert ops[..|ops| - 1] == SaveOps(path, c, Completes)[..|ops| - 1];
      assert ApplyOps(fs, ops) == ApplyOp(ApplyOps(fs, ops[..|ops| - 1]), ops[|ops| - 1]);
    }
  }

  /** An attempt to save some settings, and how it ended. */
  datatype Attempt = Attempt(settings: Settings, outcome: Outcome)

  function FilesAfter(fs: Files, path: string, saves: seq<Attempt>): Files {
    if saves == [] then fs
    else
      var last := saves[|saves| - 1];
      ApplyOps(FilesAfter(fs, path, saves[..|saves| - 1]), SaveOps(path, last.settings, last.outcome))
  }

  /** What has reached the disk of a save when the power fails: the steps are not synced, so any of them may be missing,
      except that data is written to a file that has been emptied. */
  datatype OnDisk = OnDisk(emptied: bool, written: bool, renamed: bool)
  {
    predicate Possible() { written ==> emptied }

    function Ops(path: string, c: Settings): seq<FileOp> {
      (if emptied then [Truncate(Tmp(path))] else [])
      + (if written then [Fill(Tmp(path), Saved(c))] else [])
      + (if renamed then [Rename(Tmp(path), path)] else [])
    }

    /** What the rename moves, if it reached the disk: without the other steps, a temporary file left over earlier. */
    function Moved(leftover: File, c: Settings): File {
      if written then Holds(Saved(c)) else if emptied then Garbled else leftover
    }
  }

  lemma PowerLoss(fs: Files, path: string, c: Settings, disk: OnDisk)
    requires disk.Possible()
    ensures At(ApplyOps(fs, disk.Ops(path, c)), path) ==
            if disk.renamed then disk.Moved(At(fs, Tmp(path)), c) else At(fs, path)
  {
    var ops := disk.Ops(path, c);
    if !disk.renamed {
      OpsElsewhereTmp(fs, ops, path);
    } else if disk.written {
      assert ops == SaveOps(path, c, Completes);
      SaveIsAtomic(fs, path, c, Completes);
    } else if disk.emptied {
      UnwrittenRename(fs, path);
      assert ops == [Truncate(Tmp(path)), Rename(Tmp(path), path)];
    } else {
      LeftoverRename(fs, path);
      assert ops == [Rename(Tmp(path), path)];
    }
  }

  /** A power loss during a save leaves the old file or the new one exactly when a rename that reached the disk found
      the data there, or a leftover that is one of the two. */
  lemma PowerLossIff(fs: Files, path: string, c: Settings, disk: OnDisk)
    requires disk.Possible() && !At(fs, path).Garbled?
    ensures At(ApplyOps(fs, disk.Ops(path, c)), path) in {At(fs, path), Holds(Saved(c))} <==>
            || !disk.renamed || disk.written
            || (!disk.emptied && At(fs, Tmp(path)) in {At(fs, path), Holds(Saved(c))})
  {
    PowerLoss(fs, path, c, disk);
  }

  /** Settings to be saved, and what of it reached the disk. */
  datatype Loss = Loss(settings: Settings, disk: OnDisk)

  /** The file system after what reached the disk of the first n saves. */
  function AfterLosses(fs: Files, path: string, saves: seq<Loss>, n: nat): Files
    requires n <= |saves|
  {
    if n == 0 then fs
    else ApplyOps(AfterLosses(fs, path, saves, n - 1), saves[n - 1].disk.Ops(path, saves[n - 1].settings))
  }

  lemma NextLoss(fs: Files, path: string, saves: seq<Loss>, n: nat)
    requires n < |saves| && saves[n].disk.Possible()
    ensures At(AfterLosses(fs, path, saves, n + 1), path) ==
      if saves[n].disk.renamed
      then saves[n].disk.Moved(At(AfterLosses(fs, path, saves, n), Tmp(path)), saves[n].settings)
      else At(AfterLosses(fs, path, saves, n), path)
  {
    PowerLoss(AfterLosses(fs, path, saves, n), path, saves[n].settings, saves[n].disk);
  }

  /** Of any number of unsynced saves, the settings file has what the last rename on disk moved, or is the original. */
  lemma {:induction false} PowerLossRun(fs: Files, path: string, saves: seq<Loss>, n: nat, k: int)
    requires -1 <= k < n <= |saves| && (k >= 0 ==> saves[k].disk.renamed)
    requires forall j | 0 <= j < n :: saves[j].disk.Possible()
    requires forall j | k < j < n :: !saves[j].disk.renamed
    ensures At(AfterLosses(fs, path, saves, n), path) ==
            if k < 0 then At(fs, path)
            else saves[k].disk.Moved(At(AfterLosses(fs, path, saves, k), Tmp(path)), saves[k].settings)
    decreases n
  {
    hide *;
    if n == 0 {
      NoLosses(fs, path, saves);
    } else {
      NextLoss(fs, path, saves, n - 1);
      if k < n - 1 {
        PowerLossRun(fs, path, saves, n - 1, k);
      }
    }
  }

  lemma NoLosses(fs: Files, path: string, saves: seq<Loss>)
    ensures AfterLosses(fs, path, saves, 0) == fs
  {
  }

  /** After a save whose rename failed, a power loss during the next one can bring its settings up: neither the old
      ones nor the new. */
  lemma LeftoverRevives(fs: Files, path: string, b: Settings, c: Settings)
    ensures var saves := [Loss(b, OnDisk(true, true, false)), Loss(c, OnDisk(false, false, true))];
      At(AfterLosses(fs, path, saves, 2), path) == Holds(Saved(b))
  {
    var saves := [Loss(b, OnDisk(true, true, false)), Loss(c, OnDisk(false, false, true))];
    var ops := saves[0].disk.Ops(path, b);
    assert ops == [Truncate(Tmp(path)), Fill(Tmp(path), Saved(b))] && ops[..1][..0] == [];
    assert AfterLosses(fs, path, saves, 1) == ApplyOps(AfterLosses(fs, path, saves, 0), ops);
    assert AfterLosses(fs, path, saves, 0) == fs;
    assert At(ApplyOps(fs, ops), Tmp(path)) == Holds(Saved(b));
    NextLoss(fs, path, saves, 1);
  }

  lemma OpsElsewhereTmp(fs: Files, ops: seq<FileOp>, path: string)
    requires forall op | op in ops :: !op.Rename? && op.path == Tmp(path)
    ensures At(ApplyOps(fs, ops), path) == At(fs, path)
  {
    assert |Tmp(path)| != |path|;
    OpsElsewhere(fs, ops, path);
  }

  /** A rename that overtakes the data leaves an unreadable settings file. */
  lemma UnwrittenRename(fs: Files, path: string)
    ensures At(ApplyOps(fs, [Truncate(Tmp(path)), Rename(Tmp(path), path)]), path) == Garbled
  {
    assert |Tmp(path)| != |path|;
    var ops := [Truncate(Tmp(path)), Rename(Tmp(path), path)];
    assert ops[..1] == [Truncate(Tmp(path))] && ops[..1][..0] == [];
    assert ApplyOps(fs, ops[..1]) == fs[Tmp(path) := Garbled];
  }

  lemma LeftoverRename(fs: Files, path: string)
    ensures At(ApplyOps(fs, [Rename(Tmp(path), path)]), path) == At(fs, Tmp(path))
  {
    assert |Tmp(path)| != |path|;
    assert [Rename(Tmp(path), path)][..0] == [];
  }

  /** Whatever crashes and errors interrupted sequential saves, a restart finds exactly the settings of the last save
      that completed, or the original file if none did. */
  lemma {:induction false} CrashAtomicity(d: Settings, fs: Files, path: string, saves: seq<Attempt>, k: int)
    requires -1 <= k < |saves| && (k >= 0 ==> saves[k].outcome.Completes?)
    requires forall j | k < j < |saves| :: !saves[j].outcome.Completes?
    ensures Startup(d, At(FilesAfter(fs, path, saves), path)) ==
            if k < 0 then Startup(d, At(fs, path)) else Reload(d, saves[k].settings)
  {
    if saves == [] {
      NoSaves(fs, path);
    } else {
      hide FilesAfter, ApplyOps, SaveOps, At, Startup;
      var n := |saves| - 1;
      LastSave(fs, path, saves);
      if k < n {
        CrashAtomicity(d, fs, path, saves[..n], k);
      }
    }
  }

  lemma NoSaves(fs: Files, path: string)
    ensures FilesAfter(fs, path, []) == fs
  {
  }

  lemma LastSave(fs: Files, path: string, saves: seq<Attempt>)
    requires saves != []
    ensures var n := |saves| - 1;
      At(FilesAfter(fs, path, saves), path) ==
      if saves[n].outcome.Completes? then Holds(Saved(saves[n].settings))
      else At(FilesAfter(fs, path, saves[..n]), path)
  {
    var n := |saves| - 1;
    SaveIsAtomic(FilesAfter(fs, path, saves[..n]), path, saves[n].settings, saves[n].outcome);
  }

  // ---- The store -----------------------------------------------------------------------------------

  class Store {
    var cfg: Settings
    var version: nat
    var fs: Files
    const path: string   // empty if nothing is persisted

    ghost predicate Valid()
      reads this
    {
      version < WORD64
    }

    /** Environment defaults, overlaid with the saved file if there is a path. */
    constructor (defaults: Settings, path: string, fs: Files)
      ensures Valid() && version == 0 && this.fs == fs && this.path == path
      ensures cfg == if path != "" then Startup(defaults, At(fs, path)) else defaults
    {
      cfg, version, this.fs, this.path := defaults, 0, fs, path;
      new;
      if path != "" {
        LoadFile();
      }
    }

    /** Overlays the saved values one by one; a missing or unreadable file changes nothing. */
    method LoadFile()
      requires Valid()
      modifies `cfg
      ensures cfg == Startup(old(cfg), At(fs, path))
      ensures At(fs, path).Holds? ==> Merged(old(cfg), At(fs, path).saved, cfg)
      ensures !At(fs, path).Holds? ==> cfg == old(cfg)
    {
      var file := At(fs, path);
      if !file.Holds? {
        return;
      }
      LoadDevice(file.saved);
      LoadBroker(file.saved);
      LoadApplication(file.saved);
      MergeLaws(old(cfg), At(fs, path), cfg);
    }

    method LoadDevice(p: Persisted)
      modifies `cfg
      ensures cfg == old(cfg).(serialPort := Prefer(p.serialPort, old(cfg).serialPort),
                               baudRate := if p.baudRate != 0 then p.baudRate else old(cfg).baudRate)
    {
      if p.serialPort != "" {
        cfg := cfg.(serialPort := p.serialPort);
      }
      if p.baudRate != 0 {
        cfg := cfg.(baudRate := p.baudRate);
      }
    }

    method LoadBroker(p: Persisted)
      modifies `cfg
      ensures cfg == old(cfg).(broker := Prefer(p.broker, old(cfg).broker),
                               topicPrefix := Prefer(p.topicPrefix, old(cfg).topicPrefix),
                               user := Prefer(p.user, old(cfg).user),
                               pass := Prefer(p.pass, old(cfg).pass),
                               retain := if p.retain.Some? then p.retain.value else old(cfg).retain,
                               qos := if p.qos.Some? then p.qos.value else old(cfg).qos)
    {
      if p.broker != "" {
        cfg := cfg.(broker := p.broker);
      }
      if p.topicPrefix != "" {
        cfg := cfg.(topicPrefix := p.topicPrefix);
      }
      if p.user != "" {
        cfg := cfg.(user := p.user);
      }
      if p.pass != "" {
        cfg := cfg.(pass := p.pass);
      }
      if p.retain.Some? {
        cfg := cfg.(retain := p.retain.value);
      }
      if p.qos.Some? {
        cfg := cfg.(qos := p.qos.value);
      }
    }

    method LoadApplication(p: Persisted)
      modifies `cfg
      ensures cfg == old(cfg).(publishInterval := if p.publishInterval.Some? then p.publishInterval.value
                                                  else old(cfg).publishInterval,
                               logLevel := Prefer(p.logLevel, old(cfg).logLevel),
                               logFormat := Prefer(p.logFormat, old(cfg).logFormat))
    {
      if p.publishInterval.Some? {
        cfg := cfg.(publishInterval := p.publishInterval.value);
      }
      if p.logLevel != "" {
        cfg := cfg.(logLevel := p.logLevel);
      }
      if p.logFormat != "" {
        cfg := cfg.(logFormat := p.logFormat);
      }
    }

    /** Applies fn to a copy of the settings, bumps the version and saves. */
    method Update(fn: Settings -> Settings, outcome: Outcome) returns (ok: bool)
      requires Valid()
      modifies this
      ensures Valid()
      ensures cfg == fn(old(cfg)) && version == (old(version) + 1) % WORD64
      ensures fs == if path != "" then ApplyOps(old(fs), SaveOps(path, cfg, outcome)) else old(fs)
      ensures ok <==> path == "" || outcome.Completes?
    {
      var next := cfg;
      next := fn(next);
      cfg := next;
      version := if version == WORD64 - 1 then 0 else version + 1;
      ok := true;
      if path != "" {
        ok := SaveFile(outcome);
      }
    }

    /** Creates the directory, writes the temporary file and renames it, giving up at the first error. */
    method SaveFile(outcome: Outcome) returns (ok: bool)
      modifies `fs
      ensures fs == ApplyOps(old(fs), SaveOps(path, cfg, outcome))
      ensures ok <==> outcome.Completes?
      ensures At(fs, path) == if ok then Holds(Saved(cfg)) else old(At(fs, path))
    {
      SaveIsAtomic(fs, path, cfg, outcome);
      ghost var ops := SaveOps(path, cfg, outcome);
      ok := false;
      var p := Persisted(cfg.serialPort, cfg.baudRate, cfg.broker, cfg.topicPrefix, cfg.user, cfg.pass,
                         Some(cfg.retain), Some(cfg.qos), Some(cfg.publishInterval), cfg.logLevel, cfg.logFormat);
      if outcome.MkdirFails? || outcome.OpenFails? {
        return;
      }
      var tmp := Tmp(path);
      fs := fs[tmp := Garbled];
      assert ops[..1][..0] == [] && fs == ApplyOps(old(fs), ops[..1]);
      if outcome.WriteFails? {
        assert ops[..1] == ops;
        return;
      }
      fs := fs[tmp := Holds(p)];
      assert ops[..2][..1] == ops[..1] && fs == ApplyOps(old(fs), ops[..2]);
      if outcome.RenameFails? {
        assert ops[..2] == ops;
        return;
      }
      fs := fs[path := fs[tmp]] - {tmp};
      ok := true;
    }
  }

  /** An update that was saved completely is what the next start with the same environment comes up with, up to the
      cleared and unpersisted settings. */
  method UpdateThenRestart(s: Store, defaults: Settings, fn: Settings -> Settings) returns (t: Store)
    requires s.Valid() && s.path != ""
    modifies s
    ensures t.cfg == Reload(defaults, fn(old(s.cfg)))
    ensures Kept(defaults, fn(old(s.cfg))) ==> t.cfg == s.cfg
  {
    var ok := s.Update(fn, Completes);
    SaveIsAtomic(old(s.fs), s.path, s.cfg, Completes);
    RestartLosslessIff(defaults, s.cfg);
    t := new Store(defaults, s.path, s.fs);
  }
}
