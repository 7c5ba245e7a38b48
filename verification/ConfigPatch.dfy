/** The crash-safe write of `config.toml`: a step system of one patcher, the operating system's
    background flushes, and crashes at any point. */
module ConfigPatch {
  import opened Options
  import opened ConfigDocument

  /** A file: what readers see, what is on the platter, and whether the two may differ. */
  datatype Inode = Inode(data: string, disk: string, dirty: bool)

  /** The two directory entries that matter: `config.toml` and `config.toml.tmp`. */
  datatype Dir = Dir(config: Option<nat>, tmp: Option<nat>)

  /** How far the patcher is in `patch_config_file`. */
  datatype Phase =
    | Idle
    | Prepared(text: string, edit: Edit)
    | Writing(text: string, edit: Edit, ino: nat, written: nat)
    | Written(text: string, edit: Edit, ino: nat)
    | Renamed

  /** A document that was in place at some time: version `base`, edited. The first version is what
      was there at the start. */
  datatype Version = Version(text: Option<string>, base: nat, edit: Edit)

  /** The file system and the patcher, with a log of all versions. `live` is the directory as
      readers see it and `disk` as a crash leaves it; the indices say which versions they hold, and
      `synced` which version the last successful directory sync made durable. */
  datatype State = State(
    inodes: map<nat, Inode>, live: Dir, disk: Dir, phase: Phase,
    log: seq<Version>, liveIdx: nat, diskIdx: nat, synced: nat)

  /** The reader and writer of the format, and whether the temporary file is synced before the
      rename, as the source does. */
  datatype Setup = Setup(codec: Codec, fsync: bool)

  datatype Event =
    | Begin(edit: Edit)
    | Create(spare: nat)
    | Write(count: nat)
    | Sync
    | Rename
    | SyncDir(ok: bool)
    | Abort
    | FlushData(ino: nat, bytes: string)
    | FlushDir
    | Crash

  function Content(inodes: map<nat, Inode>, entry: Option<nat>): Option<string> {
    if entry.Some? && entry.value in inodes then Some(inodes[entry.value].data) else None
  }

  /** What a reader of `config.toml` gets. */
  function Live(s: State): Option<string> {
    Content(s.inodes, s.live.config)
  }

  function Reboot(inodes: map<nat, Inode>): map<nat, Inode> {
    map i | i in inodes :: Inode(inodes[i].disk, inodes[i].disk, false)
  }

  /** What a reader gets after a crash now. */
  function Recovered(s: State): Option<string> {
    Content(Reboot(s.inodes), s.disk.config)
  }

  predicate Enabled(s: State, e: Event) {
    match e
    case Begin(_) => s.phase.Idle?
    case Create(spare) => s.phase.Prepared? && spare !in s.inodes
    case Write(count) => s.phase.Writing? && s.phase.ino in s.inodes && s.phase.written + count <= |s.phase.text|
    case Sync => s.phase.Writing? && s.phase.ino in s.inodes && s.phase.written == |s.phase.text|
    case Rename => s.phase.Written?
    case SyncDir(_) => s.phase.Renamed?
    case Abort => true
    case FlushData(ino, _) => ino in s.inodes
    case FlushDir => true
    case Crash => true
  }

  /** One step; an event that is not enabled changes nothing. */
  function Step(setup: Setup, s: State, e: Event): State {
    if !Enabled(s, e) then s else
    match e
    case Begin(edit) =>
      (match PatchText(setup.codec, Live(s), edit)
       case None => s
       case Some(text) => s.(phase := Prepared(text, edit)))
    case Create(spare) =>
      // `File::create` truncates the temporary file an interrupted patch may have left
      var ino := if s.live.tmp.Some? then s.live.tmp.value else spare;
      var disk := if ino in s.inodes then s.inodes[ino].disk else "";
      s.(inodes := s.inodes[ino := Inode("", disk, true)], live := s.live.(tmp := Some(ino)),
         phase := Writing(s.phase.text, s.phase.edit, ino, 0))
    case Write(count) =>
      var n := s.phase.written + count;
      var node := s.inodes[s.phase.ino];
      s.(inodes := s.inodes[s.phase.ino := Inode(s.phase.text[..n], node.disk, true)],
         phase := s.phase.(written := n))
    case Sync =>
      var node := s.inodes[s.phase.ino];
      s.(inodes := if setup.fsync then s.inodes[s.phase.ino := Inode(node.data, node.data, false)] else s.inodes,
         phase := Written(s.phase.text, s.phase.edit, s.phase.ino))
    case Rename =>
      s.(live := Dir(Some(s.phase.ino), None), phase := Renamed,
         log := s.log + [Version(Some(s.phase.text), s.liveIdx, s.phase.edit)], liveIdx := |s.log|)
    case SyncDir(ok) =>
      if ok then s.(disk := s.live, diskIdx := s.liveIdx, synced := s.liveIdx, phase := Idle)
      else s.(phase := Idle)
    case Abort =>
      // an input/output error, or the process is killed: the patcher gives up where it stands
      s.(phase := Idle)
    case FlushData(ino, bytes) =>
      // nothing is known of the platter's copy of a file until a sync; a clean file stays as it is
      if s.inodes[ino].dirty then s.(inodes := s.inodes[ino := s.inodes[ino].(disk := bytes)]) else s
    case FlushDir =>
      s.(disk := s.live, diskIdx := s.liveIdx)
    case Crash =>
      s.(inodes := Reboot(s.inodes), live := s.disk, liveIdx := s.diskIdx, phase := Idle)
  }

  function Run(setup: Setup, s: State, es: seq<Event>): State
    decreases |es|
  {
    if es == [] then s else Run(setup, Step(setup, s, es[0]), es[1..])
  }

  // ----- The invariant.

  /** `entry` holds version `text`, safe on the platter. */
  ghost predicate Holds(inodes: map<nat, Inode>, entry: Option<nat>, text: Option<string>) {
    match (entry, text)
    case (None, None) => true
    case (Some(i), Some(t)) => i in inodes && inodes[i] == Inode(t, t, false)
    case _ => false
  }

  /** The entry for the temporary file is a file of its own. */
  ghost predicate Separate(s: State) {
    && (s.live.tmp.Some? ==> s.live.tmp.value in s.inodes && s.live.tmp != s.live.config && s.live.tmp != s.disk.config)
    && (s.disk.tmp.Some? ==> s.disk.tmp.value in s.inodes && s.disk.tmp != s.disk.config)
  }

  ghost predicate PhaseOk(setup: Setup, s: State) {
    match s.phase
    case Idle => true
    case Renamed => true
    case Prepared(text, edit) => PatchText(setup.codec, Live(s), edit) == Some(text)
    case Writing(text, edit, ino, written) =>
      && PatchText(setup.codec, Live(s), edit) == Some(text) && s.live.tmp == Some(ino)
      && ino in s.inodes && written <= |text| && s.inodes[ino].data == text[..written] && s.inodes[ino].dirty
    case Written(text, edit, ino) =>
      && PatchText(setup.codec, Live(s), edit) == Some(text) && s.live.tmp == Some(ino)
      && ino in s.inodes && s.inodes[ino] == Inode(text, text, false)
  }

  /** Every version but the first is an edit of an earlier one. */
  ghost predicate Chained(setup: Setup, log: seq<Version>) {
    forall k :: 0 < k < |log| ==>
      log[k].base < k && log[k].text.Some? && PatchText(setup.codec, log[log[k].base].text, log[k].edit) == log[k].text
  }

  ghost predicate Inv(setup: Setup, s: State) {
    && s.synced <= s.diskIdx <= s.liveIdx < |s.log|
    && Holds(s.inodes, s.live.config, s.log[s.liveIdx].text)
    && Holds(s.inodes, s.disk.config, s.log[s.diskIdx].text)
    && Separate(s)
    && PhaseOk(setup, s)
    && Chained(setup, s.log)
  }

  /** No patch is under way and everything is durable. */
  ghost predicate Quiet(setup: Setup, s: State) {
    Inv(setup, s) && s.phase == Idle && s.live == s.disk && s.liveIdx == s.diskIdx == s.synced == |s.log| - 1
  }

  lemma ChainedAppend(setup: Setup, log: seq<Version>, v: Version)
    requires Chained(setup, log) && v.base < |log| && v.text.Some?
    requires PatchText(setup.codec, log[v.base].text, v.edit) == v.text
    ensures Chained(setup, log + [v])
  {
    hide PatchText;
  }

  /** Each step keeps the invariant, as long as the temporary file is synced before the rename. */
  lemma StepKeepsInv(setup: Setup, s: State, e: Event)
    requires setup.fsync && Inv(setup, s)
    ensures Inv(setup, Step(setup, s, e))
  {
    hide PatchText, Chained;
    match e
    case Rename =>
      if Enabled(s, e) {
        ChainedAppend(setup, s.log, Version(Some(s.phase.text), s.liveIdx, s.phase.edit));
      }
    case _ =>
  }

  lemma {:induction false} RunKeepsInv(setup: Setup, s: State, es: seq<Event>)
    requires setup.fsync && Inv(setup, s)
    ensures Inv(setup, Run(setup, s, es))
    decreases |es|
  {
    hide Inv, Step;
    if es != [] {
      StepKeepsInv(setup, s, es[0]);
      RunKeepsInv(setup, Step(setup, s, es[0]), es[1..]);
    }
  }

  // ----- Whole documents only.

  lemma InvVersions(setup: Setup, s: State)
    requires Inv(setup, s)
    ensures Live(s) == s.log[s.liveIdx].text && Recovered(s) == s.log[s.diskIdx].text
  {
  }

  /** After a crash readers get what was called recoverable before it, and again after the next. */
  lemma CrashRecovers(setup: Setup, s: State)
    ensures var t := Step(setup, s, Crash); Live(t) == Recovered(s) && Recovered(t) == Recovered(s) && t.phase == Idle
  {
  }

  /** The log only grows and the durable version only moves on while the machine is up or down. */
  lemma StepGrows(setup: Setup, s: State, e: Event)
    requires setup.fsync && Inv(setup, s)
    ensures var t := Step(setup, s, e);
            && s.log <= t.log && |t.log| <= |s.log| + 1
            && s.synced <= t.synced && s.diskIdx <= t.diskIdx
            && (e == SyncDir(true) && s.phase.Renamed? ==> t.synced == s.liveIdx)
            && (t.liveIdx == s.liveIdx || t.liveIdx == s.diskIdx || t.liveIdx == |s.log|)
  {
    hide PatchText, Chained, Holds, PhaseOk, Separate;
  }

  lemma {:induction false} RunGrows(setup: Setup, s: State, es: seq<Event>)
    requires setup.fsync && Inv(setup, s)
    ensures var t := Run(setup, s, es);
            Inv(setup, t) && s.log <= t.log && s.synced <= t.synced && s.diskIdx <= t.diskIdx
    decreases |es|
  {
    hide Inv, Step;
    if es != [] {
      StepKeepsInv(setup, s, es[0]);
      StepGrows(setup, s, es[0]);
      RunGrows(setup, Step(setup, s, es[0]), es[1..]);
    }
  }

  /** Over a whole sequence of patches, errors, background flushes and crashes, what a reader sees
      and what a crash would leave are whole versions; the recovered one is never older than the
      last patch whose directory sync succeeded, and every version but the first is an edit of an
      earlier one. */
  lemma WholeDocuments(setup: Setup, s: State, es: seq<Event>)
    requires setup.fsync && Inv(setup, s)
    ensures var t := Run(setup, s, es);
            && t.liveIdx < |t.log| && Live(t) == t.log[t.liveIdx].text
            && t.diskIdx <= t.liveIdx && Recovered(t) == t.log[t.diskIdx].text
            && s.synced <= t.synced <= t.diskIdx
            && Chained(setup, t.log)
  {
    hide *;
    RunGrows(setup, s, es);
    InvIndices(setup, Run(setup, s, es));
    InvVersions(setup, Run(setup, s, es));
  }

  lemma InvIndices(setup: Setup, s: State)
    requires Inv(setup, s)
    ensures s.synced <= s.diskIdx <= s.liveIdx < |s.log| && Chained(setup, s.log)
  {
    hide Holds, PhaseOk, Separate, Chained;
  }

  /** With at most one patch renamed since `s`, a crash in `t` leaves the old document or the new. */
  ghost predicate RecoversOldOrNew(s: State, t: State) {
    |t.log| <= |s.log| + 1 ==>
      Recovered(t) == Live(s) || (|t.log| > |s.log| && Recovered(t) == t.log[|s.log|].text)
  }

  /** During one patch of a quiet system, with flushes in any order and a crash at any point, the
      recovered document is the old one or the new one. */
  lemma OldOrNew(setup: Setup, s: State, es: seq<Event>)
    requires setup.fsync && Quiet(setup, s)
    ensures RecoversOldOrNew(s, Run(setup, s, es))
  {
    hide Run, Step, Holds, PhaseOk, Separate, Chained, Recovered, Live;
    RunGrows(setup, s, es);
    InvVersions(setup, Run(setup, s, es));
    InvVersions(setup, s);
  }

  // ----- Dropping the sync before the rename breaks it.

  /** The file a patch writes to: the one an interrupted patch has left, or a new one. */
  function Target(s: State, spare: nat): nat {
    if s.live.tmp.Some? then s.live.tmp.value else spare
  }

  /** A patch run to the end, its rename made durable, and then a crash; of the file's content only
      `bytes` reached the platter. */
  function PatchThenCrash(s: State, edit: Edit, text: string, spare: nat, bytes: string): seq<Event> {
    [Begin(edit), Create(spare), Write(|text|), Sync, FlushData(Target(s, spare), bytes), Rename, FlushDir, Crash]
  }

  lemma RunCons(setup: Setup, s: State, e: Event, es: seq<Event>)
    ensures Run(setup, s, [e] + es) == Run(setup, Step(setup, s, e), es)
    ensures Run(setup, s, []) == s
  {
    hide Step;
    assert ([e] + es)[1..] == es;
  }

  lemma {:induction false} RunConcat(setup: Setup, s: State, a: seq<Event>, b: seq<Event>)
    ensures Run(setup, s, a + b) == Run(setup, Run(setup, s, a), b)
    decreases |a|
  {
    hide Step;
    if a == [] {
      assert a + b == b;
    } else {
      assert (a + b)[1..] == a[1..] + b;
      RunConcat(setup, Step(setup, s, a[0]), a[1..], b);
    }
  }

  lemma RunTwo(setup: Setup, s: State, e: Event, f: Event)
    ensures Run(setup, s, [e, f]) == Step(setup, Step(setup, s, e), f)
  {
    hide Step;
    RunCons(setup, s, e, [f]);
    RunCons(setup, Step(setup, s, e), f, []);
    assert [e] + [f] == [e, f] && [f] + [] == [f];
  }

  lemma RunSteps(setup: Setup, s: State, edit: Edit, text: string, spare: nat, bytes: string)
    ensures var s1 := Step(setup, Step(setup, s, Begin(edit)), Create(spare));
            var s2 := Step(setup, Step(setup, s1, Write(|text|)), Sync);
            var s3 := Step(setup, Step(setup, s2, FlushData(Target(s, spare), bytes)), Rename);
            Run(setup, s, PatchThenCrash(s, edit, text, spare, bytes)) == Step(setup, Step(setup, s3, FlushDir), Crash)
  {
    hide Run, Step;
    var flush := FlushData(Target(s, spare), bytes);
    var s1 := Step(setup, Step(setup, s, Begin(edit)), Create(spare));
    var s2 := Step(setup, Step(setup, s1, Write(|text|)), Sync);
    var s3 := Step(setup, Step(setup, s2, flush), Rename);
    var a, b, c, d := [Begin(edit), Create(spare)], [Write(|text|), Sync], [flush, Rename], [FlushDir, Crash];
    assert PatchThenCrash(s, edit, text, spare, bytes) == a + (b + (c + d));
    RunConcat(setup, s, a, b + (c + d));
    RunConcat(setup, s1, b, c + d);
    RunConcat(setup, s2, c, d);
    RunTwo(setup, s, Begin(edit), Create(spare));
    RunTwo(setup, s1, Write(|text|), Sync);
    RunTwo(setup, s2, flush, Rename);
    RunTwo(setup, s3, FlushDir, Crash);
  }

  /** Without the sync a crash may leave any bytes at all in the renamed file, whether or not an
      interrupted patch had left its temporary file behind. */
  lemma WithoutSyncAnything(setup: Setup, s: State, edit: Edit, text: string, spare: nat, bytes: string)
    requires !setup.fsync && s.phase == Idle && spare !in s.inodes
    requires PatchText(setup.codec, Live(s), edit) == Some(text)
    ensures var t := Run(setup, s, PatchThenCrash(s, edit, text, spare, bytes));
            && Recovered(t) == Some(bytes)
            && |t.log| == |s.log| + 1 && t.log[|s.log|].text == Some(text)
  {
    hide PatchText, Run;
    RunSteps(setup, s, edit, text, spare, bytes);
    assert text[..|text|] == text;
  }

  /** As file systems with delayed allocation do it: the recovered file is empty. */
  lemma WithoutSyncTorn(setup: Setup, s: State, edit: Edit, text: string, spare: nat)
    requires !setup.fsync && s.phase == Idle && spare !in s.inodes
    requires PatchText(setup.codec, Live(s), edit) == Some(text)
    ensures Recovered(Run(setup, s, PatchThenCrash(s, edit, text, spare, ""))) == Some("")
  {
    hide *;
    WithoutSyncAnything(setup, s, edit, text, spare, "");
  }

  /** So syncing before the rename is exactly what keeps every run on whole documents, from any quiet
      state and for any patch that renders. */
  lemma SyncIsNeeded(setup: Setup, s: State, edit: Edit, text: string, spare: nat)
    requires Quiet(setup, s) && spare !in s.inodes && PatchText(setup.codec, Live(s), edit) == Some(text)
    ensures setup.fsync <==> forall es :: RecoversOldOrNew(s, Run(setup, s, es))
  {
    hide PatchText, Run, Recovered, Live, Inv;
    if setup.fsync {
      forall es ensures RecoversOldOrNew(s, Run(setup, s, es)) {
        OldOrNew(setup, s, es);
      }
    } else {
      var bytes := NeitherOf(Some(text), Live(s));
      WithoutSyncAnything(setup, s, edit, text, spare, bytes);
      assert !RecoversOldOrNew(s, Run(setup, s, PatchThenCrash(s, edit, text, spare, bytes)));
    }
  }

  lemma NeitherOf(a: Option<string>, b: Option<string>) returns (bytes: string)
    ensures Some(bytes) != a && Some(bytes) != b
  {
    assert "" != "a" && "a" != "aa" && "" != "aa" by { assert |""| == 0 && |"a"| == 1 && |"aa"| == 2; }
    bytes := if Some("") != a && Some("") != b then "" else if Some("a") != a && Some("a") != b then "a" else "aa";
  }
}
