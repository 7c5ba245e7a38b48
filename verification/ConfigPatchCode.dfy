/** The patcher's code, run against the step system: each system call is one step, and each may fail. */
module ConfigPatchCode {
  import opened Options
  import opened ConfigDocument
  import opened ConfigPatch

  lemma {:induction false} RunAppend(setup: Setup, s: State, es: seq<Event>, e: Event)
    ensures Run(setup, s, es + [e]) == Step(setup, Run(setup, s, es), e)
    decreases |es|
  {
    hide Step;
    if es == [] {
      assert es + [e] == [e] && [e][1..] == [];
    } else {
      assert (es + [e])[1..] == es[1..] + [e];
      RunAppend(setup, Step(setup, s, es[0]), es[1..], e);
    }
  }

  /** The directory of `config.toml`. */
  class ConfigDir {
    const setup: Setup
    var st: State
    ghost var start: State
    ghost var events: seq<Event>

    /** The state was reached by the recorded steps. */
    ghost predicate Valid()
      reads this
    {
      setup.fsync && Inv(setup, st) && st == Run(setup, start, events)
    }

    constructor (setup: Setup, st: State)
      requires setup.fsync && Inv(setup, st)
      ensures Valid() && this.setup == setup && this.st == st
    {
      this.setup, this.st := setup, st;
      start, events := st, [];
    }

    /** One system call, or the patcher giving up. */
    method Do(e: Event)
      requires Valid()
      modifies this
      ensures Valid() && st == Step(setup, old(st), e)
      ensures start == old(start) && events == old(events) + [e]
    {
      hide Inv, Step, Run;
      RunAppend(setup, start, events, e);
      StepKeepsInv(setup, st, e);
      st := Step(setup, st, e);
      events := events + [e];
    }

    /** `write_synced`: create the temporary file, write it in as many pieces as the system likes,
        and sync it. */
    method WriteSynced(spare: nat) returns (ok: bool)
      requires Valid() && st.phase.Prepared? && spare !in st.inodes
      modifies this
      ensures Valid() && start == old(start) && old(events) <= events
      ensures Live(st) == old(Live(st)) && st.log == old(st.log) && st.liveIdx == old(st.liveIdx)
      ensures ok ==> st.phase.Written? && st.phase.text == old(st.phase.text) && st.phase.edit == old(st.phase.edit)
      ensures !ok ==> st.phase == Idle
    {
      hide Run, PatchText, Chained;
      var failed: bool := *;
      if failed { Do(Abort); return false; }
      Do(Create(spare));
      while st.phase.written < |st.phase.text|
        invariant Valid() && start == old(start) && old(events) <= events
        invariant Live(st) == old(Live(st)) && st.log == old(st.log) && st.liveIdx == old(st.liveIdx)
        invariant st.phase.Writing? && st.phase.text == old(st.phase.text) && st.phase.edit == old(st.phase.edit)
        decreases |old(st.phase.text)| - st.phase.written
      {
        failed := *;
        if failed { Do(Abort); return false; }
        var count :| 0 < count <= |st.phase.text| - st.phase.written;
        Do(Write(count));
      }
      failed := *;
      if failed { Do(Abort); return false; }
      Do(Sync);
      return true;
    }

    /** `patch_config_file`. A patch that stops before writing leaves the file system as it is; one
        that fails later leaves the document as it is; a successful one leaves exactly the patched
        document and no temporary file, even when the directory sync fails. */
    method PatchConfigFile(edit: Edit, spare: nat) returns (ok: bool)
      requires Valid() && st.phase == Idle && spare !in st.inodes
      modifies this
      ensures Valid() && st.phase == Idle && start == old(start) && old(events) <= events
      ensures var text := PatchText(setup.codec, old(Live(st)), edit);
              && (text == None ==> !ok && st == old(st))
              && (ok ==> text.Some? && Live(st) == text && st.live.tmp == None
                         && st.log == old(st.log) + [Version(text, old(st.liveIdx), edit)])
      ensures !ok ==> Live(st) == old(Live(st)) && st.log == old(st.log)
      // a file that is no table is never touched
      ensures Malformed(setup.codec, old(Live(st))) ==> !ok && st == old(st)
      // success means: read, edited, rendered, in place, and the directory synced if it could be
      ensures ok ==> Live(st).Some?
                     && exists before, after :: Patched(setup.codec, old(Live(st)), edit, before, after, Live(st).value)
      ensures ok ==> events != [] && events[|events| - 1].SyncDir?
      ensures ok && events[|events| - 1] == SyncDir(true) ==> Recovered(st) == Live(st) && st.synced == st.liveIdx
    {
      hide Run, Chained, PatchText, Malformed, Patched;
      if Malformed(setup.codec, Live(st)) {
        MalformedRefused(setup.codec, Live(st), edit);
      }
      if PatchText(setup.codec, Live(st), edit).Some? {
        PatchTextIff(setup.codec, Live(st), edit, PatchText(setup.codec, Live(st), edit).value);
      }
      Do(Begin(edit));
      if st.phase == Idle { return false; }
      ok := WriteSynced(spare);
      if !ok { return; }
      var failed: bool := *;
      if failed { Do(Abort); return false; }
      Do(Rename);
      var synced: bool := *;
      Do(SyncDir(synced));
      return true;
    }
  }
}
