/** Writing a completion file through a temporary one in the same directory: what other processes
    can see at any moment, and what is left when the writer fails or is killed. */
module CompletionWrite {
  import opened Options
  import Decimal

  datatype File = File(content: string, mode: nat)

  type Files = map<string, File>

  const ATTEMPTS := 16
  const DEFAULT_MODE := 0x1a4

  function TempName(name: string, pid: nat, suffix: nat): string {
    "." + name + ".tmp." + Decimal.Print(pid) + "." + Decimal.Print(suffix)
  }

  /** A temporary name is never the target, and different counter values give different names. */
  lemma TempNames(name: string, pid: nat, i: nat, j: nat)
    ensures TempName(name, pid, i) != name
    ensures TempName(name, pid, i) == TempName(name, pid, j) ==> i == j
  {
    var head := "." + name + ".tmp." + Decimal.Print(pid) + ".";
    assert |TempName(name, pid, i)| > |name|;
    assert TempName(name, pid, i)[|head|..] == Decimal.Print(i) && TempName(name, pid, j)[|head|..] == Decimal.Print(j);
    Decimal.ValuePrint(i);
    Decimal.ValuePrint(j);
  }

  ghost predicate IsTemp(name: string, pid: nat, k: string) {
    exists i: nat :: k == TempName(name, pid, i)
  }

  /** What an onlooker may see while `name` is being replaced by `final`: the target whole, old or
      new, the other files as they were, and possibly a temporary file that was not there before. */
  ghost predicate Seen(before: Files, name: string, pid: nat, final: File, now: Files) {
    && (forall k :: k in before && k != name ==> k in now && now[k] == before[k])
    && (forall k :: k in now && k !in before && k != name ==> IsTemp(name, pid, k))
    && ((name in now && now[name] == final) || Same(before, now, name))
  }

  /** The new target: the new content under the permissions the old one had. */
  function Replacement(before: Files, name: string, body: string): File {
    File(body, if name in before then before[name].mode else DEFAULT_MODE)
  }

  predicate Same(before: Files, now: Files, k: string) {
    (k in now <==> k in before) && (k in now ==> now[k] == before[k])
  }

  ghost predicate AllSeen(before: Files, name: string, pid: nat, final: File, states: seq<Files>) {
    forall i :: 0 <= i < |states| ==> Seen(before, name, pid, final, states[i])
  }

  lemma SeenTemp(before: Files, name: string, pid: nat, final: File, suffix: nat, file: File)
    requires TempName(name, pid, suffix) !in before
    ensures var temp := TempName(name, pid, suffix);
            && temp != name
            && Seen(before, name, pid, final, before[temp := file]) && Seen(before, name, pid, final, before)
            && before[temp := file] - {temp} == before
  {
    TempNames(name, pid, suffix, suffix);
    assert IsTemp(name, pid, TempName(name, pid, suffix));
    hide TempName;
  }

  lemma AllSeenNext(before: Files, name: string, pid: nat, final: File, states: seq<Files>, now: Files)
    requires AllSeen(before, name, pid, final, states) && Seen(before, name, pid, final, now)
    ensures AllSeen(before, name, pid, final, states + [now])
  {
    hide Seen;
  }

  lemma SeenFinal(before: Files, name: string, pid: nat, final: File)
    ensures Seen(before, name, pid, final, before[name := final]) && Seen(before, name, pid, final, before)
  {
  }

  /** The same in plain terms: the target is there whenever it was before, with its old permissions,
      and holds the old content or the new. */
  ghost predicate Intact(before: Files, name: string, body: string, now: Files) {
    && (name in before ==> name in now && now[name].mode == before[name].mode)
    && (name in now ==> now[name].content == body || (name in before && now[name].content == before[name].content))
    && (name in now && name !in before ==> now[name].mode == 0x1a4)
    && (forall k :: k in before && k != name ==> k in now && now[k] == before[k])
  }

  lemma SeenIntact(before: Files, name: string, pid: nat, body: string, states: seq<Files>)
    requires AllSeen(before, name, pid, Replacement(before, name, body), states)
    ensures forall i :: 0 <= i < |states| ==> Intact(before, name, body, states[i])
  {
    hide IsTemp;
    forall i | 0 <= i < |states| ensures Intact(before, name, body, states[i]) {
      assert Seen(before, name, pid, Replacement(before, name, body), states[i]);
    }
  }

  /** One directory, the process-wide counter, and every state the directory has been in. */
  class Directory {
    var files: Files
    var counter: nat
    const pid: nat
    ghost var history: seq<Files>

    constructor (files: Files, pid: nat)
      ensures this.files == files && this.pid == pid && history == [] && counter == 0
    {
      this.files, this.pid, counter, history := files, pid, 0, [];
    }

    /** One system call. */
    method Set(now: Files)
      modifies this
      ensures files == now && counter == old(counter) && history == old(history) + [now]
    {
      files := now;
      history := history + [now];
    }

    /** Every state since `done` was one an onlooker may see while `name` is replaced in `start`. */
    ghost predicate Clean(start: Files, name: string, final: File, done: nat)
      reads `history
    {
      done <= |history| && AllSeen(start, name, pid, final, history[done..])
    }

    /** A system call that leaves an allowed state. */
    method SetSeen(now: Files, ghost start: Files, ghost name: string, ghost final: File, ghost done: nat)
      requires Clean(start, name, final, done) && Seen(start, name, pid, final, now)
      modifies this
      ensures Clean(start, name, final, done) && files == now && counter == old(counter) && old(history) <= history
    {
      hide Seen, AllSeen;
      AllSeenNext(start, name, pid, final, history[done..], now);
      assert (history + [now])[done..] == history[done..] + [now];
      Set(now);
    }

    /** Filling and adjusting the temporary file; on a failure it is taken away again, and that this
        may fail as well is ignored. */
    method FillTemp(suffix: nat, body: string, mode: Option<nat>,
                    ghost start: Files, name: string, ghost final: File, ghost done: nat)
        returns (ok: bool, ghost left: File)
      requires Clean(start, name, final, done) && files == start[TempName(name, pid, suffix) := File("", DEFAULT_MODE)]
      requires TempName(name, pid, suffix) !in start
      modifies this
      ensures counter == old(counter)
      ensures Clean(start, name, final, done) && old(history) <= history
      ensures var temp := TempName(name, pid, suffix);
              if ok then files == start[temp := File(body, if mode.Some? then mode.value else DEFAULT_MODE)]
              else files == start || files == start[temp := left]
    {
      hide TempName, Seen, AllSeen, Clean;
      var temp := TempName(name, pid, suffix);
      var n := 0;
      var failed: bool := false;
      assert body[..0] == "";
      while n < |body| && !failed
        invariant 0 <= n <= |body| && files == start[temp := File(body[..n], DEFAULT_MODE)]
        invariant Clean(start, name, final, done) && old(history) <= history && counter == old(counter)
        decreases |body| - n, !failed
      {
        failed := *;
        if !failed {
          var count :| 0 < count <= |body| - n;
          n := n + count;
          SeenTemp(start, name, pid, final, suffix, File(body[..n], DEFAULT_MODE));
          assert files[temp := File(body[..n], DEFAULT_MODE)] == start[temp := File(body[..n], DEFAULT_MODE)];
          SetSeen(files[temp := File(body[..n], DEFAULT_MODE)], start, name, final, done);
        }
      }
      if !failed && mode.Some? {
        failed := *;
        if !failed {
          assert body[..n] == body;
          SeenTemp(start, name, pid, final, suffix, File(body, mode.value));
          assert files[temp := File(body, mode.value)] == start[temp := File(body, mode.value)];
          SetSeen(files[temp := File(body, mode.value)], start, name, final, done);
        }
      }
      assert !failed ==> body[..n] == body;
      ok, left := !failed, File(body[..n], DEFAULT_MODE);
      if failed {
        Discard(suffix, left, start, name, final, done);
      }
    }

    /** Taking the temporary file away again; that this may fail is ignored. */
    method Discard(suffix: nat, ghost file: File, ghost start: Files, name: string, ghost final: File, ghost done: nat)
      requires Clean(start, name, final, done) && files == start[TempName(name, pid, suffix) := file]
      requires TempName(name, pid, suffix) !in start
      modifies this
      ensures counter == old(counter)
      ensures Clean(start, name, final, done) && old(history) <= history
      ensures files == start || files == start[TempName(name, pid, suffix) := file]
    {
      hide TempName, Seen, AllSeen, Clean;
      SeenTemp(start, name, pid, final, suffix, file);
      var removed: bool := *;
      if removed {
        SetSeen(files - {TempName(name, pid, suffix)}, start, name, final, done);
      }
    }

    /** `write_temp`: up to sixteen names are tried, in order, and an existing file is never opened. It
        gives up only when a system call fails or all sixteen names are taken. */
    method WriteTemp(name: string, body: string, mode: Option<nat>, ghost final: File, ghost done: nat)
        returns (suffix: Option<nat>, ghost failed: bool)
      requires Clean(files, name, final, done)
      modifies this
      ensures Clean(old(files), name, final, done) && old(history) <= history
      ensures Seen(old(files), name, pid, final, files)
      ensures if suffix.Some? then
                var temp := TempName(name, pid, suffix.value);
                && temp !in old(files)
                && files == old(files)[temp := File(body, if mode.Some? then mode.value else 0x1a4)]
              else Same(old(files), files, name)
      ensures old(counter) <= counter <= old(counter) + 16
      ensures suffix.Some? ==> suffix.value + 1 == counter && old(counter) < counter
      ensures suffix == None && !failed ==> counter == old(counter) + 16 && files == old(files)
      ensures forall k :: old(counter) <= k < (if suffix == None && !failed then counter else counter - 1) ==>
                TempName(name, pid, k) in old(files)
    {
      hide TempName, Seen, AllSeen, Clean;
      ghost var start := files;
      SeenFinal(start, name, pid, final);
      for tries := 0 to ATTEMPTS
        invariant files == start && history == old(history) && counter == old(counter) + tries
        invariant forall k :: old(counter) <= k < counter ==> TempName(name, pid, k) in start
      {
        var n := counter;
        counter := counter + 1;
        if TempName(name, pid, n) !in files {
          var refused: bool := *;
          if refused { return None, true; }
          SeenTemp(start, name, pid, final, n, File("", DEFAULT_MODE));
          SetSeen(files[TempName(name, pid, n) := File("", DEFAULT_MODE)], start, name, final, done);
          var ok, left := FillTemp(n, body, mode, start, name, final, done);
          if ok {
            SeenTemp(start, name, pid, final, n, files[TempName(name, pid, n)]);
            return Some(n), false;
          }
          if files != start {
            SeenTemp(start, name, pid, final, n, left);
          }
          return None, true;
        }
      }
      return None, false;
    }

    /** `write_file`: whatever fails, and wherever the process is killed, the target is whole, old or
        new; on success it has the new content and the permissions it had before. */
    method WriteFile(name: string, body: string) returns (ok: bool)
      modifies this
      ensures var final := Replacement(old(files), name, body);
              && old(history) <= history && AllSeen(old(files), name, pid, final, history[|old(history)|..])
              && Seen(old(files), name, pid, final, files)
              && (ok ==> files == old(files)[name := final])
              && (!ok ==> Same(old(files), files, name))
      ensures forall i :: |old(history)| <= i < |history| ==> Intact(old(files), name, body, history[i])
      ensures ok ==> name in files && files[name].content == body
      ensures ok && name in old(files) ==> files[name].mode == old(files[name].mode)
    {
      hide TempName, Seen, AllSeen;
      ghost var start, done := files, |history|;
      var mode := if name in files then Some(files[name].mode) else None;
      ghost var final := Replacement(files, name, body);
      SeenFinal(start, name, pid, final);
      NothingSeen(start, name, pid, final);
      assert history[done..] == [];
      var suffix, failed := WriteTemp(name, body, mode, final, done);
      if suffix == None {
        SeenIntact(start, name, pid, body, history[done..]);
        return false;
      }
      var temp := TempName(name, pid, suffix.value);
      SeenTemp(start, name, pid, final, suffix.value, final);
      var refused: bool := *;
      if refused {
        Discard(suffix.value, final, start, name, final, done);
        SeenIntact(start, name, pid, body, history[done..]);
        return false;
      }
      var moved := files[temp];
      assert (files - {temp})[name := moved] == start[name := final];
      SetSeen((files - {temp})[name := moved], start, name, final, done);
      SeenIntact(start, name, pid, body, history[done..]);
      return true;
    }
  }

  lemma NothingSeen(before: Files, name: string, pid: nat, final: File)
    ensures AllSeen(before, name, pid, final, [])
  {
  }
}
