/** The names of the external commands the strategies run. The module that
    defines them in the repository (`directory_bootstrap/shared/commands.py`,
    and `COMMAND_CHROOT` in `image_bootstrap/engine.py`) is not part of this
    model; the constants carry the commands' conventional names. */
module Commands {
  const Chroot := "chroot"
  const Find := "find"
  const Gpg := "gpg"
  const Mount := "mount"
  const Sed := "sed"
  const Umount := "umount"
  const Uname := "uname"
  const Unshare := "unshare"
  const Wget := "wget"
}

/** What the strategies act on outside themselves: the command executor, the
    environment dictionaries handed to it, and the files they write. The
    executor is an abstract recorder: it logs every command line it is asked
    to run, with the environment passed along, and a fixed set of command
    lines stands for the commands that exit with a non-zero status. */
module Host {
  import opened Wrappers

  type Env = map<string, string>

  /** One thing the executor was asked to do: run `argv` (with `env`, or with
      the caller's environment when `None`), or unmount `path` through the
      repository's `try_unmounting` helper. */
  datatype Event = Exec(argv: seq<string>, env: Option<Env>) | Unmount(path: string)

  /** A recorded command makes `check_call` raise when its command line is one of `failing`. */
  predicate Fails(e: Event, failing: set<seq<string>>) {
    e.Exec? && e.argv in failing
  }

  predicate AllSucceed(events: seq<Event>, failing: set<seq<string>>) {
    forall k :: 0 <= k < |events| ==> !Fails(events[k], failing)
  }

  /** The part of `events` a sequence of `check_call`s gets through: everything
      up to and including the first command that fails, whose exception ends
      the sequence. */
  function Attempted(events: seq<Event>, failing: set<seq<string>>): seq<Event>
    decreases |events|
  {
    if events == [] then []
    else if Fails(events[0], failing) then [events[0]]
    else [events[0]] + Attempted(events[1..], failing)
  }

  lemma {:induction false} AttemptedAll(events: seq<Event>, failing: set<seq<string>>)
    requires AllSucceed(events, failing)
    ensures Attempted(events, failing) == events
    decreases |events|
  {
    if events != [] {
      AttemptedAll(events[1..], failing);
    }
  }

  /** When the commands before index `i` succeed and command `i` fails, the
      sequence gets exactly through command `i`. */
  lemma {:induction false} AttemptedUpToFailure(events: seq<Event>, i: nat, failing: set<seq<string>>)
    requires i < |events| && AllSucceed(events[..i], failing) && Fails(events[i], failing)
    ensures Attempted(events, failing) == events[..i + 1]
    decreases i
  {
    if i > 0 {
      var tail := events[1..];
      var before := tail[..i - 1];
      assert forall k :: 0 <= k < |before| ==> before[k] == events[..i][k + 1];
      assert AllSucceed(before, failing);
      assert !Fails(events[..i][0], failing);
      AttemptedUpToFailure(tail, i - 1, failing);
      assert events[..i + 1] == [events[0]] + tail[..i];
    }
  }

  /** Two sequences of commands one after the other: the second is reached
      only when every command of the first succeeds. */
  lemma {:induction false} AttemptedAppend(xs: seq<Event>, ys: seq<Event>, failing: set<seq<string>>)
    ensures Attempted(xs + ys, failing) == if AllSucceed(xs, failing) then xs + Attempted(ys, failing) else Attempted(xs, failing)
    decreases |xs|
  {
    if xs == [] {
      assert xs + ys == ys;
    } else {
      assert (xs + ys)[0] == xs[0] && (xs + ys)[1..] == xs[1..] + ys;
      AttemptedAppend(xs[1..], ys, failing);
      assert AllSucceed(xs, failing) <==> !Fails(xs[0], failing) && AllSucceed(xs[1..], failing) by {
        assert forall k :: 1 <= k < |xs| ==> xs[k] == xs[1..][k - 1];
      }
    }
  }

  lemma AllSucceedOne(e: Event, failing: set<seq<string>>)
    ensures AllSucceed([e], failing) <==> !Fails(e, failing)
  {
    assert [e][0] == e;
  }

  lemma AllSucceedAppend(xs: seq<Event>, ys: seq<Event>, failing: set<seq<string>>)
    ensures AllSucceed(xs + ys, failing) <==> AllSucceed(xs, failing) && AllSucceed(ys, failing)
  {
    assert forall k :: 0 <= k < |xs| ==> (xs + ys)[k] == xs[k];
    assert forall k :: 0 <= k < |ys| ==> (xs + ys)[|xs| + k] == ys[k];
  }

  /** The attempted part of a sequence succeeds exactly when the whole sequence does. */
  lemma {:induction false} AttemptedSucceeds(events: seq<Event>, failing: set<seq<string>>)
    ensures AllSucceed(Attempted(events, failing), failing) <==> AllSucceed(events, failing)
    decreases |events|
  {
    if events != [] {
      AttemptedSucceeds(events[1..], failing);
      AllSucceedAppend([events[0]], events[1..], failing);
      assert events == [events[0]] + events[1..];
      if !Fails(events[0], failing) {
        AllSucceedAppend([events[0]], Attempted(events[1..], failing), failing);
      } else {
        assert Attempted(events, failing)[0] == events[0];
      }
    }
  }

  class Executor {
    /** The command lines that exit with a non-zero status. */
    const failing: set<seq<string>>
    /** Everything the executor was asked to do, oldest first. */
    var log: seq<Event>

    constructor (failing: set<seq<string>>)
      ensures this.failing == failing && log == []
    {
      this.failing := failing;
      log := [];
    }

    /** `executor.check_call(argv, env=...)`: records the command and reports
        whether it succeeded; the caller raises when it did not. */
    method CheckCall(argv: seq<string>, env: Option<Env>) returns (ok: bool)
      modifies this
      ensures log == old(log) + [Exec(argv, env)]
      ensures ok == !Fails(Exec(argv, env), failing)
    {
      log := log + [Exec(argv, env)];
      ok := argv !in failing;
    }

    /** `try_unmounting(executor, path)` (from `directory_bootstrap/shared/mount.py`,
        which is not part of this model): recorded, and never raises. */
    method TryUnmounting(path: string)
      modifies this
      ensures log == old(log) + [Unmount(path)]
    {
      log := log + [Unmount(path)];
    }
  }

  /** A Python dictionary of environment variables that callers share and
      strategies may change in place. */
  class EnvMap {
    var vars: Env

    constructor (vars: Env)
      ensures this.vars == vars
    {
      this.vars := vars;
    }

    /** `env.setdefault(key, value)`. */
    method SetDefault(key: string, value: string)
      modifies this
      ensures key in old(vars) ==> vars == old(vars)
      ensures key !in old(vars) ==> vars == old(vars)[key := value]
    {
      if key !in vars {
        vars := vars[key := value];
      }
    }
  }

  /** An entry of the target tree: a regular file with its content, or a symbolic link. */
  datatype Entry = File(content: string) | Symlink(target: string)

  /** The files the strategies write, by absolute path. Directories are not modelled. */
  class FileSystem {
    var entries: map<string, Entry>

    constructor (entries: map<string, Entry>)
      ensures this.entries == entries
    {
      this.entries := entries;
    }

    /** `os.path.exists(path)`. */
    function Exists(path: string): bool
      reads this
    {
      path in entries
    }

    /** `open(path, 'w')` and writing `content`: whatever was there is replaced. */
    method WriteFile(path: string, content: string)
      modifies this
      ensures entries == old(entries)[path := File(content)]
    {
      entries := entries[path := File(content)];
    }

    /** `open(path, 'a')` and writing `text`: a missing file is created. */
    method AppendFile(path: string, text: string)
      modifies this
      ensures path in old(entries) && old(entries)[path].File? ==>
        entries == old(entries)[path := File(old(entries)[path].content + text)]
      ensures !(path in old(entries) && old(entries)[path].File?) ==>
        entries == old(entries)[path := File(text)]
    {
      if path in entries && entries[path].File? {
        entries := entries[path := File(entries[path].content + text)];
      } else {
        entries := entries[path := File(text)];
      }
    }

    /** `os.symlink(target, path)`: raises, changing nothing, when `path` exists. */
    method MakeSymlink(target: string, path: string) returns (ok: bool)
      modifies this
      ensures ok == (path !in old(entries))
      ensures ok ==> entries == old(entries)[path := Symlink(target)]
      ensures !ok ==> entries == old(entries)
    {
      ok := path !in entries;
      if ok {
        entries := entries[path := Symlink(target)];
      }
    }
  }
}
