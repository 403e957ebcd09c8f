/** The Repos class of repolist.rb: one Subversion repository on disk, the
    operation log of a request, the memoised svnlook queries, and the creation
    workflow that provisions a new repository in a scratch directory and
    publishes it. */
module Repository {
  import opened Results
  import opened Text
  import opened Seqs
  import opened Shell

  /** The part of the server's file system the core touches: what exists, which
      entries are directories, and the lines of the shared authz file. */
  class FileSystem {
    var dirs: set<string>
    var files: set<string>
    var authz: seq<string>

    constructor (dirs: set<string>, files: set<string>, authz: seq<string>)
      ensures this.dirs == dirs && this.files == files && this.authz == authz
    {
      this.dirs := dirs;
      this.files := files;
      this.authz := authz;
    }

    /** File.exist? */
    predicate Exists(p: string)
      reads this
    {
      p in dirs || p in files
    }
  }

  function ScratchRepos(tmp: string): string {
    PathJoin(tmp, "repos")
  }

  function ScratchWorkingCopy(tmp: string): string {
    PathJoin(tmp, "working-copy")
  }

  /** The checked commands `save` runs in the scratch directory `tmp`: create the store, check it out. */
  function ScratchCommands(bin: string, tmp: string): seq<string> {
    [ SvnadminLine(bin, "create " + ScratchRepos(tmp)),
      SvnLine(bin, "checkout file://" + ScratchRepos(tmp) + " " + ScratchWorkingCopy(tmp)) ]
  }

  /** The checked commands `save` runs inside the working copy: add the layout, commit it. */
  function WorkingCopyCommands(bin: string): seq<string> {
    [ SvnLine(bin, "add trunk tags branches README.txt"),
      SvnLine(bin, "commit . -m 'initial commit'") ]
  }

  /** Every checked command `save` runs, in order. */
  function CreationCommands(bin: string, tmp: string): seq<string> {
    ScratchCommands(bin, tmp) + WorkingCopyCommands(bin)
  }

  /** What `save` logs once every command has succeeded. */
  function PublishEntries(tmp: string, dir: string): seq<string> {
    ["mv " + ScratchRepos(tmp) + " " + dir, "append to authz"]
  }

  /** The stanza `save` appends to the authz file: a blank line, the section, the grant. */
  function AuthzStanza(name: string, user: string): seq<string> {
    ["", "[" + name + ":/]", user + " = rw"]
  }

  /** `date && DateTime.parse(date)` on the outcome of `svnlook date`: nil when
      svnlook fails, the parsed date otherwise, an error when it cannot be parsed. */
  function DateFrom(o: Outcome, parse: string -> Option<int>): (r: Result<Option<int>>)
    ensures r == Ok(None) <==> !o.ok
    ensures r.Err? ==> r.error == InvalidDate(Strip(o.output))
  {
    if !o.ok then Ok(None)
    else match parse(Strip(o.output))
      case None => Err(InvalidDate(Strip(o.output)))
      case Some(d) => Ok(Some(d))
  }

  /** `svnlook` on the outcome of its command line: the stripped output, or nil on failure. */
  function LookFrom(o: Outcome): (r: Option<string>)
    ensures r.Some? <==> o.ok
  {
    if o.ok then Some(Strip(o.output)) else None
  }

  class Repos {
    const dir: string   // `path`
    const name: string
    const host: Host
    var log: Option<seq<string>>         // @log; None while undefined
    var memoDate: Option<int>            // @date
    var memoRevision: Option<string>     // @revision
    var memoReadme: Option<string>       // @readme
    var memoTrunk: Option<string>        // @trunk

    /** No log, and nothing memoised but perhaps the date. */
    predicate Quiet()
      reads this
    {
      log.None? && memoRevision.None? && memoReadme.None? && memoTrunk.None?
    }

    /** A freshly built object: no log, nothing memoised. */
    predicate Pristine()
      reads this
    {
      Quiet() && memoDate.None?
    }

    constructor (dir: string, host: Host)
      requires !HasSpace(dir)
      ensures this.dir == dir && name == Basename(dir) && this.host == host
      ensures Pristine()
    {
      this.dir := dir;
      name := Basename(dir);
      this.host := host;
      log, memoDate, memoRevision, memoReadme, memoTrunk := None, None, None, None, None;
    }

    /** Repos.new: raises ArgumentError when the path holds whitespace. */
    static method New(dir: string, host: Host) returns (r: Result<Repos>)
      ensures r.Err? <==> HasSpace(dir)
      ensures r.Err? ==> r.error == InvalidDir(dir)
      ensures r.Ok? ==> fresh(r.value) && r.value.dir == dir && r.value.name == Basename(dir)
      ensures r.Ok? ==> r.value.host == host && r.value.Pristine()
    {
      if FirstSpace(dir).Some? {
        return Err(InvalidDir(dir));
      }
      var repos := new Repos(dir, host);
      return Ok(repos);
    }

    /** enable_log: creates an empty log, keeping one that already exists. */
    method EnableLog()
      modifies this`log
      ensures log == if old(log).Some? then old(log) else Some([])
    {
      if log.None? {
        log := Some([]);
      }
    }

    /** get_log: the entries joined by line feeds; NoMethodError (None) before enable_log. */
    function GetLog(): (text: Option<string>)
      reads this
      ensures text.Some? <==> log.Some?
      ensures text.Some? && log.value != [] && (forall i :: 0 <= i < |log.value| ==> SingleLine(log.value[i]))
        ==> SplitLines(text.value) == log.value
    {
      match log
      case None => None
      case Some(entries) =>
        LogRoundTrip(entries);
        Some(JoinLines(entries))
    }

    /** log: appends one entry when the log exists. */
    method Log(msg: string)
      modifies this`log
      ensures log == Appended(old(log), [msg])
    {
      if log.Some? {
        log := Some(log.value + [msg]);
      }
    }

    /** command: runs `cmd`, logging the command line, the status and the stripped output. */
    method Command(cmd: string) returns (ok: bool, result: string)
      modifies this`log, host
      ensures host.history == old(host.history) + [cmd]
      ensures var o := host.world(old(host.history), cmd);
        && ok == o.ok
        && result == Strip(o.output)
        && log == Appended(old(log), CommandEntries(cmd, o))
    {
      ghost var log0 := log;
      Log("-- " + cmd);
      var o := host.world(host.history, cmd);
      host.history := host.history + [cmd];
      ok := o.ok;
      result := Strip(o.output);
      Log("== $?: " + o.status);
      Log(result);
      AppendedTwice(log0, ["-- " + cmd], ["== $?: " + o.status]);
      AppendedTwice(log0, ["-- " + cmd] + ["== $?: " + o.status], [result]);
      assert ["-- " + cmd] + ["== $?: " + o.status] + [result] == CommandEntries(cmd, o);
    }

    /** svn: runs an svn subcommand; raises with its output when it fails. */
    method Svn(arg: string) returns (r: Result<string>)
      modifies this`log, host
      ensures var c := SvnLine(host.svnBinaryDir, arg);
        var o := host.world(old(host.history), c);
        && host.history == old(host.history) + [c]
        && log == Appended(old(log), CommandEntries(c, o))
        && r == (if o.ok then Ok(Strip(o.output)) else Err(CommandFailed(Strip(o.output))))
    {
      var ok, result := Command(SvnLine(host.svnBinaryDir, arg));
      if !ok {
        return Err(CommandFailed(result));
      }
      return Ok(result);
    }

    /** svnadmin: runs an svnadmin subcommand; raises with its output when it fails. */
    method Svnadmin(arg: string) returns (r: Result<string>)
      modifies this`log, host
      ensures var c := SvnadminLine(host.svnBinaryDir, arg);
        var o := host.world(old(host.history), c);
        && host.history == old(host.history) + [c]
        && log == Appended(old(log), CommandEntries(c, o))
        && r == (if o.ok then Ok(Strip(o.output)) else Err(CommandFailed(Strip(o.output))))
    {
      var ok, result := Command(SvnadminLine(host.svnBinaryDir, arg));
      if !ok {
        return Err(CommandFailed(result));
      }
      return Ok(result);
    }

    /** svnlook: runs an svnlook subcommand on this repository; nil when it fails. */
    method Svnlook(sub: string, arg: string) returns (r: Option<string>)
      modifies this`log, host
      ensures var c := SvnlookLine(host.svnBinaryDir, sub, dir, arg);
        var o := host.world(old(host.history), c);
        && host.history == old(host.history) + [c]
        && log == Appended(old(log), CommandEntries(c, o))
        && r == LookFrom(o)
    {
      var ok, result := Command(SvnlookLine(host.svnBinaryDir, sub, dir, arg));
      r := if ok then Some(result) else None;
    }

    /** exist?: whether `svnlook history --limit 1 <path>` succeeds. */
    method Exist(path: string) returns (b: bool)
      modifies this`log, host
      ensures var c := SvnlookLine(host.svnBinaryDir, "history", dir, "--limit 1 " + path);
        var o := host.world(old(host.history), c);
        && host.history == old(host.history) + [c]
        && log == Appended(old(log), CommandEntries(c, o))
        && b == o.ok
    {
      var r := Svnlook("history", "--limit 1 " + path);
      b := r.Some?;
    }

    /** date: memoised with `||=`, so only a non-nil date is kept and a nil one is queried again. */
    method Date() returns (r: Result<Option<int>>)
      modifies this`memoDate, this`log, host
      ensures old(memoDate).Some? ==>
        r == Ok(old(memoDate)) && memoDate == old(memoDate) && log == old(log) && host.history == old(host.history)
      ensures old(memoDate).None? ==>
        var c := SvnlookLine(host.svnBinaryDir, "date", dir, "");
        var o := host.world(old(host.history), c);
        && host.history == old(host.history) + [c]
        && log == Appended(old(log), CommandEntries(c, o))
        && r == DateFrom(o, host.parseDate)
        && memoDate == (if r.Ok? then r.value else None)
    {
      if memoDate.Some? {
        return Ok(memoDate);
      }
      var text := Svnlook("date", "");
      if text.None? {
        r := Ok(None);
      } else {
        var d := host.parseDate(text.value);
        if d.None? {
          return Err(InvalidDate(text.value));
        }
        r := Ok(d);
      }
      memoDate := r.value;
    }

    /** revision: `svnlook youngest`, memoised when non-nil. */
    method Revision() returns (r: Option<string>)
      modifies this`memoRevision, this`log, host
      ensures old(memoRevision).Some? ==>
        r == old(memoRevision) && memoRevision == old(memoRevision) && log == old(log) && host.history == old(host.history)
      ensures old(memoRevision).None? ==>
        var c := SvnlookLine(host.svnBinaryDir, "youngest", dir, "");
        var o := host.world(old(host.history), c);
        && host.history == old(host.history) + [c]
        && log == Appended(old(log), CommandEntries(c, o))
        && r == LookFrom(o)
        && memoRevision == r
    {
      if memoRevision.Some? {
        return memoRevision;
      }
      r := Svnlook("youngest", "");
      memoRevision := r;
    }

    /** readme: `svnlook cat README.txt`, memoised when non-nil. */
    method Readme() returns (r: Option<string>)
      modifies this`memoReadme, this`log, host
      ensures old(memoReadme).Some? ==>
        r == old(memoReadme) && memoReadme == old(memoReadme) && log == old(log) && host.history == old(host.history)
      ensures old(memoReadme).None? ==>
        var c := SvnlookLine(host.svnBinaryDir, "cat", dir, "README.txt");
        var o := host.world(old(host.history), c);
        && host.history == old(host.history) + [c]
        && log == Appended(old(log), CommandEntries(c, o))
        && r == LookFrom(o)
        && memoReadme == r
    {
      if memoReadme.Some? {
        return memoReadme;
      }
      r := Svnlook("cat", "README.txt");
      memoReadme := r;
    }

    /** trunk_path: "<name>/trunk/" when /trunk/ has history, "<name>/" otherwise;
        never nil, so computed at most once. */
    method TrunkPath() returns (p: string)
      modifies this`memoTrunk, this`log, host
      ensures memoTrunk == Some(p)
      ensures old(memoTrunk).Some? ==>
        p == old(memoTrunk).value && log == old(log) && host.history == old(host.history)
      ensures old(memoTrunk).None? ==>
        var c := SvnlookLine(host.svnBinaryDir, "history", dir, "--limit 1 /trunk/");
        var o := host.world(old(host.history), c);
        && host.history == old(host.history) + [c]
        && log == Appended(old(log), CommandEntries(c, o))
        && p == (if o.ok then name + "/trunk/" else name + "/")
    {
      if memoTrunk.Some? {
        return memoTrunk.value;
      }
      assert "--limit 1 " + "/trunk/" == "--limit 1 /trunk/";
      var hasTrunk := Exist("/trunk/");
      p := if hasTrunk then name + "/trunk/" else name + "/";
      memoTrunk := Some(p);
    }

    /** save: refuses an existing target before running anything; otherwise
        provisions the repository in the scratch directory `tmp`, stopping at the
        first failing command, then moves it to the target and grants `user`
        read-write access in the authz file. */
    method Save(desc: string, fs: FileSystem, user: string, tmp: string) returns (r: Result<()>)
      modifies this`log, host, fs
      ensures old(fs.Exists(dir)) ==>
        && r == Err(AlreadyExists("repos " + name + " exists"))
        && host.history == old(host.history) && log == old(log)
        && fs.dirs == old(fs.dirs) && fs.files == old(fs.files) && fs.authz == old(fs.authz)
      ensures !old(fs.Exists(dir)) ==>
        var t := Replay(host.world, old(host.history), CreationCommands(host.svnBinaryDir, tmp));
        && host.history == old(host.history) + t.issued
        && fs.files == old(fs.files)
        && (t.failure.Some? ==>
              && r == Err(CommandFailed(t.failure.value))
              && log == Appended(old(log), t.entries)
              && fs.dirs == old(fs.dirs) && fs.authz == old(fs.authz))
        && (t.failure.None? ==>
              && r == Ok(())
              && log == Appended(old(log), t.entries + PublishEntries(tmp, dir))
              && fs.dirs == old(fs.dirs) + {dir}
              && fs.authz == old(fs.authz) + AuthzStanza(name, user))
    {
      if fs.Exists(dir) {
        return Err(AlreadyExists("repos " + name + " exists"));
      }
      ghost var log0 := log;
      ghost var t := Replay(host.world, host.history, CreationCommands(host.svnBinaryDir, tmp));
      // Dir.mktmpdir: the scratch directory and all it holds are local to this call,
      // and gone on every way out of it.
      r := Provision(desc, tmp);
      if r.Err? {
        return;
      }
      var repos := ScratchRepos(tmp);
      Log("mv " + repos + " " + dir);
      fs.dirs := fs.dirs + {dir};
      Log("append to authz");
      fs.authz := fs.authz + AuthzStanza(name, user);
      AppendedTwice(log0, t.entries, ["mv " + repos + " " + dir]);
      AppendedTwice(log0, t.entries + ["mv " + repos + " " + dir], ["append to authz"]);
      assert t.entries + ["mv " + repos + " " + dir] + ["append to authz"] == t.entries + PublishEntries(tmp, dir);
    }

    /** The commands `save` runs inside the scratch directory `tmp`: create the
        store, check it out, lay out the working copy, add and commit; the first
        command that fails raises and ends the run. */
    method Provision(desc: string, tmp: string) returns (r: Result<()>)
      modifies this`log, host
      ensures var t := Replay(host.world, old(host.history), CreationCommands(host.svnBinaryDir, tmp));
        && host.history == old(host.history) + t.issued
        && log == Appended(old(log), t.entries)
        && r == (if t.failure.Some? then Err(CommandFailed(t.failure.value)) else Ok(()))
    {
      ghost var w, h0, log0 := host.world, host.history, log;
      ghost var first := ScratchCommands(host.svnBinaryDir, tmp);
      ghost var second := WorkingCopyCommands(host.svnBinaryDir);
      ghost var t1 := Replay(w, h0, first);
      assert CreationCommands(host.svnBinaryDir, tmp) == first + second;
      r := SetUpScratch(tmp);
      if r.Err? {
        ReplayConcatFails(w, h0, first, second);
        return;
      }
      ReplayCompletes(w, h0, first);
      ReplayConcatSucceeds(w, h0, first, second);
      ghost var log1 := log;
      ghost var t2 := Replay(w, h0 + first, second);
      r := BuildWorkingCopy(desc);
      assert host.history == h0 + (first + t2.issued) by {
        ConcatAssoc(h0, first, t2.issued);
      }
      assert log == Appended(log0, t1.entries + t2.entries) by {
        AppendedTwice(log0, t1.entries, t2.entries);
      }
    }

    /** `svnadmin create` of the store, then `svn checkout` of it into the working copy. */
    method SetUpScratch(tmp: string) returns (r: Result<()>)
      modifies this`log, host
      ensures var t := Replay(host.world, old(host.history), ScratchCommands(host.svnBinaryDir, tmp));
        && host.history == old(host.history) + t.issued
        && log == Appended(old(log), t.entries)
        && r == (if t.failure.Some? then Err(CommandFailed(t.failure.value)) else Ok(()))
    {
      ghost var w, h0, log0 := host.world, host.history, log;
      var repos := ScratchRepos(tmp);
      ReplayPair(w, h0, SvnadminLine(host.svnBinaryDir, "create " + repos),
        SvnLine(host.svnBinaryDir, "checkout file://" + repos + " " + ScratchWorkingCopy(tmp)));
      var res := Svnadmin("create " + repos);
      if res.Err? {
        return Err(res.error);
      }
      ghost var log1 := log;
      res := Svn("checkout file://" + repos + " " + ScratchWorkingCopy(tmp));
      AppendedTwice(log0, CommandEntries(SvnadminLine(host.svnBinaryDir, "create " + repos), w(h0, SvnadminLine(host.svnBinaryDir, "create " + repos))),
        CommandEntries(SvnLine(host.svnBinaryDir, "checkout file://" + repos + " " + ScratchWorkingCopy(tmp)), host.world(h0 + [SvnadminLine(host.svnBinaryDir, "create " + repos)], SvnLine(host.svnBinaryDir, "checkout file://" + repos + " " + ScratchWorkingCopy(tmp)))));
      r := if res.Err? then Err(res.error) else Ok(());
    }

    /** Dir.chdir into the working copy: lay it out, `svn add` it, `svn commit` it.
        Making trunk, tags and branches and writing `desc` to README.txt change
        only the scratch working copy, a fresh checkout of an empty store that
        holds none of them; the model treats them as steps that cannot fail and
        leaves them out of the state. */
    method BuildWorkingCopy(desc: string) returns (r: Result<()>)
      modifies this`log, host
      ensures var t := Replay(host.world, old(host.history), WorkingCopyCommands(host.svnBinaryDir));
        && host.history == old(host.history) + t.issued
        && log == Appended(old(log), t.entries)
        && r == (if t.failure.Some? then Err(CommandFailed(t.failure.value)) else Ok(()))
    {
      ghost var w, h0, log0 := host.world, host.history, log;
      ghost var add := SvnLine(host.svnBinaryDir, "add trunk tags branches README.txt");
      ghost var commit := SvnLine(host.svnBinaryDir, "commit . -m 'initial commit'");
      ReplayPair(w, h0, add, commit);
      var res := Svn("add trunk tags branches README.txt");
      if res.Err? {
        return Err(res.error);
      }
      res := Svn("commit . -m 'initial commit'");
      AppendedTwice(log0, CommandEntries(add, w(h0, add)), CommandEntries(commit, w(h0 + [add], commit)));
      r := if res.Err? then Err(res.error) else Ok(());
    }

    /** Repos.create: builds the repository object, enables its log, saves it, and
        returns the whole log joined by line feeds. */
    static method Create(dir: string, desc: string, host: Host, fs: FileSystem, user: string, tmp: string)
      returns (r: Result<string>)
      modifies host, fs
      ensures HasSpace(dir) ==>
        r == Err(InvalidDir(dir)) && host.history == old(host.history)
        && fs.dirs == old(fs.dirs) && fs.files == old(fs.files) && fs.authz == old(fs.authz)
      ensures !HasSpace(dir) && old(fs.Exists(dir)) ==>
        r == Err(AlreadyExists("repos " + Basename(dir) + " exists")) && host.history == old(host.history)
        && fs.dirs == old(fs.dirs) && fs.files == old(fs.files) && fs.authz == old(fs.authz)
      ensures !HasSpace(dir) && !old(fs.Exists(dir)) ==>
        var t := Replay(host.world, old(host.history), CreationCommands(host.svnBinaryDir, tmp));
        && host.history == old(host.history) + t.issued
        && fs.files == old(fs.files)
        && (t.failure.Some? ==>
              r == Err(CommandFailed(t.failure.value)) && fs.dirs == old(fs.dirs) && fs.authz == old(fs.authz))
        && (t.failure.None? ==>
              && r == Ok(JoinLines(t.entries + PublishEntries(tmp, dir)))
              && fs.dirs == old(fs.dirs) + {dir}
              && fs.authz == old(fs.authz) + AuthzStanza(Basename(dir), user))
    {
      var made := New(dir, host);
      if made.Err? {
        return Err(made.error);
      }
      var repos := made.value;
      ghost var t := Replay(host.world, host.history, CreationCommands(host.svnBinaryDir, tmp));
      repos.EnableLog();
      var saved := repos.Save(desc, fs, user, tmp);
      if saved.Err? {
        return Err(saved.error);
      }
      assert [] + (t.entries + PublishEntries(tmp, dir)) == t.entries + PublishEntries(tmp, dir);
      assert repos.log == Some(t.entries + PublishEntries(tmp, dir));
      var text := repos.GetLog();
      assert text == Some(JoinLines(t.entries + PublishEntries(tmp, dir)));
      return Ok(text.value);
    }
  }

  /** Asking a repository for its date twice: once the first answer is a date,
      the second is the same and runs no command. */
  method QueryDateTwice(repos: Repos) returns (first: Result<Option<int>>, second: Result<Option<int>>)
    modifies repos`memoDate, repos`log, repos.host
    ensures first.Ok? && first.value.Some? ==>
      && second == first
      && repos.host.history == old(repos.host.history) +
           (if old(repos.memoDate).None? then [SvnlookLine(repos.host.svnBinaryDir, "date", repos.dir, "")] else [])
  {
    first := repos.Date();
    second := repos.Date();
  }
}
