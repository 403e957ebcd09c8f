/** The `post '/create/?'` route of repolist.rb: the checks on the request
    parameters, then Repos.create under the root, then the page showing the log. */
module Route {
  import opened Results
  import opened Text
  import opened Shell
  import opened Repository

  /** `set :root`: where the repositories live. */
  const Root: string := "/var/svn-repositories"

  /** What the parameter checks decide: the text the route answers with, or the
      stripped name and description it goes on with. */
  datatype Admission = Refused(message: string) | Admitted(name: string, desc: string)

  /** What the route answers: the create page with the name and the log, a bare
      message, or an exception that escapes the route. */
  datatype Response = Page(name: string, log: string) | Message(text: string) | Raised(error: Error)

  /** `name = request['name'] or break 'no name'`, the same for `desc`, both
      stripped, then `break 'invalid name' unless name =~ /\A[a-z\d-]+\z/`. */
  function Admit(name: Option<string>, desc: Option<string>): (r: Admission)
    ensures name.None? ==> r == Refused("no name")
    ensures name.Some? && desc.None? ==> r == Refused("no desc")
    ensures name.Some? && desc.Some? && !MatchesName(Strip(name.value)) ==> r == Refused("invalid name")
    ensures r.Admitted? <==> name.Some? && desc.Some? && MatchesName(Strip(name.value))
    ensures r.Admitted? ==> r.name == Strip(name.value) && r.desc == Strip(desc.value)
  {
    match name
    case None => Refused("no name")
    case Some(n) =>
      match desc
      case None => Refused("no desc")
      case Some(d) =>
        var n' := Strip(n);
        if MatchesName(n') then Admitted(n', Strip(d)) else Refused("invalid name")
  }

  /** An admitted name is a single path segment that needs no further stripping,
      so the target directory is the root plus that name: Repos.new accepts it and
      its basename, the section written to the authz file, is the requested name. */
  lemma AdmittedNameIsSafe(name: Option<string>, desc: Option<string>)
    requires Admit(name, desc).Admitted?
    ensures var n := Admit(name, desc).name;
      && Strip(n) == n
      && !HasSpace(PathJoin(Root, n))
      && Basename(PathJoin(Root, n)) == n
  {
    var n := Admit(name, desc).name;
    StripKeepsName(n);
    RootHasNoSpace();
    JoinedNameHasNoSpace(Root, n);
    BasenameOfJoin(Root, n);
  }

  /** Repos.new accepts the root itself: it holds no whitespace. */
  lemma RootHasNoSpace()
    ensures !HasSpace(Root)
  {
    // Read off a few characters at a time: each piece is a short literal the
    // verifier checks on its own, where the whole root at once is too costly.
    var parts := ["/var", "/svn", "-rep", "osit", "orie", "s"];
    assert Root == parts[0] + parts[1] + parts[2] + parts[3] + parts[4] + parts[5];
    assert forall j :: 0 <= j < |Root| ==> !IsSpace(Root[j]);
  }

  /** post '/create/?': admits the request, creates the repository under the
      root on behalf of `user` (REMOTE_USER, "" when unset), and answers with the
      page holding the log. The creation never fails on the path itself. */
  method PostCreate(name: Option<string>, desc: Option<string>, host: Host, fs: FileSystem, user: string, tmp: string)
    returns (resp: Response)
    modifies host, fs
    ensures Admit(name, desc).Refused? ==>
      && resp == Message(Admit(name, desc).message)
      && host.history == old(host.history)
      && fs.dirs == old(fs.dirs) && fs.files == old(fs.files) && fs.authz == old(fs.authz)
    ensures Admit(name, desc).Admitted? ==>
      var n := Admit(name, desc).name;
      var dir := PathJoin(Root, n);
      var t := Replay(host.world, old(host.history), CreationCommands(host.svnBinaryDir, tmp));
      && (old(fs.Exists(dir)) ==>
            && resp == Raised(AlreadyExists("repos " + n + " exists"))
            && host.history == old(host.history)
            && fs.dirs == old(fs.dirs) && fs.files == old(fs.files) && fs.authz == old(fs.authz))
      && (!old(fs.Exists(dir)) ==>
            && host.history == old(host.history) + t.issued
            && fs.files == old(fs.files)
            && (t.failure.Some? ==>
                  resp == Raised(CommandFailed(t.failure.value)) && fs.dirs == old(fs.dirs) && fs.authz == old(fs.authz))
            && (t.failure.None? ==>
                  && resp == Page(n, JoinLines(t.entries + PublishEntries(tmp, dir)))
                  && fs.dirs == old(fs.dirs) + {dir}
                  && fs.authz == old(fs.authz) + AuthzStanza(n, user)))
  {
    var admission := Admit(name, desc);
    if admission.Refused? {
      return Message(admission.message);
    }
    AdmittedNameIsSafe(name, desc);
    var dir := PathJoin(Root, admission.name);
    var log := Repos.Create(dir, admission.desc, host, fs, user, tmp);
    if log.Err? {
      return Raised(log.error);
    }
    return Page(admission.name, log.value);
  }
}
