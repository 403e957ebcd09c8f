/** The each_repos helper of repolist.rb: the listing of every repository under
    the root, newest first. */
module Catalog {
  import opened Results
  import opened Text
  import opened Seqs
  import opened Shell
  import opened Repository

  // ------------------------------------------------------------- folders

  /** `Dir.glob(File.join(root, '*'))` narrowed to the directories whose full
      path holds no '.', in glob order. */
  function Folders(globbed: seq<string>, dirs: set<string>): (r: seq<string>)
    ensures |r| <= |globbed|
    ensures forall d :: d in r <==> d in globbed && d in dirs && '.' !in d
  {
    if globbed == [] then []
    else
      var rest := Folders(globbed[1..], dirs);
      var d := globbed[0];
      if d in dirs && '.' !in d then [d] + rest else rest
  }

  /** The index of the first path Repos.new would refuse, or None. */
  function FirstWithSpace(ds: seq<string>): (r: Option<nat>)
    ensures r.Some? ==> r.value < |ds| && HasSpace(ds[r.value])
    ensures r.Some? ==> forall j :: 0 <= j < r.value ==> !HasSpace(ds[j])
    ensures r.None? <==> forall j :: 0 <= j < |ds| ==> !HasSpace(ds[j])
  {
    if ds == [] then None
    else if HasSpace(ds[0]) then Some(0)
    else match FirstWithSpace(ds[1..])
      case None => None
      case Some(k) => Some(k + 1)
  }

  // --------------------------------------------------------------- dates

  /** A repository that survived the date check: its path and its last commit date. */
  datatype Dated = Dated(dir: string, date: int)

  /** What asking each repository for its date leaves behind: the svnlook
      command lines run, and the dated repositories or the parse error. */
  datatype Survey = Survey(issued: seq<string>, result: Result<seq<Dated>>)

  function DateCommand(bin: string, dir: string): string {
    SvnlookLine(bin, "date", dir, "")
  }

  /** The `svnlook date` line for each of `dirs`, in order. */
  function DateCommands(bin: string, dirs: seq<string>): (r: seq<string>)
    ensures |r| == |dirs|
    decreases |dirs|
  {
    if dirs == [] then [] else DateCommands(bin, dirs[..|dirs| - 1]) + [DateCommand(bin, dirs[|dirs| - 1])]
  }

  /** What `date` answers for the `i`th repository, once the ones before it have been asked. */
  function AnswerAt(world: World, parse: string -> Option<int>, bin: string, history: seq<string>,
                    dirs: seq<string>, i: nat): Result<Option<int>>
    requires i < |dirs|
  {
    DateFrom(world(history + DateCommands(bin, dirs[..i]), DateCommand(bin, dirs[i])), parse)
  }

  /** `repos.reject! {|r| !r.date }` over repositories at `dirs`: each is asked
      for its date in turn; an undated one is dropped; a date that cannot be
      parsed raises and ends the walk. */
  function SurveyDates(world: World, parse: string -> Option<int>, bin: string, history: seq<string>,
                       dirs: seq<string>): (r: Survey)
    ensures |r.issued| <= |dirs|
    ensures r.result.Ok? ==> |r.issued| == |dirs| && |r.result.value| <= |dirs|
    decreases |dirs|
  {
    if dirs == [] then Survey([], Ok([]))
    else
      var prev := SurveyDates(world, parse, bin, history, dirs[..|dirs| - 1]);
      if prev.result.Err? then prev
      else
        var dir := dirs[|dirs| - 1];
        SurveyNext(prev, bin, dir, DateFrom(world(history + prev.issued, DateCommand(bin, dir)), parse))
  }

  /** One more repository asked, given the survey so far and its answer. */
  function SurveyNext(prev: Survey, bin: string, dir: string, answer: Result<Option<int>>): Survey
    requires prev.result.Ok?
  {
    var c := DateCommand(bin, dir);
    match answer
    case Err(e) => Survey(prev.issued + [c], Err(e))
    case Ok(None) => Survey(prev.issued + [c], prev.result)
    case Ok(Some(d)) => Survey(prev.issued + [c], Ok(prev.result.value + [Dated(dir, d)]))
  }

  /** The survey of the first `i + 1` repositories extends the survey of the first `i`. */
  lemma SurveyStep(world: World, parse: string -> Option<int>, bin: string, history: seq<string>,
                   dirs: seq<string>, i: nat)
    requires i < |dirs|
    requires SurveyDates(world, parse, bin, history, dirs[..i]).result.Ok?
    ensures var prev := SurveyDates(world, parse, bin, history, dirs[..i]);
      SurveyDates(world, parse, bin, history, dirs[..i + 1])
        == SurveyNext(prev, bin, dirs[i], DateFrom(world(history + prev.issued, DateCommand(bin, dirs[i])), parse))
  {
    PrefixOfPrefix(dirs, i + 1, i);
  }

  /** Once a survey has raised, asking about further repositories changes nothing. */
  lemma {:induction false} SurveyStaysFailed(world: World, parse: string -> Option<int>, bin: string,
                                             history: seq<string>, dirs: seq<string>, n: nat)
    requires n <= |dirs|
    requires SurveyDates(world, parse, bin, history, dirs[..n]).result.Err?
    ensures SurveyDates(world, parse, bin, history, dirs) == SurveyDates(world, parse, bin, history, dirs[..n])
    decreases |dirs| - n
  {
    if n == |dirs| {
      WholePrefix(dirs);
    } else {
      var init := dirs[..|dirs| - 1];
      PrefixOfPrefix(dirs, |dirs| - 1, n);
      SurveyStaysFailed(world, parse, bin, history, init, n);
    }
  }

  /** The survey runs the date queries in order and stops right after the one that raises. */
  lemma {:induction false} SurveyIssuesInOrder(world: World, parse: string -> Option<int>, bin: string,
                                               history: seq<string>, dirs: seq<string>)
    ensures var s := SurveyDates(world, parse, bin, history, dirs);
      && |s.issued| <= |dirs|
      && s.issued == DateCommands(bin, dirs[..|s.issued|])
      && (s.result.Ok? ==> |s.issued| == |dirs|)
      && (s.result.Err? ==> |s.issued| > 0)
    decreases |dirs|
  {
    if dirs != [] {
      var init := dirs[..|dirs| - 1];
      SurveyIssuesInOrder(world, parse, bin, history, init);
      var prev := SurveyDates(world, parse, bin, history, init);
      PrefixOfPrefix(dirs, |dirs| - 1, |prev.issued|);
      if prev.result.Ok? {
        WholePrefix(dirs);
        assert init == dirs[..|prev.issued|];
      }
    }
  }

  /** A survey that raises does so at the first repository whose date cannot be
      parsed, after every earlier one answered. */
  lemma {:induction false} SurveyFailsAtFirstBadDate(world: World, parse: string -> Option<int>, bin: string,
                                                     history: seq<string>, dirs: seq<string>)
    requires SurveyDates(world, parse, bin, history, dirs).result.Err?
    ensures var s := SurveyDates(world, parse, bin, history, dirs);
      var i := |s.issued| - 1;
      && 0 <= i < |dirs|
      && AnswerAt(world, parse, bin, history, dirs, i) == Err(s.result.error)
      && forall j :: 0 <= j < i ==> AnswerAt(world, parse, bin, history, dirs, j).Ok?
    decreases |dirs|
  {
    var n := |dirs| - 1;
    var init := dirs[..n];
    var prev := SurveyDates(world, parse, bin, history, init);
    if prev.result.Err? {
      SurveyFailsAtFirstBadDate(world, parse, bin, history, init);
      AnswersOnPrefix(world, parse, bin, history, dirs, n);
      assert SurveyDates(world, parse, bin, history, dirs) == prev;
      var i := |prev.issued| - 1;
      assert AnswerAt(world, parse, bin, history, dirs, i) == AnswerAt(world, parse, bin, history, init, i);
    } else {
      FailsAtLastAsked(world, parse, bin, history, dirs);
    }
  }

  /** The step of SurveyFailsAtFirstBadDate where every repository but the last
      answered and the last one raised. */
  lemma FailsAtLastAsked(world: World, parse: string -> Option<int>, bin: string,
                         history: seq<string>, dirs: seq<string>)
    requires dirs != []
    requires SurveyDates(world, parse, bin, history, dirs[..|dirs| - 1]).result.Ok?
    requires SurveyDates(world, parse, bin, history, dirs).result.Err?
    ensures var s := SurveyDates(world, parse, bin, history, dirs);
      && |s.issued| == |dirs|
      && AnswerAt(world, parse, bin, history, dirs, |dirs| - 1) == Err(s.result.error)
      && forall j :: 0 <= j < |dirs| - 1 ==> AnswerAt(world, parse, bin, history, dirs, j).Ok?
  {
    var n := |dirs| - 1;
    var init := dirs[..n];
    var prev := SurveyDates(world, parse, bin, history, init);
    SurveyOkAnswers(world, parse, bin, history, init);
    AnswersOnPrefix(world, parse, bin, history, dirs, n);
    var answer := DateFrom(world(history + prev.issued, DateCommand(bin, dirs[n])), parse);
    assert AnswerAt(world, parse, bin, history, dirs, n) == answer;
    assert SurveyDates(world, parse, bin, history, dirs) == SurveyNext(prev, bin, dirs[n], answer);
  }

  /** A survey that completes saw an answer at every repository. */
  lemma {:induction false} SurveyOkAnswers(world: World, parse: string -> Option<int>, bin: string,
                                           history: seq<string>, dirs: seq<string>)
    requires SurveyDates(world, parse, bin, history, dirs).result.Ok?
    ensures SurveyDates(world, parse, bin, history, dirs).issued == DateCommands(bin, dirs)
    ensures forall i :: 0 <= i < |dirs| ==> AnswerAt(world, parse, bin, history, dirs, i).Ok?
    decreases |dirs|
  {
    SurveyIssuesInOrder(world, parse, bin, history, dirs);
    WholePrefix(dirs);
    if dirs != [] {
      var n := |dirs| - 1;
      var init := dirs[..n];
      SurveyOkAnswers(world, parse, bin, history, init);
      AnswersOnPrefix(world, parse, bin, history, dirs, n);
    }
  }

  /** Asking the first `n` repositories gives the same answers whatever follows them. */
  lemma AnswersOnPrefix(world: World, parse: string -> Option<int>, bin: string,
                        history: seq<string>, dirs: seq<string>, n: nat)
    requires n <= |dirs|
    ensures forall j :: 0 <= j < n ==>
      AnswerAt(world, parse, bin, history, dirs, j) == AnswerAt(world, parse, bin, history, dirs[..n], j)
  {
    forall j | 0 <= j < n
      ensures AnswerAt(world, parse, bin, history, dirs, j) == AnswerAt(world, parse, bin, history, dirs[..n], j)
    {
      PrefixOfPrefix(dirs, n, j);
    }
  }

  /** A completed survey keeps every repository that answered with a date, with that date. */
  lemma {:induction false} SurveyKeepsDated(world: World, parse: string -> Option<int>, bin: string,
                                            history: seq<string>, dirs: seq<string>)
    requires SurveyDates(world, parse, bin, history, dirs).result.Ok?
    ensures forall i, d :: 0 <= i < |dirs| && AnswerAt(world, parse, bin, history, dirs, i) == Ok(Some(d)) ==>
      Dated(dirs[i], d) in SurveyDates(world, parse, bin, history, dirs).result.value
    decreases |dirs|
  {
    if dirs != [] {
      var n := |dirs| - 1;
      var init := dirs[..n];
      var prev := SurveyDates(world, parse, bin, history, init);
      var kept := SurveyDates(world, parse, bin, history, dirs).result.value;
      SurveyKeepsDated(world, parse, bin, history, init);
      SurveyOkAnswers(world, parse, bin, history, init);
      AnswersOnPrefix(world, parse, bin, history, dirs, n);
      var answer := DateFrom(world(history + prev.issued, DateCommand(bin, dirs[n])), parse);
      assert AnswerAt(world, parse, bin, history, dirs, n) == answer;
      assert kept == SurveyNext(prev, bin, dirs[n], answer).result.value;
      forall i, d | 0 <= i < |dirs| && AnswerAt(world, parse, bin, history, dirs, i) == Ok(Some(d))
        ensures Dated(dirs[i], d) in kept
      {
        if i < n {
          assert AnswerAt(world, parse, bin, history, init, i) == Ok(Some(d));
          assert Dated(dirs[i], d) in prev.result.value;
        }
      }
    }
  }

  /** Everything a completed survey keeps answered with the date it is kept with. */
  lemma {:induction false} SurveyKeepsOnlyDated(world: World, parse: string -> Option<int>, bin: string,
                                                history: seq<string>, dirs: seq<string>)
    requires SurveyDates(world, parse, bin, history, dirs).result.Ok?
    ensures var kept := SurveyDates(world, parse, bin, history, dirs).result.value;
      forall k :: 0 <= k < |kept| ==>
        exists i :: 0 <= i < |dirs| && kept[k].dir == dirs[i]
          && AnswerAt(world, parse, bin, history, dirs, i) == Ok(Some(kept[k].date))
    decreases |dirs|
  {
    if dirs != [] {
      var n := |dirs| - 1;
      var init := dirs[..n];
      SurveyKeepsOnlyDated(world, parse, bin, history, init);
      SurveyOkAnswers(world, parse, bin, history, init);
      AnswersOnPrefix(world, parse, bin, history, dirs, n);
    }
  }

  /** The repositories that answer with a date, with that date, in folder order:
      the list `reject!` leaves when no date raises. */
  function DatedAnswers(world: World, parse: string -> Option<int>, bin: string, history: seq<string>,
                        dirs: seq<string>): seq<Dated>
    decreases |dirs|
  {
    if dirs == [] then []
    else
      var n := |dirs| - 1;
      var kept := DatedAnswers(world, parse, bin, history, dirs[..n]);
      match AnswerAt(world, parse, bin, history, dirs, n)
      case Ok(Some(d)) => kept + [Dated(dirs[n], d)]
      case _ => kept
  }

  /** A completed survey keeps exactly the repositories that answer with a date,
      each once, in folder order. */
  lemma {:induction false} SurveyKeepsDatedInOrder(world: World, parse: string -> Option<int>, bin: string,
                                                   history: seq<string>, dirs: seq<string>)
    requires SurveyDates(world, parse, bin, history, dirs).result.Ok?
    ensures SurveyDates(world, parse, bin, history, dirs).result.value
      == DatedAnswers(world, parse, bin, history, dirs)
    decreases |dirs|
  {
    if dirs != [] {
      var n := |dirs| - 1;
      var init := dirs[..n];
      var prev := SurveyDates(world, parse, bin, history, init);
      assert prev.result.Ok?;
      SurveyKeepsDatedInOrder(world, parse, bin, history, init);
      SurveyOkAnswers(world, parse, bin, history, init);
      var answer := DateFrom(world(history + prev.issued, DateCommand(bin, dirs[n])), parse);
      assert AnswerAt(world, parse, bin, history, dirs, n) == answer;
    }
  }

  // ------------------------------------------------------- repository set

  /** The dated view of repositories whose date is memoised. */
  function DatedOf(rs: seq<Repos>): (r: seq<Dated>)
    reads rs
    requires forall k :: 0 <= k < |rs| ==> rs[k].memoDate.Some?
    ensures |r| == |rs|
    decreases |rs|
  {
    if rs == [] then []
    else DatedOf(rs[..|rs| - 1]) + [Dated(rs[|rs| - 1].dir, rs[|rs| - 1].memoDate.value)]
  }

  function Key(r: Repos): int
    reads r
    requires r.memoDate.Some?
  {
    r.memoDate.value
  }

  /** `sort! {|a,b| b.date <=> a.date }`'s promise: newest first. */
  predicate NewestFirst(s: seq<Repos>)
    reads s
    requires forall k :: 0 <= k < |s| ==> s[k].memoDate.Some?
  {
    forall p, q :: 0 <= p < q < |s| ==> Key(s[p]) >= Key(s[q])
  }

  /** `folders.map {|dir| Repos.new dir }`: one fresh object per folder; the
      first path with whitespace raises. */
  method Build(folders: seq<string>, host: Host) returns (r: Result<seq<Repos>>)
    ensures FirstWithSpace(folders).Some? ==> r == Err(InvalidDir(folders[FirstWithSpace(folders).value]))
    ensures FirstWithSpace(folders).None? ==> r.Ok? && |r.value| == |folders|
    ensures r.Ok? ==> forall k :: 0 <= k < |r.value| ==>
      && fresh(r.value[k]) && r.value[k].dir == folders[k] && r.value[k].name == Basename(folders[k])
      && r.value[k].host == host && r.value[k].Pristine()
    ensures r.Ok? ==> forall p, q :: 0 <= p < q < |r.value| ==> r.value[p] != r.value[q]
  {
    var built: seq<Repos> := [];
    for i := 0 to |folders|
      invariant |built| == i
      invariant forall j :: 0 <= j < i ==> !HasSpace(folders[j])
      invariant forall k :: 0 <= k < i ==>
        && fresh(built[k]) && built[k].dir == folders[k] && built[k].name == Basename(folders[k])
        && built[k].host == host && built[k].Pristine()
      invariant forall p, q :: 0 <= p < q < i ==> built[p] != built[q]
    {
      var made := Repos.New(folders[i], host);
      if made.Err? {
        return Err(made.error);
      }
      built := built + [made.value];
    }
    return Ok(built);
  }

  /** `repos.reject! {|r| !r.date }` on freshly built repositories: asks each
      for its date, in order, and keeps the dated ones. */
  method RejectUndated(rs: seq<Repos>, host: Host, ghost dirs: seq<string>) returns (r: Result<seq<Repos>>)
    requires |dirs| == |rs|
    requires forall k :: 0 <= k < |rs| ==> rs[k].dir == dirs[k] && rs[k].host == host && rs[k].Pristine()
    requires forall p, q :: 0 <= p < q < |rs| ==> rs[p] != rs[q]
    modifies rs, host
    ensures var s := SurveyDates(host.world, host.parseDate, host.svnBinaryDir, old(host.history), dirs);
      && host.history == old(host.history) + s.issued
      && (s.result.Err? ==> r == Err(s.result.error))
      && (s.result.Ok? ==>
            && r.Ok?
            && (forall k :: 0 <= k < |r.value| ==> r.value[k] in rs && r.value[k].memoDate.Some?)
            && DatedOf(r.value) == s.result.value)
    ensures forall k :: 0 <= k < |rs| ==> rs[k].Quiet()
    ensures r.Ok? ==> forall k :: 0 <= k < |r.value| ==> r.value[k].Quiet()
  {
    ghost var w, parse, bin, h0 := host.world, host.parseDate, host.svnBinaryDir, host.history;
    var kept: seq<Repos> := [];
    ghost var from: seq<int> := [];  // the index in `rs` of each kept repository
    ghost var survey := Survey([], Ok([]));
    assert dirs[..0] == [];
    for i := 0 to |rs|
      invariant Walked(rs, host, dirs, h0, i, kept, from, survey)
    {
      var date;
      date, kept, from, survey := WalkStep(rs, host, dirs, h0, i, kept, from, survey);
      if date.Err? {
        SurveyStaysFailed(w, parse, bin, h0, dirs, i + 1);
        return Err(date.error);
      }
    }
    WholePrefix(dirs);
    DatedOfEach(kept, survey.result.value);
    return Ok(kept);
  }

  /** What the walk of `reject!` has established after the first `i` repositories:
      the survey of their dates, the kept ones with their memoised dates, and
      no other memo or log on any repository. */
  ghost predicate Walked(rs: seq<Repos>, host: Host, dirs: seq<string>, h0: seq<string>, i: nat,
                         kept: seq<Repos>, from: seq<int>, survey: Survey)
    reads rs, host
  {
    && i <= |rs| == |dirs|
    && survey == SurveyDates(host.world, host.parseDate, host.svnBinaryDir, h0, dirs[..i])
    && survey.result.Ok? && host.history == h0 + survey.issued
    && |from| == |kept| == |survey.result.value|
    && (forall k :: 0 <= k < |kept| ==>
          && 0 <= from[k] < i && kept[k] == rs[from[k]]
          && kept[k].dir == survey.result.value[k].dir
          && rs[from[k]].memoDate == Some(survey.result.value[k].date))
    && (forall k :: 0 <= k < |rs| ==> rs[k].Quiet() && (i <= k ==> rs[k].memoDate.None?))
  }

  /** One step of `reject!`: asks the `i`th repository for its date, and keeps
      it when it answers with one. */
  method WalkStep(rs: seq<Repos>, host: Host, ghost dirs: seq<string>, ghost h0: seq<string>, i: nat,
                  kept: seq<Repos>, ghost from: seq<int>, ghost survey: Survey)
    returns (date: Result<Option<int>>, kept': seq<Repos>, ghost from': seq<int>, ghost survey': Survey)
    requires i < |rs| == |dirs|
    requires forall k :: 0 <= k < |rs| ==> rs[k].dir == dirs[k] && rs[k].host == host
    requires forall p, q :: 0 <= p < q < |rs| ==> rs[p] != rs[q]
    requires Walked(rs, host, dirs, h0, i, kept, from, survey)
    modifies rs[i], host
    ensures survey' == SurveyDates(host.world, host.parseDate, host.svnBinaryDir, h0, dirs[..i + 1])
    ensures host.history == h0 + survey'.issued
    ensures date.Err? ==> survey'.result == Err(date.error) && forall k :: 0 <= k < |rs| ==> rs[k].Quiet()
    ensures date.Ok? ==> Walked(rs, host, dirs, h0, i + 1, kept', from', survey')
  {
    SurveyStep(host.world, host.parseDate, host.svnBinaryDir, h0, dirs, i);
    date := rs[i].Date();
    assert rs[i].Quiet();
    survey' := SurveyNext(survey, host.svnBinaryDir, dirs[i], date);
    kept', from' := kept, from;
    if date.Ok? && date.value.Some? {
      kept' := kept + [rs[i]];
      from' := from + [i];
    }
  }

  /** The dated view of repositories is fixed by their paths and memoised dates, one by one. */
  lemma {:induction false} DatedOfEach(kept: seq<Repos>, dated: seq<Dated>)
    requires |kept| == |dated|
    requires forall k :: 0 <= k < |kept| ==> kept[k].dir == dated[k].dir && kept[k].memoDate == Some(dated[k].date)
    ensures DatedOf(kept) == dated
    decreases |kept|
  {
    if kept != [] {
      var n := |kept| - 1;
      DatedOfEach(kept[..n], dated[..n]);
      assert dated == dated[..n] + [dated[n]];
    }
  }

  /** Exchanges two entries of `a`. */
  method Swap(a: array<Repos>, i: nat, j: nat)
    requires i < a.Length && j < a.Length
    modifies a
    ensures a[..] == old(a[..])[i := old(a[j])][j := old(a[i])]
    ensures multiset(a[..]) == multiset(old(a[..]))
  {
    a[i], a[j] := a[j], a[i];
  }

  /** `repos.sort! {|a,b| b.date <=> a.date }` on repositories whose date is
      memoised: reorders `a` in place, newest first. */
  method SortNewestFirst(a: array<Repos>)
    requires forall k :: 0 <= k < a.Length ==> a[k].memoDate.Some?
    modifies a
    ensures forall k :: 0 <= k < a.Length ==> a[k].memoDate.Some?
    ensures NewestFirst(a[..])
    ensures multiset(a[..]) == multiset(old(a[..]))
  {
    var i := 0;
    while i < a.Length
      invariant 0 <= i <= a.Length
      invariant forall k :: 0 <= k < a.Length ==> a[k].memoDate.Some?
      invariant forall p, q :: 0 <= p < q < i ==> Key(a[p]) >= Key(a[q])
      invariant multiset(a[..]) == multiset(old(a[..]))
    {
      Insert(a, i);
      i := i + 1;
    }
  }

  /** Moves `a[i]` left past every newer entry, so that `a[..i + 1]` is newest first. */
  method Insert(a: array<Repos>, i: nat)
    requires i < a.Length
    requires forall k :: 0 <= k < a.Length ==> a[k].memoDate.Some?
    requires forall p, q :: 0 <= p < q < i ==> Key(a[p]) >= Key(a[q])
    modifies a
    ensures forall k :: 0 <= k < a.Length ==> a[k].memoDate.Some?
    ensures forall p, q :: 0 <= p < q <= i ==> Key(a[p]) >= Key(a[q])
    ensures multiset(a[..]) == multiset(old(a[..]))
    ensures a[i + 1..] == old(a[i + 1..])
  {
    var j := i;
    while 0 < j && Key(a[j - 1]) < Key(a[j])
      invariant 0 <= j <= i
      invariant forall k :: 0 <= k < a.Length ==> a[k].memoDate.Some?
      invariant forall p, q :: 0 <= p < q <= i && p != j && q != j ==> Key(a[p]) >= Key(a[q])
      invariant forall q :: j < q <= i ==> Key(a[j]) > Key(a[q])
      invariant multiset(a[..]) == multiset(old(a[..]))
      invariant a[i + 1..] == old(a[i + 1..])
    {
      Swap(a, j - 1, j);
      j := j - 1;
    }
  }

  /** each_repos: the repositories under the root, newest first. `globbed` is
      what `Dir.glob(File.join(root, '*'))` yields and `fs.dirs` tells which of
      those are directories. */
  method EachRepos(globbed: seq<string>, fs: FileSystem, host: Host) returns (r: Result<seq<Repos>>, ghost survivors: seq<Repos>)
    modifies host
    ensures var folders := Folders(globbed, fs.dirs);
      FirstWithSpace(folders).Some? ==>
        r == Err(InvalidDir(folders[FirstWithSpace(folders).value])) && host.history == old(host.history)
    ensures var folders := Folders(globbed, fs.dirs);
      var s := SurveyDates(host.world, host.parseDate, host.svnBinaryDir, old(host.history), folders);
      FirstWithSpace(folders).None? ==>
        && host.history == old(host.history) + s.issued
        && (s.result.Err? ==> r == Err(s.result.error))
        && (s.result.Ok? ==>
              && r.Ok?
              && (forall k :: 0 <= k < |survivors| ==>
                    fresh(survivors[k]) && survivors[k].memoDate.Some? && survivors[k].Quiet())
              && DatedOf(survivors) == s.result.value
              && multiset(r.value) == multiset(survivors)
              && (forall k :: 0 <= k < |r.value| ==> r.value[k].memoDate.Some?)
              && NewestFirst(r.value))
  {
    survivors := [];
    var folders := Folders(globbed, fs.dirs);
    var dated := DatedRepos(folders, host);
    if dated.Err? {
      return Err(dated.error), survivors;
    }
    survivors := dated.value;
    var sorted := SortedNewestFirst(dated.value);
    r := Ok(sorted);
  }

  /** `folders.map {|dir| Repos.new dir }` followed by `repos.reject! {|r| !r.date }`:
      fresh repositories for the folders, the undated ones dropped. */
  method DatedRepos(folders: seq<string>, host: Host) returns (r: Result<seq<Repos>>)
    modifies host
    ensures FirstWithSpace(folders).Some? ==>
      r == Err(InvalidDir(folders[FirstWithSpace(folders).value])) && host.history == old(host.history)
    ensures var s := SurveyDates(host.world, host.parseDate, host.svnBinaryDir, old(host.history), folders);
      FirstWithSpace(folders).None? ==>
        && host.history == old(host.history) + s.issued
        && (s.result.Err? ==> r == Err(s.result.error))
        && (s.result.Ok? ==>
              && r.Ok?
              && (forall k :: 0 <= k < |r.value| ==>
                    fresh(r.value[k]) && r.value[k].memoDate.Some? && r.value[k].Quiet())
              && DatedOf(r.value) == s.result.value)
  {
    var built := Build(folders, host);
    if built.Err? {
      return Err(built.error);
    }
    r := RejectUndated(built.value, host, folders);
  }

  /** The surviving repositories in a fresh array, sorted there newest first. */
  method SortedNewestFirst(live: seq<Repos>) returns (sorted: seq<Repos>)
    requires forall k :: 0 <= k < |live| ==> live[k].memoDate.Some?
    ensures multiset(sorted) == multiset(live)
    ensures forall k :: 0 <= k < |sorted| ==> sorted[k].memoDate.Some?
    ensures NewestFirst(sorted)
  {
    var a := new Repos[|live|](k requires 0 <= k < |live| => live[k]);
    assert a[..] == live;
    SortNewestFirst(a);
    sorted := a[..];
  }
}
