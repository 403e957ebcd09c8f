# repolist in Dafny

repolist is a small Sinatra application that lists the Subversion repositories
kept under one root directory and creates new ones. This project models its
core, the `Repos` class of `repolist.rb`, the `each_repos` helper and the
checks of the `post '/create/?'` route, and proves what they promise:

- `Repos.new` refuses a path holding whitespace and names the repository after
  its basename.
- The operation log stays off until `enable_log`; `command` logs three entries
  per run; `get_log` is the entries joined by line feeds and can be cut back
  into them when no entry spans lines.
- `svnlook` turns a failing command into nil, while `svn` and `svnadmin` raise
  with its output.
- The `||=` memos of `date`, `revision`, `readme` and `trunk_path` keep a
  non-nil answer and ask again after a nil one.
- `save` refuses an existing target before running anything. It then runs
  `svnadmin create`, `svn checkout`, `svn add` and `svn commit` in that order
  and stops at the first failure. On success it has logged the move and the
  authz update, the target exists, and the authz file has gained a three-line
  stanza.
- `each_repos` keeps the directories whose path holds no '.', asks each one for
  its date in order, drops the undated ones, raises at the first date that
  cannot be parsed, and returns a permutation of the survivors, newest first.
- The create route refuses a missing name, a missing description and a name
  outside `[a-z0-9-]+`. An admitted name is one path segment below the root,
  and its basename is the name itself.

The machine is seen through the command lines it runs. `Shell.Host` holds the
Subversion binary directory (`settings.svn_binary_dir`), an oracle `world`
that answers each `LANG=C <cmd> 2>&1` from the command line and every command
line run before it, the date parser (`DateTime.parse`, `None` where it raises),
and the `history` of command lines run. `Shell.Replay` is the reference
definition of "run these checked commands in order, stop at the first that
fails". The methods of `Repository.Repos` are proved against it. The file
system is `Repository.FileSystem`: the existing paths, which of them are
directories, and the lines of the authz file.

Modules:

- `Results`: the error outcomes.
- `Text`: Ruby's `\s`, `String#strip`, the name pattern, `File.basename`,
  `File.join` and `Array#join("\n")`.
- `Seqs`: sequence algebra.
- `Shell`: the host and the command runner.
- `Repository`: the `Repos` class.
- `Catalog`: `each_repos`.
- `Route`: the create route.

## Model

| member | source | states |
|---|---|---|
| Text.FirstSpace | repolist.rb:27 | `dir =~ /\s/`: the index of the first whitespace character, with none before it; None exactly when the text holds none |
| Text.MatchesName | repolist.rb:171 | `/\A[a-z\d-]+\z/` matches exactly the non-empty texts of lower-case letters, digits and dashes |
| Text.NameIsPlain | repolist.rb:171-173 | a name the pattern accepts holds no whitespace and no '/' |
| Text.LeadingBlanks | repolist.rb:132 | counts the blanks `strip` removes at the front: all blanks, and the next character is not one |
| Text.TrailingBlanks | repolist.rb:132 | counts the blanks `strip` removes at the back: all blanks, and the character before them is not one |
| Text.Strip | repolist.rb:132 | `strip` is never longer than its input, and what it leaves is empty or starts and ends with a non-blank; the rows StripShape, StripIdempotent and StripKeepsName state the rest |
| Text.StripShape | repolist.rb:132 | `strip` leaves an infix of its input that starts and ends with a non-blank, and everything around it is blank |
| Text.StripIdempotent | repolist.rb:168-169 | stripping a stripped text changes nothing |
| Text.StripKeepsName | repolist.rb:168-171 | a name the pattern accepts is its own strip |
| Text.TrimTrailingSlashes | repolist.rb:30 | the longest prefix not ending in '/', with only slashes cut off |
| Text.LastSegment | repolist.rb:30 | the longest suffix without '/', preceded by '/' when shorter than the path |
| Text.Basename | repolist.rb:30 | `File.basename` is non-empty for a non-empty path and is "/" or holds no '/' |
| Text.PathJoin | repolist.rb:74-75 | `File.join(a, b)` always holds a separator, starts with `a` up to its trailing slashes and ends with `b` whole |
| Text.LastSegmentAfterSlash | repolist.rb:30 | after a trailing '/', the last segment of a plain name is that name |
| Text.JoinAfterSlash | repolist.rb:173 | `File.join(root, name)` puts a name that does not start with '/' right after a '/' |
| Text.BasenameOfJoin | repolist.rb:173 | the basename of `File.join(root, name)` is `name` for every name the route admits |
| Text.JoinedNameHasNoSpace | repolist.rb:173 | `File.join(root, name)` holds no whitespace when the root holds none |
| Text.JoinLines | repolist.rb:42 | `join("\n")` starts with the first entry; the rows SplitJoin, LogRoundTrip and JoinAppend state its round trip and how it grows |
| Text.SplitJoin | repolist.rb:41-43 | the joined log cuts back into its entries when no entry spans lines |
| Text.LogRoundTrip | repolist.rb:41-43 | the same round trip for any log, as an implication from "non-empty, no entry spans lines" |
| Text.JoinAppend | repolist.rb:140-142 | logging one more entry extends the joined text by a line feed and that entry |
| Shell.Host.constructor | repolist.rb:12 | a host with the given binary directory, oracle and date parser, on which nothing has run yet |
| Shell.AppendedTwice | repolist.rb:140-142 | appending two batches to the log is appending their concatenation, with or without a log |
| Shell.Replay | repolist.rb:110-120 | reference definition of checked commands run in order until one raises: no more run than listed, all of them when none raised, three log entries for each one run; the Replay rows below state the rest |
| Shell.ReplayConcatFails | repolist.rb:110-120 | once a command raises, nothing after it runs |
| Shell.ReplayConcatSucceeds | repolist.rb:110-120 | when every command of a first batch succeeds, the second batch runs after it, and the histories and logs concatenate |
| Shell.ReplayPair | repolist.rb:77-90 | two checked commands in a row: the first fails and the second never runs, or both run and the second decides |
| Shell.ReplayRunsPrefix | repolist.rb:110-120 | the commands run are a prefix of the list, at least one when the list is not empty |
| Shell.ReplayCompletes | repolist.rb:110-120 | there is no failure exactly when every command ran and each succeeded |
| Shell.ReplayFailsAtLast | repolist.rb:110-120 | a failure comes from the last command run: all before it succeeded, it failed, and the failure is its stripped output |
| Shell.ReplayLogsEachCommand | repolist.rb:127-138 | each command run leaves exactly three entries in order: the command line, the status, the stripped output |
| Repository.FileSystem.constructor | repolist.rb:71 | a file system holding the given paths, directories and authz lines |
| Repository.DateFrom | repolist.rb:47-48 | `date && DateTime.parse(date)`: nil exactly when `svnlook date` fails; the only error is InvalidDate carrying the stripped output |
| Repository.LookFrom | repolist.rb:122-125 | svnlook answers exactly when its command succeeds |
| Repository.Repos.constructor | repolist.rb:26-31 | for a path with no whitespace: keeps the path, names the repository after its basename, no log, nothing memoised |
| Repository.Repos.New | repolist.rb:26-31 | raises InvalidDir exactly when the path holds whitespace; otherwise a fresh, pristine object whose name is the basename |
| Repository.Repos.EnableLog | repolist.rb:37-39 | creates an empty log and keeps one that exists, so a second call changes nothing |
| Repository.Repos.GetLog | repolist.rb:41-43 | defined exactly when the log is, and cuts back into the entries when none spans lines |
| Repository.Repos.Log | repolist.rb:140-142 | appends the message when the log exists; does nothing before `enable_log` |
| Repository.Repos.Command | repolist.rb:127-138 | runs the command line once, and returns its success and stripped output; the log gains the line, the status and the output |
| Repository.Repos.Svn | repolist.rb:110-114 | runs `<bin>/svn <arg>`: the output on success, CommandFailed carrying the output on failure |
| Repository.Repos.Svnadmin | repolist.rb:116-120 | runs `<bin>/svnadmin <arg>`: the output on success, CommandFailed carrying the output on failure |
| Repository.Repos.Svnlook | repolist.rb:122-125 | runs `<bin>/svnlook <sub> <dir> <arg>`: the output on success, nil on failure |
| Repository.Repos.Exist | repolist.rb:106-108 | true exactly when `svnlook history --limit 1 <path>` succeeds |
| Repository.Repos.Date | repolist.rb:45-50 | a memoised date runs nothing; otherwise runs `svnlook date`: nil on failure, the parsed date, or InvalidDate when it cannot be parsed; remembers only a date |
| Repository.Repos.Revision | repolist.rb:52-54 | a memoised revision runs nothing; otherwise runs `svnlook youngest` and remembers its answer only when it is not nil |
| Repository.Repos.Readme | repolist.rb:56-58 | a memoised readme runs nothing; otherwise runs `svnlook cat README.txt` and remembers its answer only when it is not nil |
| Repository.Repos.TrunkPath | repolist.rb:60-68 | "<name>/trunk/" when `/trunk/` has history, "<name>/" otherwise; computed once, then fixed |
| Repository.Repos.Save | repolist.rb:70-103 | an existing target raises before any command runs; otherwise the four commands run in order up to the first failure, which raises with nothing moved or granted; on success the log ends with the move and the authz entries, the target exists and the authz file gains the stanza |
| Repository.Repos.Provision | repolist.rb:73-92 | the commands run in the scratch directory are the creation commands replayed up to the first failure, logged three entries each |
| Repository.Repos.SetUpScratch | repolist.rb:77-78 | `svnadmin create` of the scratch store, then `svn checkout` of it, stopping when the first fails |
| Repository.Repos.BuildWorkingCopy | repolist.rb:80-91 | `svn add` of the layout, then `svn commit`, stopping when the first fails |
| Repository.Repos.Create | repolist.rb:19-24 | a path with whitespace, an existing target or a failing command raises; otherwise the answer is the whole log joined by line feeds, the target exists and the authz file gains the stanza |
| Repository.QueryDateTwice | repolist.rb:45-50 | when the first answer is a date, the second is the same, and the two calls together run one `svnlook date` if no date was memoised and none otherwise |
| Catalog.Folders | repolist.rb:151-152 | keeps exactly the globbed paths that are directories and hold no '.' |
| Catalog.FirstWithSpace | repolist.rb:153 | the first folder Repos.new refuses, with every folder before it accepted; None when it accepts all |
| Catalog.Build | repolist.rb:153 | raises at the first folder with whitespace; otherwise one fresh, distinct, pristine object per folder, in order |
| Catalog.SurveyDates | repolist.rb:154 | reference definition of the `reject!` that drops repositories without a date: no more date queries than repositories, and when nothing raises one query per repository and no more kept than asked; the Survey rows below state the rest |
| Catalog.SurveyStaysFailed | repolist.rb:154 | once a date raises, the later repositories are never asked |
| Catalog.SurveyIssuesInOrder | repolist.rb:154 | the date queries run in folder order, all of them when none raises |
| Catalog.SurveyFailsAtFirstBadDate | repolist.rb:154 | a raise comes from the last repository asked; every one before it answered |
| Catalog.FailsAtLastAsked | repolist.rb:154 | when every repository but the last answered and the survey raises, the raise is the last one's answer and every earlier one answered |
| Catalog.SurveyOkAnswers | repolist.rb:154 | a survey that does not raise asks every repository, once each, in order |
| Catalog.AnswersOnPrefix | repolist.rb:154 | what a repository answers does not depend on the repositories after it |
| Catalog.SurveyKeepsDated | repolist.rb:154 | every repository that answers with a date is kept with that date |
| Catalog.SurveyKeepsOnlyDated | repolist.rb:154 | every kept entry is a repository that answered with the date it is kept with |
| Catalog.SurveyKeepsDatedInOrder | repolist.rb:154 | a completed survey keeps exactly the repositories that answer with a date, each once, in folder order, with those dates |
| Catalog.RejectUndated | repolist.rb:154 | asks each repository its date once, in order; raises with the first parse error, otherwise keeps exactly the survey's dated repositories with their dates memoised; no repository gains a log or any memo but its date |
| Catalog.WalkStep | repolist.rb:154 | one step of the walk: the `i`th repository is asked its date, the survey grows by that answer, and it is kept exactly when it answers with a date |
| Catalog.DatedRepos | repolist.rb:153-154 | raises at the first folder with whitespace before running anything; otherwise the date survey decides: its error, or fresh repositories carrying exactly the survey's dates and no other memo or log |
| Catalog.Swap | repolist.rb:155 | exchanges two entries; the multiset is unchanged |
| Catalog.Insert | repolist.rb:155 | extends the newest-first prefix by one entry; the multiset is unchanged |
| Catalog.SortNewestFirst | repolist.rb:155 | the array ends newest first and is a permutation of what it held |
| Catalog.SortedNewestFirst | repolist.rb:155 | a newest-first permutation of the survivors |
| Catalog.EachRepos | repolist.rb:150-157 | raises at the first folder with whitespace before running anything; otherwise runs the date survey; on success returns a permutation of the fresh dated survivors, newest first, none of which has a log or any memo but its date |
| Route.Admit | repolist.rb:165-171 | 'no name', 'no desc' and 'invalid name' in that order; admitted exactly when both are given and the stripped name matches; the name and the description are stripped |
| Route.AdmittedNameIsSafe | repolist.rb:168-173 | an admitted name needs no more stripping, joins onto the root into a path Repos.new accepts, and is that path's basename |
| Route.RootHasNoSpace | repolist.rb:11 | the repository root holds no whitespace, so Repos.new accepts it |
| Route.PostCreate | repolist.rb:164-176 | a refused request answers with its message and changes nothing; an existing target raises; otherwise the creation commands run in order, and on success the page shows the name and the log while the target and its authz stanza exist |

## Left out

- The Sinatra application itself is not modelled: the settings block, the HAML and Sass views, the `/` route, the inline templates and the CGI entry point.
- Backticks and `$?` become the oracle `Host.world`. The model does not capture what the commands do on disk, except for the effects of `save` that `FileSystem` models.
- `String#toutf8` is the identity in the model. Text is a sequence of characters and no encoding is modelled.
- `DateTime.parse` is the parameter `Host.parseDate`. Dates are integers ordered as the parsed dates are.
- `Dir.mktmpdir` is the parameter `tmp`. The scratch directory and its removal on every exit are not modelled as file-system state.
- `Dir.chdir` is not modelled. The commands run inside the working copy carry the relative paths the source gives them.
- `ENV['REMOTE_USER']` is the parameter `user`; it is "" when the variable is unset, as Ruby interpolates nil.
- `Dir.glob` and `File.directory?` are the parameters `globbed` and `fs.dirs`.
- Repository.Repos.Save: `FileUtils.mv` is modelled as the target appearing among the directories. Its own failures are not modelled, nor is the store leaving the scratch directory.
- Repository.Repos.BuildWorkingCopy: `Dir.mkdir` of trunk, tags and branches and the write of `desc` to README.txt are not modelled. They touch only the scratch working copy, and the model treats them as steps that cannot fail.
- Repository.Repos.Save: the append to the authz file is a step that cannot fail. A failure to open or write the file is not modelled.
- Catalog.Folders: states which globbed paths are kept, not that they keep the glob's order.
- Catalog.EachRepos: returns the sorted repositories instead of yielding each one to a block. The view that renders `trunk_path`, `revision` and `readme` for each is not modelled.
- Catalog.EachRepos: `sort!` is not stable. The model sorts by insertion, and its contract promises only newest-first order and a permutation, so ties may come out in any order.
- Concurrent requests that write to the same root or the same authz file are not modelled.

## Behaviour worth knowing

- The '.' filter of `each_repos` looks at the whole globbed path, so a dot anywhere in it drops the folder (repolist.rb:152).
- `||=` caches nothing when the answer is nil, so a nil `date`, `revision` or `readme` is asked again on the next call (repolist.rb:45-58).
- A failing `svn` or `svnadmin` raises with the command's output alone; the log gathered so far is dropped with the exception (repolist.rb:110-120, repolist.rb:19-24).
- An empty description passes the route's checks; only a missing one is refused (repolist.rb:166).
- `sort!` puts repositories with equal dates in no particular order (repolist.rb:155).
