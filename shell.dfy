/** The machine repolist.rb runs on, seen through the command lines it runs:
    every `LANG=C <cmd> 2>&1` becomes one query to an oracle that answers from
    the command line and the command lines run before it. */
module Shell {
  import opened Results
  import opened Text
  import opened Seqs

  /** What one run yields: `$?.success?`, the text `$?` interpolates to, and
      the merged standard output and error before any transcoding. */
  datatype Outcome = Outcome(ok: bool, status: string, output: string)

  /** How the machine answers a command line, given every command line run before it. */
  type World = (seq<string>, string) -> Outcome

  /** The host: its installed binaries, its answers to commands, the date parser
      of its Ruby library, and the record of what has been run on it. */
  class Host {
    const svnBinaryDir: string
    const world: World
    const parseDate: string -> Option<int>  // DateTime.parse; None where it raises
    var history: seq<string>

    constructor (svnBinaryDir: string, world: World, parseDate: string -> Option<int>)
      ensures this.svnBinaryDir == svnBinaryDir && this.world == world && this.parseDate == parseDate
      ensures history == []
    {
      this.svnBinaryDir := svnBinaryDir;
      this.world := world;
      this.parseDate := parseDate;
      history := [];
    }
  }

  function SvnLine(bin: string, arg: string): string {
    bin + "/svn " + arg
  }

  function SvnadminLine(bin: string, arg: string): string {
    bin + "/svnadmin " + arg
  }

  /** `svnlook <sub> <dir> <arg>`; a nil argument interpolates as the empty string. */
  function SvnlookLine(bin: string, sub: string, dir: string, arg: string): string {
    bin + "/svnlook " + sub + " " + dir + " " + arg
  }

  /** The three entries `command` logs for one run: the command line, the exit
      status, and the stripped output. */
  function CommandEntries(cmd: string, o: Outcome): seq<string> {
    ["-- " + cmd, "== $?: " + o.status, Strip(o.output)]
  }

  /** Appending to the log; nothing happens until `enable_log` has created it. */
  function Appended(log: Option<seq<string>>, entries: seq<string>): Option<seq<string>> {
    match log
    case None => None
    case Some(l) => Some(l + entries)
  }

  /** Appending twice is appending the concatenation. */
  lemma AppendedTwice(log: Option<seq<string>>, a: seq<string>, b: seq<string>)
    ensures Appended(Appended(log, a), b) == Appended(log, a + b)
  {
    if log.Some? {
      assert log.value + a + b == log.value + (a + b);
    }
  }

  /** What running a list of checked commands (`svn`, `svnadmin`) leaves behind:
      the command lines run, the log entries written, and the output of the
      command that failed, if one did. */
  datatype Trace = Trace(issued: seq<string>, entries: seq<string>, failure: Option<string>)

  /** Runs `cmds` in order from `history`, stopping after the first that fails. */
  function Replay(world: World, history: seq<string>, cmds: seq<string>): (r: Trace)
    ensures |r.issued| <= |cmds|
    ensures |r.entries| == 3 * |r.issued|
    ensures r.failure.None? ==> |r.issued| == |cmds|
    decreases |cmds|
  {
    if cmds == [] then Trace([], [], None)
    else
      var o := world(history, cmds[0]);
      if !o.ok then Trace([cmds[0]], CommandEntries(cmds[0], o), Some(Strip(o.output)))
      else
        var rest := Replay(world, history + [cmds[0]], cmds[1..]);
        Trace([cmds[0]] + rest.issued, CommandEntries(cmds[0], o) + rest.entries, rest.failure)
  }

  /** When something in `a` fails, nothing after `a` runs. */
  lemma {:induction false} ReplayConcatFails(world: World, history: seq<string>, a: seq<string>, b: seq<string>)
    requires Replay(world, history, a).failure.Some?
    ensures Replay(world, history, a + b) == Replay(world, history, a)
    decreases |a|
  {
    var ab := a + b;
    assert ab[0] == a[0] && ab[1..] == a[1..] + b;
    if world(history, a[0]).ok {
      ReplayConcatFails(world, history + [a[0]], a[1..], b);
      ReplayAfterSuccess(world, history, a);
      ReplayAfterSuccess(world, history, ab);
    }
  }

  /** When all of `a` succeeds, `b` runs after it. */
  lemma {:induction false} ReplayConcatSucceeds(world: World, history: seq<string>, a: seq<string>, b: seq<string>)
    requires Replay(world, history, a).failure.None?
    ensures var tb := Replay(world, history + a, b);
      Replay(world, history, a + b)
        == Trace(a + tb.issued, Replay(world, history, a).entries + tb.entries, tb.failure)
    decreases |a|
  {
    if a == [] {
      assert a + b == b && history + a == history;
    } else {
      ReplayAfterSuccess(world, history, a);
      ReplayConcatSucceeds(world, history + [a[0]], a[1..], b);
      ConcatSucceedsStep(world, history, a, b);
    }
  }

  /** The inductive step of ReplayConcatSucceeds, once it holds for the tail of `a`. */
  lemma ConcatSucceedsStep(world: World, history: seq<string>, a: seq<string>, b: seq<string>)
    requires a != [] && world(history, a[0]).ok
    requires Replay(world, history + [a[0]], a[1..]).failure.None?
    requires var tb := Replay(world, history + [a[0]] + a[1..], b);
      Replay(world, history + [a[0]], a[1..] + b)
        == Trace(a[1..] + tb.issued, Replay(world, history + [a[0]], a[1..]).entries + tb.entries, tb.failure)
    ensures var tb := Replay(world, history + a, b);
      Replay(world, history, a + b)
        == Trace(a + tb.issued, Replay(world, history, a).entries + tb.entries, tb.failure)
  {
    var ce := CommandEntries(a[0], world(history, a[0]));
    var ta' := Replay(world, history + [a[0]], a[1..]);
    var tb := Replay(world, history + a, b);
    var rest := Replay(world, history + [a[0]], a[1..] + b);
    assert Replay(world, history, a) == Trace([a[0]] + ta'.issued, ce + ta'.entries, ta'.failure) by {
      ReplayAfterSuccess(world, history, a);
    }
    assert Replay(world, history, a + b) == Trace([a[0]] + rest.issued, ce + rest.entries, rest.failure) by {
      ConsConcat(a, b);
      assert (a + b)[0] == a[0] && (a + b)[1..] == a[1..] + b;
      ReplayAfterSuccess(world, history, a + b);
    }
    assert rest == Trace(a[1..] + tb.issued, ta'.entries + tb.entries, tb.failure) by {
      HeadThenTail(history, a);
    }
    PrependAlgebra(a, ce, ta'.entries, tb.issued, tb.entries, rest.issued, rest.entries);
  }

  /** The sequence algebra of ReplayConcatSucceeds: putting the first command
      and its entries in front of the tail's combined trace. */
  lemma PrependAlgebra<T>(a: seq<T>, ce: seq<T>, taE: seq<T>, tbI: seq<T>, tbE: seq<T>, restI: seq<T>, restE: seq<T>)
    requires a != [] && restI == a[1..] + tbI && restE == taE + tbE
    ensures [a[0]] + restI == a + tbI
    ensures ce + restE == (ce + taE) + tbE
  {
    ConsConcat(a, tbI);
    ConcatAssoc(ce, taE, tbE);
  }

  /** Replay of two commands, case by case. */
  lemma ReplayPair(world: World, history: seq<string>, c1: string, c2: string)
    ensures var o1 := world(history, c1);
      var o2 := world(history + [c1], c2);
      Replay(world, history, [c1, c2])
        == if !o1.ok then Trace([c1], CommandEntries(c1, o1), Some(Strip(o1.output)))
           else Trace([c1, c2], CommandEntries(c1, o1) + CommandEntries(c2, o2), if o2.ok then None else Some(Strip(o2.output)))
  {
    var cmds := [c1, c2];
    assert cmds[1..] == [c2] && [c2][1..] == [];
    if world(history, c1).ok {
      ReplayAfterSuccess(world, history, cmds);
      var o2 := world(history + [c1], c2);
      if o2.ok {
        ReplayAfterSuccess(world, history + [c1], [c2]);
        assert CommandEntries(c2, o2) + [] == CommandEntries(c2, o2);
      }
    }
  }

  /** Whether each of `cmds`, run in order from `history`, exits successfully. */
  ghost predicate AllSucceed(world: World, history: seq<string>, cmds: seq<string>) {
    forall j :: 0 <= j < |cmds| ==> world(history + cmds[..j], cmds[j]).ok
  }

  /** The commands before the `k`th all succeed, the `k`th fails, and `failure`
      is its stripped output. */
  ghost predicate FailedAt(world: World, history: seq<string>, cmds: seq<string>, k: int, failure: string) {
    && 0 <= k < |cmds|
    && AllSucceed(world, history, cmds[..k])
    && !world(history + cmds[..k], cmds[k]).ok
    && failure == Strip(world(history + cmds[..k], cmds[k]).output)
  }

  /** Replay runs a prefix of the commands, and at least one when there is one. */
  lemma {:induction false} ReplayRunsPrefix(world: World, history: seq<string>, cmds: seq<string>)
    ensures var t := Replay(world, history, cmds);
      |t.issued| <= |cmds| && t.issued == cmds[..|t.issued|] && (cmds != [] ==> |t.issued| > 0)
    decreases |cmds|
  {
    if cmds != [] && world(history, cmds[0]).ok {
      ReplayRunsPrefix(world, history + [cmds[0]], cmds[1..]);
    }
  }

  /** Running the first command successfully leaves the rest to run after it. */
  lemma AllSucceedCons(world: World, history: seq<string>, cmds: seq<string>)
    requires cmds != []
    ensures AllSucceed(world, history, cmds) <==>
      world(history, cmds[0]).ok && AllSucceed(world, history + [cmds[0]], cmds[1..])
  {
    var h' := history + [cmds[0]];
    var tail := cmds[1..];
    assert history + cmds[..0] == history;
    forall j | 0 <= j < |tail|
      ensures h' + tail[..j] == history + cmds[..j + 1] && tail[j] == cmds[j + 1]
    {
      assert cmds[..j + 1] == [cmds[0]] + tail[..j];
    }
    if world(history, cmds[0]).ok && AllSucceed(world, h', tail) {
      forall j | 0 <= j < |cmds| ensures world(history + cmds[..j], cmds[j]).ok {
        if j > 0 {
          assert world(h' + tail[..j - 1], tail[j - 1]).ok;
        }
      }
    }
  }

  /** Replay reports no failure exactly when it ran every command and each succeeded. */
  lemma {:induction false} ReplayCompletes(world: World, history: seq<string>, cmds: seq<string>)
    ensures var t := Replay(world, history, cmds);
      t.failure.None? <==> t.issued == cmds && AllSucceed(world, history, cmds)
    decreases |cmds|
  {
    if cmds != [] {
      AllSucceedCons(world, history, cmds);
      if world(history, cmds[0]).ok {
        ReplayCompletes(world, history + [cmds[0]], cmds[1..]);
        assert cmds == [cmds[0]] + cmds[1..];
      }
    }
  }

  /** Replay after a first command that succeeds. */
  lemma ReplayAfterSuccess(world: World, history: seq<string>, cmds: seq<string>)
    requires cmds != [] && world(history, cmds[0]).ok
    ensures var r := Replay(world, history + [cmds[0]], cmds[1..]);
      Replay(world, history, cmds)
        == Trace([cmds[0]] + r.issued, CommandEntries(cmds[0], world(history, cmds[0])) + r.entries, r.failure)
  {
  }

  /** A failure further on stays a failure once a successful command is put in front. */
  lemma FailedAtCons(world: World, history: seq<string>, cmds: seq<string>, k: nat, failure: string)
    requires cmds != [] && world(history, cmds[0]).ok
    requires FailedAt(world, history + [cmds[0]], cmds[1..], k, failure)
    ensures FailedAt(world, history, cmds, k + 1, failure)
  {
    var h' := history + [cmds[0]];
    var tail := cmds[1..];
    assert h' + tail[..k] == history + cmds[..k + 1];
    assert tail[k] == cmds[k + 1];
    assert cmds[..k + 1][1..] == tail[..k];
    AllSucceedCons(world, history, cmds[..k + 1]);
  }

  /** When Replay reports a failure, every command before the last one it ran
      succeeded, the last one failed, and the failure is that command's stripped output. */
  lemma {:induction false} ReplayFailsAtLast(world: World, history: seq<string>, cmds: seq<string>)
    ensures var t := Replay(world, history, cmds);
      t.failure.Some? ==> FailedAt(world, history, cmds, |t.issued| - 1, t.failure.value)
    decreases |cmds|
  {
    if cmds != [] {
      if world(history, cmds[0]).ok {
        var h' := history + [cmds[0]];
        ReplayFailsAtLast(world, h', cmds[1..]);
        ReplayRunsPrefix(world, h', cmds[1..]);
        ReplayAfterSuccess(world, history, cmds);
        var r := Replay(world, h', cmds[1..]);
        var t := Replay(world, history, cmds);
        assert t.issued == [cmds[0]] + r.issued && t.failure == r.failure;
        if r.failure.Some? {
          assert |t.issued| - 1 == (|r.issued| - 1) + 1;
          FailedAtCons(world, history, cmds, |r.issued| - 1, r.failure.value);
        }
      } else {
        assert history + cmds[..0] == history;
      }
    }
  }

  /** `entries` holds, three by three, what `command` logs for each of `issued`
      run in order from `history`. */
  ghost predicate LogsEach(world: World, history: seq<string>, issued: seq<string>, entries: seq<string>) {
    && |entries| == 3 * |issued|
    && forall j :: 0 <= j < |issued| ==>
         entries[3 * j .. 3 * j + 3] == CommandEntries(issued[j], world(history + issued[..j], issued[j]))
  }

  lemma LogsEachCons(world: World, history: seq<string>, c: string, issued: seq<string>, entries: seq<string>)
    requires LogsEach(world, history + [c], issued, entries)
    ensures LogsEach(world, history, [c] + issued, CommandEntries(c, world(history, c)) + entries)
  {
    var is' := [c] + issued;
    var es' := CommandEntries(c, world(history, c)) + entries;
    forall j | 0 <= j < |is'|
      ensures es'[3 * j .. 3 * j + 3] == CommandEntries(is'[j], world(history + is'[..j], is'[j]))
    {
      if j == 0 {
        assert history + is'[..0] == history;
      } else {
        var k := j - 1;
        assert is'[j] == issued[k];
        assert history + is'[..j] == (history + [c]) + issued[..k];
        assert es'[3 * j .. 3 * j + 3] == entries[3 * k .. 3 * k + 3];
      }
    }
  }

  /** Every command Replay runs leaves exactly three log entries, in order. */
  lemma {:induction false} ReplayLogsEachCommand(world: World, history: seq<string>, cmds: seq<string>)
    ensures var t := Replay(world, history, cmds);
      LogsEach(world, history, t.issued, t.entries)
    decreases |cmds|
  {
    if cmds != [] {
      var o := world(history, cmds[0]);
      if o.ok {
        var h' := history + [cmds[0]];
        ReplayLogsEachCommand(world, h', cmds[1..]);
        ReplayAfterSuccess(world, history, cmds);
        var r := Replay(world, h', cmds[1..]);
        LogsEachCons(world, history, cmds[0], r.issued, r.entries);
      } else {
        LogsEachCons(world, history, cmds[0], [], []);
        assert [cmds[0]] + [] == [cmds[0]];
        assert CommandEntries(cmds[0], o) + [] == CommandEntries(cmds[0], o);
      }
    }
  }
}
