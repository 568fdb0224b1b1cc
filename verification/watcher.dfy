/** The polling loop of `update-dubbd`: look up the channel, extract the
    latest announced DUBBD version from its history, compare it with the
    stored version and, when it changed, store it and issue one deploy
    command. Slack answers, the write's outcome and the pending signal are
    inputs of each iteration. */
module Watcher {
  import opened Wrappers
  import opened Search
  import opened VersionPattern
  import opened VersionStore
  import opened Slack

  /** The author whose messages announce releases. */
  const Author: string := "uds-new-release"

  /** The channel the announcements are posted in. */
  const ChannelName: string := "public-uds"

  /** The deploy command around the version. */
  const DeployPrefix: string := "zarf package deploy oci://ghcr.io/defenseunicorns/packages/dubbd-k3d:"
  const ImageTagSuffix: string := "-amd64"
  const DeployOptions: string := " --oci-concurrency=15 --confirm"
  const DeploySuffix: string := ImageTagSuffix + DeployOptions

  // ---------------------------------------------------------------------
  // Channel lookup

  datatype LookupError = ChannelNotFound

  predicate IsTargetChannel(c: Channel) {
    c.name == ChannelName
  }

  /** The ID of the first channel named "public-uds". The scan stops at that
      first one, so an empty ID there is "not found" even when a later channel
      of the same name has an ID. */
  function ResolveChannel(chs: seq<Channel>): (r: Result<string, LookupError>)
    ensures r.Success? ==> r.value != "" && exists k :: IsFirst(chs, IsTargetChannel, k) && chs[k].id == r.value
    ensures r.Failure? <==> forall k :: IsFirst(chs, IsTargetChannel, k) ==> chs[k].id == ""
  {
    match FirstIndex(chs, IsTargetChannel)
    case None => Failure(ChannelNotFound)
    case Some(k) =>
      assert forall k' :: IsFirst(chs, IsTargetChannel, k') ==> k' == k;
      if chs[k].id == "" then Failure(ChannelNotFound) else Success(chs[k].id)
  }

  /** The first channel of that name, when it has an ID, is the one chosen. */
  lemma ResolveChannelFinds(chs: seq<Channel>, k: int)
    requires IsFirst(chs, IsTargetChannel, k) && chs[k].id != ""
    ensures ResolveChannel(chs) == Success(chs[k].id)
  {
    FirstIndexFinds(chs, IsTargetChannel, k);
  }

  // ---------------------------------------------------------------------
  // Version extraction from the history

  /** A message that yields a version: from the release author, with
      non-empty text that matches the pattern. */
  predicate Announces(m: Message) {
    m.user == Author && m.text != "" && ExtractVersion(m.text).Some?
  }

  /** The version in the first announcing message, in the order returned. */
  function ExtractFromHistory(msgs: seq<Message>): (r: Option<string>)
    ensures r.None? <==> forall k :: 0 <= k < |msgs| ==> !Announces(msgs[k])
    ensures r.Some? ==> exists k :: IsFirst(msgs, Announces, k) && ExtractVersion(msgs[k].text) == r
    ensures r.Some? ==> IsVersion(r.value) && r.value != ""
  {
    match FirstIndex(msgs, Announces)
    case None => None
    case Some(k) => ExtractVersion(msgs[k].text)
  }

  /** First match wins: the first announcing message decides the version. */
  lemma FirstAnnouncementWins(msgs: seq<Message>, k: int)
    requires IsFirst(msgs, Announces, k)
    ensures ExtractFromHistory(msgs) == ExtractVersion(msgs[k].text)
  {
    FirstIndexFinds(msgs, Announces, k);
  }

  /** Once an announcement has been seen, nothing after it matters. */
  lemma LaterMessagesIgnored(a: seq<Message>, b: seq<Message>, k: int)
    requires 0 <= k < |a| && Announces(a[k])
    ensures ExtractFromHistory(a + b) == ExtractFromHistory(a)
  {
    var j := FirstIndex(a, Announces).value;
    assert IsFirst(a + b, Announces, j) by {
      assert forall i :: 0 <= i <= j ==> (a + b)[i] == a[i];
    }
    FirstIndexFinds(a + b, Announces, j);
  }

  /** Where an element of `a + b` sits once `m` is inserted between them. */
  lemma InsertedPosition(a: seq<Message>, m: Message, b: seq<Message>, i: int)
    requires 0 <= i < |a + b|
    ensures (a + [m] + b)[if i < |a| then i else i + 1] == (a + b)[i]
  {
    if i >= |a| {
      assert (a + [m] + b)[i + 1] == b[i - |a|];
    }
  }

  /** If the first `n` messages of `a + b` announce nothing, neither do the
      messages before the corresponding position once a silent `m` is
      inserted after `a`. */
  lemma SilentPrefixShifts(a: seq<Message>, m: Message, b: seq<Message>, n: int)
    requires !Announces(m) && 0 <= n <= |a + b|
    requires forall i :: 0 <= i < n ==> !Announces((a + b)[i])
    ensures forall i :: 0 <= i < (if n < |a| then n else n + 1) ==> !Announces((a + [m] + b)[i])
  {
    var with := a + [m] + b;
    assert with[|a|] == m;
    forall i | 0 <= i < (if n < |a| then n else n + 1)
      ensures !Announces(with[i])
    {
      if i < |a| {
        InsertedPosition(a, m, b, i);
      } else if i > |a| {
        InsertedPosition(a, m, b, i - 1);
      }
    }
  }

  /** A message that announces nothing can be removed from anywhere in the
      history without changing the extracted version. */
  lemma SilentMessageIgnored(a: seq<Message>, m: Message, b: seq<Message>)
    requires !Announces(m)
    ensures ExtractFromHistory(a + [m] + b) == ExtractFromHistory(a + b)
  {
    var with := a + [m] + b;
    var without := a + b;
    match FirstIndex(without, Announces)
    case None =>
      SilentPrefixShifts(a, m, b, |without|);
    case Some(j) =>
      SilentPrefixShifts(a, m, b, j);
      InsertedPosition(a, m, b, j);
      var j' := if j < |a| then j else j + 1;
      assert IsFirst(with, Announces, j');
      FirstIndexFinds(with, Announces, j');
  }

  /** Messages by other authors, and empty messages, never contribute a
      version, whatever their text. */
  lemma OtherMessagesIgnored(a: seq<Message>, m: Message, b: seq<Message>)
    requires m.user != Author || m.text == ""
    ensures ExtractFromHistory(a + [m] + b) == ExtractFromHistory(a + b)
  {
    SilentMessageIgnored(a, m, b);
  }

  /** Two announcements in a row: the earlier one's version is taken. */
  lemma EarlierOfTwoAnnouncementsWins(t1: string, t2: string)
    requires t1 != "" && ExtractVersion(t1).Some?
    ensures ExtractFromHistory([Message(Author, t1), Message(Author, t2)]) == ExtractVersion(t1)
  {
    var msgs := [Message(Author, t1), Message(Author, t2)];
    assert IsFirst(msgs, Announces, 0);
    FirstAnnouncementWins(msgs, 0);
  }

  // ---------------------------------------------------------------------
  // The deploy command

  /** The shell command that deploys `version`. */
  function DeployCommand(version: string): (cmd: string)
    ensures DeployedVersion(cmd) == Some(version)
  {
    var cmd := DeployPrefix + version + DeploySuffix;
    assert cmd[..|DeployPrefix|] == DeployPrefix;
    assert cmd[|cmd| - |DeploySuffix|..] == DeploySuffix;
    assert cmd[|DeployPrefix|..|cmd| - |DeploySuffix|] == version;
    cmd
  }

  /** The version a deploy command deploys: the inverse of DeployCommand. */
  function DeployedVersion(cmd: string): Option<string> {
    if |DeployPrefix| + |DeploySuffix| <= |cmd|
       && cmd[..|DeployPrefix|] == DeployPrefix
       && cmd[|cmd| - |DeploySuffix|..] == DeploySuffix
    then Some(cmd[|DeployPrefix|..|cmd| - |DeploySuffix|])
    else None
  }

  /** The command is the fixed template with the version in place. */
  lemma DeployCommandIsTemplate(v: string)
    ensures DeployCommand(v) ==
              "zarf package deploy oci://ghcr.io/defenseunicorns/packages/dubbd-k3d:" + v
              + "-amd64" + " --oci-concurrency=15 --confirm"
  {
  }

  /** Different versions give different commands. */
  lemma DeployCommandInjective(v: string, w: string)
    requires DeployCommand(v) == DeployCommand(w)
    ensures v == w
  {
    assert DeployedVersion(DeployCommand(v)) == Some(w);
  }

  /** The OCI reference in the command ends in `<version>-amd64`. */
  lemma DeployCommandNamesImage(v: string)
    ensures var cmd := DeployCommand(v);
            |DeployPrefix| + |v| + |ImageTagSuffix| <= |cmd|
            && cmd[|DeployPrefix|..|DeployPrefix| + |v| + |ImageTagSuffix|] == v + ImageTagSuffix
  {
    var cmd := DeployCommand(v);
    var image := v + ImageTagSuffix;
    assert cmd == DeployPrefix + image + DeployOptions;
    assert cmd[|DeployPrefix|..|DeployPrefix| + |image|] == image;
  }

  // ---------------------------------------------------------------------
  // One iteration of the loop

  /** What the compare step decided. */
  datatype Action =
    | NotFound
    | UpToDate(version: string)
    | Deploy(version: string, command: string)

  /** Compare the extracted version with the stored one, by exact string
      equality (no trimming). */
  function Decide(persisted: string, extracted: Option<string>): (a: Action)
    ensures a.NotFound? <==> extracted.None?
    ensures a.UpToDate? <==> extracted == Some(persisted)
    ensures a.UpToDate? ==> a.version == persisted
    ensures a.Deploy? ==> extracted == Some(a.version) && a.version != persisted
                          && DeployedVersion(a.command) == Some(a.version)
  {
    match extracted
    case None => NotFound
    case Some(v) => if v == persisted then UpToDate(v) else Deploy(v, DeployCommand(v))
  }

  /** Everything the outside world answers during one iteration. The history
      is a function of the channel ID it is asked for. */
  datatype Env = Env(
    channels: Result<seq<Channel>, SlackError>,
    history: string -> Result<seq<Message>, SlackError>,
    write: WriteOutcome,
    signal: bool)

  /** The history fetch is reached: channels listed, channel found, history fetched. */
  predicate FetchesHistory(env: Env) {
    && env.channels.Success?
    && ResolveChannel(env.channels.value).Success?
    && env.history(ResolveChannel(env.channels.value).value).Success?
  }

  /** The messages of the resolved channel. */
  function History(env: Env): seq<Message>
    requires FetchesHistory(env)
  {
    env.history(ResolveChannel(env.channels.value).value).value
  }

  /** How an iteration that got past the fatal checks ends, after the sleep. */
  datatype Ending = KeepPolling | Exit(status: int)

  datatype Outcome =
    | Fatal(status: int)
    | Acted(action: Action, store: Store, ending: Ending)

  /** One pass of the `for` loop in `main`. */
  function Iteration(store: Store, env: Env): (r: Outcome)
    ensures r.Fatal? <==> !(Read(store).Success? && FetchesHistory(env))
    ensures r.Fatal? ==> r.status == 1
    ensures r.Acted? ==> (r.ending.Exit? <==> env.signal)
    ensures r.Acted? && r.ending.Exit? ==> r.ending.status == 0
    ensures r.Acted? && !r.action.Deploy? ==> r.store == store
    ensures r.Acted? && r.action.Deploy? ==>
              && r.action.version != Read(store).value
              && DeployedVersion(r.action.command) == Some(r.action.version)
              && r.store == Write(store, r.action.version, env.write)
  {
    match Read(store)
    case Failure(_) => Fatal(1)
    case Success(persisted) =>
      match env.channels
      case Failure(_) => Fatal(1)
      case Success(chs) =>
        match ResolveChannel(chs)
        case Failure(_) => Fatal(1)
        case Success(id) =>
          match env.history(id)
          case Failure(_) => Fatal(1)
          case Success(msgs) =>
            var action := Decide(persisted, ExtractFromHistory(msgs));
            var store' := if action.Deploy? then Write(store, action.version, env.write) else store;
            Acted(action, store', if env.signal then Exit(0) else KeepPolling)
  }

  /** Without a channel named "public-uds" that has an ID, the iteration exits
      with status 1 and its outcome does not depend on any history. */
  lemma ChannelMissingIsFatal(store: Store, env: Env, h: string -> Result<seq<Message>, SlackError>)
    requires env.channels.Success?
    requires forall k :: 0 <= k < |env.channels.value| ==> env.channels.value[k].name != ChannelName
    ensures Iteration(store, env) == Fatal(1)
    ensures Iteration(store, env.(history := h)) == Fatal(1)
  {
  }

  /** Only the history of the resolved channel is consulted. */
  lemma OnlyResolvedHistoryMatters(store: Store, env: Env, h: string -> Result<seq<Message>, SlackError>)
    requires env.channels.Success? && ResolveChannel(env.channels.value).Success?
    requires h(ResolveChannel(env.channels.value).value) == env.history(ResolveChannel(env.channels.value).value)
    ensures Iteration(store, env.(history := h)) == Iteration(store, env)
  {
  }

  /** No announcement: nothing is written and nothing deployed. */
  lemma NoMatchNoChange(store: Store, env: Env)
    requires Read(store).Success? && FetchesHistory(env)
    requires forall k :: 0 <= k < |History(env)| ==> !Announces(History(env)[k])
    ensures Iteration(store, env).Acted?
    ensures Iteration(store, env).action == NotFound
    ensures Iteration(store, env).store == store
  {
    assert ExtractFromHistory(History(env)) == None;
  }

  /** The announced version is the stored one: nothing is written and nothing
      deployed. */
  lemma SameVersionNoChange(store: Store, env: Env)
    requires Read(store).Success? && FetchesHistory(env)
    requires ExtractFromHistory(History(env)) == Some(Read(store).value)
    ensures Iteration(store, env).Acted?
    ensures Iteration(store, env).action == UpToDate(Read(store).value)
    ensures Iteration(store, env).store == store
  {
  }

  /** The comparison is raw string equality: a stored "1.0.0" followed by a
      newline is not the announced "1.0.0", so that version is deployed again
      and stored without the newline. */
  lemma StoredNewlineCountsAsChange(store: Store, env: Env)
    requires Read(store) == Success("1.0.0\n") && FetchesHistory(env)
    requires ExtractFromHistory(History(env)) == Some("1.0.0")
    ensures Iteration(store, env).Acted?
    ensures Iteration(store, env).action == Deploy("1.0.0", DeployCommand("1.0.0"))
    ensures env.write.Written? ==> Read(Iteration(store, env).store) == Success("1.0.0")
  {
  }

  /** A new version: exactly one deploy command for it, and, when the write
      succeeds, the store then holds exactly that version. */
  lemma NewVersionDeploys(store: Store, env: Env, v: string)
    requires Read(store).Success? && FetchesHistory(env)
    requires ExtractFromHistory(History(env)) == Some(v) && v != Read(store).value
    ensures Iteration(store, env).Acted?
    ensures Iteration(store, env).action == Deploy(v, DeployCommand(v))
    ensures env.write.Written? ==> Read(Iteration(store, env).store) == Success(v)
  {
  }

  /** A failed write changes nothing about whether the loop goes on: the outcome's kind and action do not depend on the write. */
  lemma WriteFailureNotFatal(store: Store, env: Env, w: WriteOutcome)
    ensures Iteration(store, env.(write := w)).Fatal? == Iteration(store, env).Fatal?
    ensures Iteration(store, env).Acted? ==>
              && Iteration(store, env.(write := w)).action == Iteration(store, env).action
              && Iteration(store, env.(write := w)).ending == Iteration(store, env).ending
  {
  }

  /** A worked case: with "1.0.0" stored and "DUBBD v1.1.0" announced in
      public-uds, one iteration deploys 1.1.0 and stores it. */
  lemma ChangedVersionExample()
    ensures var env := Env(Success([Channel("C1", "random"), Channel("C2", "public-uds")]),
                           id => Success([Message("someone", "DUBBD v9.9.9"), Message("uds-new-release", "DUBBD v1.1.0")]),
                           Written, false);
            Iteration(Store(Some("1.0.0")), env)
              == Acted(Deploy("1.1.0", DeployCommand("1.1.0")), Store(Some("1.1.0")), KeepPolling)
  {
    var chs := [Channel("C1", "random"), Channel("C2", "public-uds")];
    var msgs := [Message("someone", "DUBBD v9.9.9"), Message("uds-new-release", "DUBBD v1.1.0")];
    assert "random" != ChannelName;
    ResolveChannelFinds(chs, 1);
    ExtractBareAnnouncement();
    assert "someone" != Author;
    assert IsFirst(msgs, Announces, 1);
    FirstAnnouncementWins(msgs, 1);
  }

  // ---------------------------------------------------------------------
  // Several iterations

  /** The end of a finite stretch of the loop: the store, the commands issued
      in order, and the exit status if the process exited. */
  datatype RunResult = RunResult(store: Store, commands: seq<string>, status: Option<int>)

  /** The commands an action issues: one for a deploy, none otherwise. */
  function Issued(a: Action): seq<string> {
    if a.Deploy? then [a.command] else []
  }

  /** The loop over the answers of successive iterations, stopping at the
      first exit. */
  function Run(store: Store, envs: seq<Env>): (r: RunResult)
    ensures |r.commands| <= |envs|
    ensures r.status.Some? ==> r.status.value == 0 || r.status.value == 1
    decreases |envs|
  {
    if |envs| == 0 then RunResult(store, [], None)
    else
      match Iteration(store, envs[0])
      case Fatal(status) => RunResult(store, [], Some(status))
      case Acted(action, store', ending) =>
        if ending.Exit? then RunResult(store', Issued(action), Some(ending.status))
        else
          var rest := Run(store', envs[1..]);
          RunResult(rest.store, Issued(action) + rest.commands, rest.status)
  }

  /** Every command a run issues is a deploy command; it exits with status 0
      only after an iteration that saw a signal, and keeps polling only if no
      iteration did. */
  lemma {:induction false} RunExitsOnSignal(store: Store, envs: seq<Env>)
    ensures forall c :: c in Run(store, envs).commands ==> DeployedVersion(c).Some?
    ensures Run(store, envs).status == Some(0) ==> exists i :: 0 <= i < |envs| && envs[i].signal
    ensures Run(store, envs).status.None? ==> forall i :: 0 <= i < |envs| ==> !envs[i].signal
    decreases |envs|
  {
    if |envs| > 0 {
      var it := Iteration(store, envs[0]);
      if it.Acted? && it.ending.KeepPolling? {
        var rest := envs[1..];
        RunExitsOnSignal(it.store, rest);
        assert forall i :: 1 <= i < |envs| ==> envs[i] == rest[i - 1];
        if Run(store, envs).status == Some(0) {
          var i :| 0 <= i < |rest| && rest[i].signal;
          assert envs[i + 1].signal;
        }
      }
    }
  }

  /** An iteration in which `v` is the announced version, the write succeeds
      and no signal is pending. */
  predicate Steady(env: Env, v: string) {
    && FetchesHistory(env)
    && ExtractFromHistory(History(env)) == Some(v)
    && env.write.Written?
    && !env.signal
  }

  /** While the same version stays announced, it is deployed at most once:
      once if it differs from the stored version, never if it is the stored
      one; afterwards the store holds it. */
  lemma {:induction false} SteadyDeploysOnce(store: Store, envs: seq<Env>, v: string)
    requires Read(store).Success?
    requires forall i :: 0 <= i < |envs| ==> Steady(envs[i], v)
    ensures Run(store, envs).status.None?
    ensures Run(store, envs).commands ==
              if |envs| == 0 || Read(store).value == v then [] else [DeployCommand(v)]
    ensures |envs| > 0 ==> Read(Run(store, envs).store) == Success(v)
    decreases |envs|
  {
    if |envs| > 0 {
      var it := Iteration(store, envs[0]);
      assert Steady(envs[0], v);
      assert it.Acted?;
      var rest := envs[1..];
      assert forall i :: 0 <= i < |rest| ==> Steady(rest[i], v) by {
        forall i | 0 <= i < |rest|
          ensures Steady(rest[i], v)
        {
          assert rest[i] == envs[i + 1];
        }
      }
      assert Read(it.store) == Success(v);
      SteadyDeploysOnce(it.store, rest, v);
    }
  }

  /** A fatal iteration ends the run at once with status 1, nothing issued
      and the store as it was. */
  lemma RunStopsOnFatal(store: Store, envs: seq<Env>)
    requires |envs| > 0 && Iteration(store, envs[0]).Fatal?
    ensures Run(store, envs) == RunResult(store, [], Some(1))
  {
  }

  /** An iteration that acts with a signal pending ends the run with status 0,
      after issuing that iteration's command, if any. */
  lemma RunStopsOnSignal(store: Store, envs: seq<Env>)
    requires |envs| > 0 && Iteration(store, envs[0]).Acted? && envs[0].signal
    ensures var it := Iteration(store, envs[0]);
            Run(store, envs) == RunResult(it.store, Issued(it.action), Some(0))
  {
  }

  /** Running `a` then `b` is running `a + b`: once `a` has exited, `b` is never
      consulted; otherwise `b` starts from the store `a` left, and the commands
      follow each other. */
  lemma {:induction false} RunAppend(store: Store, a: seq<Env>, b: seq<Env>)
    ensures var ra := Run(store, a);
            Run(store, a + b) ==
              if ra.status.Some? then ra
              else
                var rb := Run(ra.store, b);
                RunResult(rb.store, ra.commands + rb.commands, rb.status)
    decreases |a|
  {
    if |a| == 0 {
      assert a + b == b;
    } else {
      assert (a + b)[0] == a[0];
      assert (a + b)[1..] == a[1..] + b;
      var it := Iteration(store, a[0]);
      if it.Acted? && it.ending.KeepPolling? {
        RunAppend(it.store, a[1..], b);
        var ra := Run(it.store, a[1..]);
        if ra.status.None? {
          var rb := Run(ra.store, b);
          assert Issued(it.action) + (ra.commands + rb.commands)
              == (Issued(it.action) + ra.commands) + rb.commands;
        }
      }
    }
  }

  /** An iteration that acts with no signal pending lets the run go on, from
      the store it left, after issuing its command, if any: whether a version
      was found, was already deployed, or could not be written. */
  lemma RunContinues(store: Store, envs: seq<Env>)
    requires |envs| > 0 && Iteration(store, envs[0]).Acted? && !envs[0].signal
    ensures var it := Iteration(store, envs[0]);
            var rest := Run(it.store, envs[1..]);
            Run(store, envs) == RunResult(rest.store, Issued(it.action) + rest.commands, rest.status)
  {
  }

  /** The first iteration that stops polling decides how the run ends: if the
      iterations before `k` keep polling and iteration `k` is fatal, the run
      exits with 1; if it acts with a signal pending, with 0; if it acts with
      no signal pending, the loop is still polling after it. What follows `k`
      never matters to the first two. */
  lemma RunStopsAt(store: Store, envs: seq<Env>, k: nat)
    requires k < |envs| && Run(store, envs[..k]).status.None?
    ensures var before := Run(store, envs[..k]);
            var it := Iteration(before.store, envs[k]);
            && (it.Fatal? ==> Run(store, envs) == RunResult(before.store, before.commands, Some(1)))
            && (it.Acted? && envs[k].signal ==>
                  Run(store, envs) ==
                    RunResult(it.store, before.commands + Issued(it.action), Some(0)))
            && (it.Acted? && !envs[k].signal ==>
                  Run(store, envs[..k + 1]) ==
                    RunResult(it.store, before.commands + Issued(it.action), None))
  {
    assert envs == envs[..k] + envs[k..];
    RunAppend(store, envs[..k], envs[k..]);
    var before := Run(store, envs[..k]);
    var it := Iteration(before.store, envs[k]);
    assert envs[k..][0] == envs[k];
    if it.Fatal? {
      RunStopsOnFatal(before.store, envs[k..]);
      assert before.commands + [] == before.commands;
    } else if envs[k].signal {
      RunStopsOnSignal(before.store, envs[k..]);
    } else {
      assert envs[..k + 1] == envs[..k] + [envs[k]];
      RunAppend(store, envs[..k], [envs[k]]);
      RunContinues(before.store, [envs[k]]);
      assert [envs[k]][1..] == [];
      assert Issued(it.action) + [] == Issued(it.action);
    }
  }

  /** The pass at `k`, run from the store the passes before it left, acts and
      sees no signal. */
  predicate PassContinues(store: Store, envs: seq<Env>, k: nat)
    requires k < |envs|
  {
    var it := Iteration(Run(store, envs[..k]).store, envs[k]);
    it.Acted? && !envs[k].signal
  }

  /** A run still polling at its end went through every pass without an exit. */
  lemma PollingRunPassContinues(store: Store, envs: seq<Env>, k: nat)
    requires k < |envs| && Run(store, envs).status.None?
    ensures PassContinues(store, envs, k)
  {
    assert envs == envs[..k] + envs[k..];
    RunAppend(store, envs[..k], envs[k..]);
    RunStopsAt(store, envs, k);
  }

  /** Whether a pass continues depends only on the passes up to it. */
  lemma PassContinuesInPrefix(store: Store, envs: seq<Env>, n: nat, k: nat)
    requires k < n <= |envs|
    ensures PassContinues(store, envs[..n], k) == PassContinues(store, envs, k)
  {
    assert envs[..n][..k] == envs[..k];
    assert envs[..n][k] == envs[k];
  }

  /** Passes that all act with no signal leave the run polling. */
  lemma {:induction false} ContinuingPassesKeepPolling(store: Store, envs: seq<Env>)
    requires forall k :: 0 <= k < |envs| ==> PassContinues(store, envs, k)
    ensures Run(store, envs).status.None?
    decreases |envs|
  {
    if |envs| > 0 {
      var n := |envs| - 1;
      var init := envs[..n];
      forall k | 0 <= k < n
        ensures PassContinues(store, init, k)
      {
        PassContinuesInPrefix(store, envs, n, k);
      }
      ContinuingPassesKeepPolling(store, init);
      assert PassContinues(store, envs, n);
      RunStopsAt(store, envs, n);
      assert envs[..n + 1] == envs;
    }
  }

  /** The run is still polling at its end exactly when every pass, started from
      the store the previous one left, acted and saw no signal. */
  lemma RunKeepsPolling(store: Store, envs: seq<Env>)
    ensures Run(store, envs).status.None? <==>
              forall k :: 0 <= k < |envs| ==> PassContinues(store, envs, k)
  {
    if Run(store, envs).status.None? {
      forall k | 0 <= k < |envs|
        ensures PassContinues(store, envs, k)
      {
        PollingRunPassContinues(store, envs, k);
      }
    } else if forall k :: 0 <= k < |envs| ==> PassContinues(store, envs, k) {
      ContinuingPassesKeepPolling(store, envs);
    }
  }
}
