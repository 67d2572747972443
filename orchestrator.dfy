/** The `__main__` block of download-youtube-playlist.py: resolve the
    playlist, load the ledger, reconcile old file names, then download the
    videos not yet in the ledger in dict order, recording each after its
    download succeeds and stopping the run at the first video that fails all
    its attempts. */
module Orchestrator {
  import opened Optional
  import opened Strings
  import opened FileSystem
  import opened Playlist
  import opened Retry
  import opened Ledger
  import opened Reconcile
  import opened Naming

  /** `download_with_retry`'s defaults as the loop uses them. */
  const MaxRetries: int := 3
  const RetryDelay: int := 5
  /** The pause before every download. */
  const Pause: int := 5

  /** What the download loop has done so far: the URLs recorded in the ledger,
      the downloader calls, the pauses, the files created, and whether it
      stopped on a failure. */
  datatype Progress = Progress(recorded: seq<string>, calls: seq<string>, sleeps: seq<int>,
                               created: set<string>, failed: bool)

  /** One iteration: skip a URL in the ledger; otherwise pause, run the retry
      loop, and either record the URL or stop. Nothing happens once stopped. */
  function Step(p: Progress, d: Descriptor, done: set<string>, outcomes: nat -> Attempt): Progress {
    if p.failed || d.url in done then p
    else
      var run := RetrySpec(outcomes, |p.calls|, MaxRetries);
      var tried := p.(calls := p.calls + Repeat(d.url, run.attempts),
                      sleeps := p.sleeps + [Pause] + Repeat(RetryDelay, Waits(run)),
                      created := p.created + Payload(OutputStem(d.position, d.title), outcomes, |p.calls|, run));
      if run.result.Succeeded? then tried.(recorded := p.recorded + [d.url])
      else tried.(failed := true)
  }

  /** The loop over `items`, in order, from `init`. */
  function Processed(items: seq<Descriptor>, done: set<string>, outcomes: nat -> Attempt, init: Progress): Progress
    decreases |items|
  {
    if items == [] then init
    else Step(Processed(items[..|items| - 1], done, outcomes, init), items[|items| - 1], done, outcomes)
  }

  /** The loop only appends to its logs. */
  predicate Extends(init: Progress, p: Progress) {
    && |init.recorded| <= |p.recorded| && p.recorded[..|init.recorded|] == init.recorded
    && |init.calls| <= |p.calls| && p.calls[..|init.calls|] == init.calls
    && |init.sleeps| <= |p.sleeps| && p.sleeps[..|init.sleeps|] == init.sleeps
    && init.created <= p.created
  }

  lemma StepExtends(p: Progress, d: Descriptor, done: set<string>, outcomes: nat -> Attempt)
    ensures Extends(p, Step(p, d, done, outcomes))
    ensures p.failed ==> Step(p, d, done, outcomes) == p
  {
    var q := Step(p, d, done, outcomes);
    assert q.recorded[..|p.recorded|] == p.recorded;
    assert q.calls[..|p.calls|] == p.calls;
    assert q.sleeps[..|p.sleeps|] == p.sleeps;
  }

  lemma ExtendsTransitive(a: Progress, b: Progress, c: Progress)
    requires Extends(a, b) && Extends(b, c)
    ensures Extends(a, c)
  {
    assert c.recorded[..|a.recorded|] == c.recorded[..|b.recorded|][..|a.recorded|];
    assert c.calls[..|a.calls|] == c.calls[..|b.calls|][..|a.calls|];
    assert c.sleeps[..|a.sleeps|] == c.sleeps[..|b.sleeps|][..|a.sleeps|];
  }

  /** The ledger, the call log and the pause log only grow, and a stopped loop
      does nothing more. */
  lemma {:induction false} ProcessedExtends(items: seq<Descriptor>, done: set<string>, outcomes: nat -> Attempt, init: Progress)
    ensures Extends(init, Processed(items, done, outcomes, init))
    ensures init.failed ==> Processed(items, done, outcomes, init) == init
    decreases |items|
  {
    if items != [] {
      var prev := Processed(items[..|items| - 1], done, outcomes, init);
      ProcessedExtends(items[..|items| - 1], done, outcomes, init);
      StepExtends(prev, items[|items| - 1], done, outcomes);
      ExtendsTransitive(init, prev, Processed(items, done, outcomes, init));
    }
  }

  /** The first `k` items, processed. */
  function After(items: seq<Descriptor>, k: nat, done: set<string>, outcomes: nat -> Attempt, init: Progress): Progress
    requires k <= |items|
  {
    Processed(items[..k], done, outcomes, init)
  }

  lemma AfterNext(items: seq<Descriptor>, k: nat, done: set<string>, outcomes: nat -> Attempt, init: Progress)
    requires k < |items|
    ensures After(items, k + 1, done, outcomes, init) == Step(After(items, k, done, outcomes, init), items[k], done, outcomes)
  {
    assert items[..k + 1][..k] == items[..k];
  }

  /** Fail-fast: once an item has failed, no later item is downloaded or
      recorded; everything stays as it was when the failure happened. */
  lemma {:induction false} FailFast(items: seq<Descriptor>, j: nat, k: nat, done: set<string>, outcomes: nat -> Attempt, init: Progress)
    requires j <= k <= |items|
    requires After(items, j, done, outcomes, init).failed
    ensures After(items, k, done, outcomes, init) == After(items, j, done, outcomes, init)
    decreases k - j
  {
    if j < k {
      FailFast(items, j, k - 1, done, outcomes, init);
      AfterNext(items, k - 1, done, outcomes, init);
    }
  }

  /** The calls one step adds are all for its item's URL, which is not in the
      ledger set. */
  lemma StepCalls(p: Progress, d: Descriptor, done: set<string>, outcomes: nat -> Attempt)
    ensures var q := Step(p, d, done, outcomes);
      && |p.calls| <= |q.calls| && q.calls[..|p.calls|] == p.calls
      && forall k :: |p.calls| <= k < |q.calls| ==> q.calls[k] == d.url && d.url !in done
  {
    var q := Step(p, d, done, outcomes);
    StepExtends(p, d, done, outcomes);
    if q.calls != p.calls {
      var run := RetrySpec(outcomes, |p.calls|, MaxRetries);
      assert q.calls == p.calls + Repeat(d.url, run.attempts);
      RepeatElements(d.url, run.attempts);
    }
  }

  /** Some call of `p` from position `lo` on fetched `d`'s URL, and the file the
      downloader saved for it under `d`'s name is among the files created. */
  predicate FetchedIn(p: Progress, lo: nat, outcomes: nat -> Attempt, d: Descriptor) {
    exists c :: && lo <= c < |p.calls| && p.calls[c] == d.url && outcomes(c).Fetched?
                && ArtifactName(d.position, d.title, outcomes(c).ext) in p.created
  }

  /** The URL one step records is its item's, not in the ledger set, and the
      step's last downloader call fetched it and saved its file. */
  lemma StepRecords(p: Progress, d: Descriptor, done: set<string>, outcomes: nat -> Attempt)
    ensures var q := Step(p, d, done, outcomes);
      && |p.recorded| <= |q.recorded| && q.recorded[..|p.recorded|] == p.recorded
      && |p.calls| <= |q.calls| && q.calls[..|p.calls|] == p.calls
      && forall k :: |p.recorded| <= k < |q.recorded| ==>
           q.recorded[k] == d.url && d.url !in done && FetchedIn(q, |p.calls|, outcomes, d)
  {
    var q := Step(p, d, done, outcomes);
    StepExtends(p, d, done, outcomes);
    if q.recorded != p.recorded {
      var run := RetrySpec(outcomes, |p.calls|, MaxRetries);
      RetryShape(outcomes, |p.calls|, MaxRetries);
      assert q.calls == p.calls + Repeat(d.url, run.attempts);
      RepeatElements(d.url, run.attempts);
      var c := |p.calls| + run.attempts - 1;
      assert q.calls[c] == d.url;
      assert outcomes(c) == AnswerAt(outcomes, |p.calls|, run.attempts - 1);
      assert ArtifactName(d.position, d.title, outcomes(c).ext) in q.created;
    }
  }

  /** A fetch seen in a log is still there once the log has grown. */
  lemma FetchedInGrown(p: Progress, q: Progress, lo: nat, outcomes: nat -> Attempt, d: Descriptor)
    requires FetchedIn(p, lo, outcomes, d) && Extends(p, q)
    ensures FetchedIn(q, lo, outcomes, d)
  {
    var c :| && lo <= c < |p.calls| && p.calls[c] == d.url && outcomes(c).Fetched?
             && ArtifactName(d.position, d.title, outcomes(c).ext) in p.created;
    assert q.calls[c] == q.calls[..|p.calls|][c];
  }

  /** A fetch seen past position `hi` of a log is also seen past any earlier position. */
  lemma FetchedInWider(p: Progress, lo: nat, hi: nat, outcomes: nat -> Attempt, d: Descriptor)
    requires lo <= hi && FetchedIn(p, hi, outcomes, d)
    ensures FetchedIn(p, lo, outcomes, d)
  {
  }

  /** What lies in a log past position `lo` still does once the log has grown. */
  lemma InGrownSuffix(a: seq<string>, b: seq<string>, lo: nat, x: string)
    requires lo <= |a| <= |b| && b[..|a|] == a && x in a[lo..]
    ensures x in b[lo..]
  {
    var c :| 0 <= c < |a[lo..]| && a[lo..][c] == x;
    assert b[lo..][c] == b[..|a|][lo + c];
  }

  /** What lies in a log past position `j` also lies past any earlier position. */
  lemma InLongerSuffix(s: seq<string>, i: nat, j: nat, x: string)
    requires i <= j <= |s| && x in s[j..]
    ensures x in s[i..]
  {
    var c :| 0 <= c < |s[j..]| && s[j..][c] == x;
    assert s[i..][j - i + c] == x;
  }

  /** A URL in the ledger set is never passed to the downloader: every call the
      loop makes is for an item's URL that is not in the set. */
  lemma {:induction false} SkipsDone(items: seq<Descriptor>, done: set<string>, outcomes: nat -> Attempt, init: Progress)
    ensures var p := Processed(items, done, outcomes, init);
      |init.calls| <= |p.calls| &&
      forall k :: |init.calls| <= k < |p.calls| ==>
        p.calls[k] !in done && exists i :: 0 <= i < |items| && items[i].url == p.calls[k]
    decreases |items|
  {
    if items != [] {
      var n := |items| - 1;
      var prev := Processed(items[..n], done, outcomes, init);
      var p := Processed(items, done, outcomes, init);
      SkipsDone(items[..n], done, outcomes, init);
      StepCalls(prev, items[n], done, outcomes);
      forall k | |init.calls| <= k < |p.calls|
        ensures p.calls[k] !in done && exists i :: 0 <= i < |items| && items[i].url == p.calls[k]
      {
        if k < |prev.calls| {
          assert p.calls[k] == p.calls[..|prev.calls|][k];
          var i :| 0 <= i < n && items[..n][i].url == prev.calls[k];
          assert items[i] == items[..n][i];
        } else {
          assert items[n].url == p.calls[k];
        }
      }
    }
  }

  /** Every URL `p` recorded from position `r` of its ledger on belongs to an
      item of `items` not in the ledger set, which a call from position `lo` of
      the log fetched, leaving that item's file behind. */
  predicate RecordedFetched(p: Progress, r: nat, lo: nat, items: seq<Descriptor>, done: set<string>, outcomes: nat -> Attempt) {
    forall k :: r <= k < |p.recorded| ==>
      && p.recorded[k] !in done
      && exists i :: 0 <= i < |items| && items[i].url == p.recorded[k] && FetchedIn(p, lo, outcomes, items[i])
  }

  /** One more step keeps `RecordedFetched`, with the step's item added. */
  lemma RecordedFetchedStep(p: Progress, r: nat, lo: nat, items: seq<Descriptor>, done: set<string>, outcomes: nat -> Attempt)
    requires items != [] && lo <= |p.calls|
    requires RecordedFetched(p, r, lo, items[..|items| - 1], done, outcomes)
    ensures RecordedFetched(Step(p, items[|items| - 1], done, outcomes), r, lo, items, done, outcomes)
  {
    var n := |items| - 1;
    var q := Step(p, items[n], done, outcomes);
    StepRecords(p, items[n], done, outcomes);
    StepExtends(p, items[n], done, outcomes);
    forall k | r <= k < |q.recorded|
      ensures && q.recorded[k] !in done
              && exists i :: 0 <= i < |items| && items[i].url == q.recorded[k] && FetchedIn(q, lo, outcomes, items[i])
    {
      if k < |p.recorded| {
        assert q.recorded[k] == q.recorded[..|p.recorded|][k];
        var i :| 0 <= i < n && items[..n][i].url == p.recorded[k] && FetchedIn(p, lo, outcomes, items[..n][i]);
        assert items[i] == items[..n][i];
        FetchedInGrown(p, q, lo, outcomes, items[i]);
      } else {
        assert q.recorded[k] == items[n].url && FetchedIn(q, |p.calls|, outcomes, items[n]);
        FetchedInWider(q, lo, |p.calls|, outcomes, items[n]);
      }
    }
  }

  /** A URL is recorded only after its download succeeded: every URL the loop
      adds to the ledger is the URL of an item not in the set, which one of the
      loop's downloader calls fetched, leaving that item's file behind. */
  lemma {:induction false} RecordsOnlyDownloaded(items: seq<Descriptor>, done: set<string>, outcomes: nat -> Attempt, init: Progress)
    ensures var p := Processed(items, done, outcomes, init);
      && Extends(init, p)
      && RecordedFetched(p, |init.recorded|, |init.calls|, items, done, outcomes)
    decreases |items|
  {
    if items != [] {
      var n := |items| - 1;
      var prev := Processed(items[..n], done, outcomes, init);
      RecordsOnlyDownloaded(items[..n], done, outcomes, init);
      assert items[..n] == items[..|items| - 1];
      RecordedFetchedStep(prev, |init.recorded|, |init.calls|, items, done, outcomes);
      StepExtends(prev, items[n], done, outcomes);
      ExtendsTransitive(init, prev, Step(prev, items[n], done, outcomes));
    } else {
      assert init.recorded[..|init.recorded|] == init.recorded;
      assert init.calls[..|init.calls|] == init.calls;
      assert init.sleeps[..|init.sleeps|] == init.sleeps;
    }
  }

  /** Each item costs at most `MaxRetries` downloader calls and `MaxRetries`
      pauses (one before it, one between attempts). */
  lemma {:induction false} CallBound(items: seq<Descriptor>, done: set<string>, outcomes: nat -> Attempt, init: Progress)
    ensures var p := Processed(items, done, outcomes, init);
      && |p.calls| <= |init.calls| + MaxRetries * |items|
      && |p.sleeps| <= |init.sleeps| + MaxRetries * |items|
    decreases |items|
  {
    if items != [] {
      var n := |items| - 1;
      var prev := Processed(items[..n], done, outcomes, init);
      CallBound(items[..n], done, outcomes, init);
      RetryShape(outcomes, |prev.calls|, MaxRetries);
    }
  }

  /** When every item succeeds, every item's URL was in the ledger set or has
      been recorded. */
  lemma {:induction false} CompleteRunCoversAll(items: seq<Descriptor>, done: set<string>, outcomes: nat -> Attempt, init: Progress)
    ensures var p := Processed(items, done, outcomes, init);
      !p.failed ==> forall i :: 0 <= i < |items| ==> items[i].url in done || items[i].url in p.recorded
    decreases |items|
  {
    var p := Processed(items, done, outcomes, init);
    if items != [] && !p.failed {
      var n := |items| - 1;
      var prev := Processed(items[..n], done, outcomes, init);
      StepExtends(prev, items[n], done, outcomes);
      CompleteRunCoversAll(items[..n], done, outcomes, init);
      forall i | 0 <= i < |items|
        ensures items[i].url in done || items[i].url in p.recorded
      {
        if i < n {
          assert items[..n][i] == items[i];
          if items[i].url in prev.recorded {
            var k :| 0 <= k < |prev.recorded| && prev.recorded[k] == items[i].url;
            assert p.recorded[..|prev.recorded|][k] == p.recorded[k];
          }
        }
      }
    }
  }

  /** A second run over a playlist whose URLs are all in the ledger downloads,
      records and creates nothing and makes no pause. */
  lemma {:induction false} ResumeIsIdle(items: seq<Descriptor>, done: set<string>, outcomes: nat -> Attempt, init: Progress)
    requires forall i :: 0 <= i < |items| ==> items[i].url in done
    ensures Processed(items, done, outcomes, init) == init
    decreases |items|
  {
    if items != [] {
      ResumeIsIdle(items[..|items| - 1], done, outcomes, init);
    }
  }

  /** A run that stops does so at one item: every item before it was skipped or
      recorded, it is not in the ledger set, it was tried `MaxRetries` times,
      each attempt failing, and nothing is done after it. */
  lemma {:induction false} StopsAtFirstFailure(items: seq<Descriptor>, done: set<string>, outcomes: nat -> Attempt, init: Progress)
    requires !init.failed && Processed(items, done, outcomes, init).failed
    ensures exists f :: 0 <= f < |items| && StoppedAt(items, f, done, outcomes, init)
    decreases |items|
  {
    var n := |items| - 1;
    if Processed(items[..n], done, outcomes, init).failed {
      StopsAtFirstFailure(items[..n], done, outcomes, init);
      var f :| 0 <= f < n && StoppedAt(items[..n], f, done, outcomes, init);
      StoppedInPrefix(items, f, done, outcomes, init);
    } else {
      StoppedAtLast(items, done, outcomes, init);
    }
  }

  /** A stop inside the first `|items| - 1` items is a stop of the whole run. */
  lemma StoppedInPrefix(items: seq<Descriptor>, f: nat, done: set<string>, outcomes: nat -> Attempt, init: Progress)
    requires f < |items| - 1 && StoppedAt(items[..|items| - 1], f, done, outcomes, init)
    requires Processed(items[..|items| - 1], done, outcomes, init).failed
    ensures StoppedAt(items, f, done, outcomes, init)
  {
    var n := |items| - 1;
    AfterOfPrefix(items, n, f, done, outcomes, init);
    AfterOfPrefix(items, n, f + 1, done, outcomes, init);
    FailFast(items, f + 1, |items|, done, outcomes, init);
    assert items[..|items|] == items;
  }

  /** The first `k` items of a prefix are the first `k` items. */
  lemma AfterOfPrefix(items: seq<Descriptor>, m: nat, k: nat, done: set<string>, outcomes: nat -> Attempt, init: Progress)
    requires k <= m <= |items|
    ensures After(items[..m], k, done, outcomes, init) == After(items, k, done, outcomes, init)
  {
    assert items[..m][..k] == items[..k];
  }

  /** A run that had not stopped before its last item and stops there, stops at it. */
  lemma StoppedAtLast(items: seq<Descriptor>, done: set<string>, outcomes: nat -> Attempt, init: Progress)
    requires items != []
    requires !Processed(items[..|items| - 1], done, outcomes, init).failed
    requires Processed(items, done, outcomes, init).failed
    ensures StoppedAt(items, |items| - 1, done, outcomes, init)
  {
    var n := |items| - 1;
    var prev := Processed(items[..n], done, outcomes, init);
    assert items[..n + 1] == items;
    AfterNext(items, n, done, outcomes, init);
    RetryShape(outcomes, |prev.calls|, MaxRetries);
  }

  /** Item `f` is where the loop stopped. */
  predicate StoppedAt(items: seq<Descriptor>, f: nat, done: set<string>, outcomes: nat -> Attempt, init: Progress)
    requires f < |items|
  {
    var before := After(items, f, done, outcomes, init);
    && !before.failed
    && items[f].url !in done
    && FailsFrom(outcomes, |before.calls|, MaxRetries)
    && After(items, f + 1, done, outcomes, init).calls == before.calls + Repeat(items[f].url, MaxRetries)
    && After(items, f + 1, done, outcomes, init).recorded == before.recorded
    && Processed(items, done, outcomes, init) == After(items, f + 1, done, outcomes, init)
  }

  /** An item not in the ledger set, reached before any stop, whose every
      attempt fails stops the run there: the run ends failed, so with exit
      status 1, and nothing after that item is done. */
  lemma AllAttemptsFailedStops(items: seq<Descriptor>, f: nat, done: set<string>, outcomes: nat -> Attempt, init: Progress)
    requires f < |items| && items[f].url !in done
    requires !After(items, f, done, outcomes, init).failed
    requires FailsFrom(outcomes, |After(items, f, done, outcomes, init).calls|, MaxRetries)
    ensures Processed(items, done, outcomes, init).failed
    ensures Processed(items, done, outcomes, init) == After(items, f + 1, done, outcomes, init)
    ensures StoppedAt(items, f, done, outcomes, init)
  {
    var before := After(items, f, done, outcomes, init);
    AfterNext(items, f, done, outcomes, init);
    RetryExhausted(outcomes, |before.calls|, MaxRetries);
    assert After(items, f + 1, done, outcomes, init).failed;
    FailFast(items, f + 1, |items|, done, outcomes, init);
    assert items[..|items|] == items;
  }

  /** With the ledger file well formed and URLs free of newlines and of
      surrounding whitespace, the ledger never loses an entry, and after a run
      in which every item succeeded it lists every item's URL. */
  lemma LedgerAfterRun(items: seq<Descriptor>, text: string, outcomes: nat -> Attempt, init: Progress)
    requires Terminated(text) && init.recorded == []
    requires forall i :: 0 <= i < |items| ==> '\n' !in items[i].url && NoEdgeSpace(items[i].url)
    ensures var p := Processed(items, Loaded(text), outcomes, init);
      && Loaded(text) <= Loaded(RecordAll(text, p.recorded))
      && (!p.failed ==> forall i :: 0 <= i < |items| ==> items[i].url in Loaded(RecordAll(text, p.recorded)))
  {
    var done := Loaded(text);
    var p := Processed(items, done, outcomes, init);
    RecordsOnlyDownloaded(items, done, outcomes, init);
    assert NoNewlines(p.recorded) by {
      forall k | 0 <= k < |p.recorded| ensures '\n' !in p.recorded[k] {
        var i :| 0 <= i < |items| && items[i].url == p.recorded[k];
      }
    }
    RecordAllLoads(text, p.recorded);
    if !p.failed {
      CompleteRunCoversAll(items, done, outcomes, init);
      forall i | 0 <= i < |items| && items[i].url !in done
        ensures items[i].url in StrippedSet(p.recorded)
      {
        var k :| 0 <= k < |p.recorded| && p.recorded[k] == items[i].url;
        StrippedSetHas(p.recorded, k);
      }
    }
  }

  /** The progress a run starts from. */
  function Start(dl: Downloader, clock: Clock): Progress
    reads dl, clock
  {
    Progress([], dl.calls, clock.sleeps, {}, false)
  }

  /** The download loop of `__main__`, over the descriptors in dict order. The
      calls, pauses, files, ledger and exit status are those of `Processed`. */
  method DownloadRemaining(info: VideoInfo, done: set<string>, tracker: TrackerFile, dir: Directory,
                           dl: Downloader, clock: Clock)
    returns (exitCode: int)
    requires Valid(info) && tracker.present
    modifies tracker, dir, dl, clock
    ensures var p := Processed(Items(info), done, dl.outcomes, old(Start(dl, clock)));
      && dl.calls == p.calls && clock.sleeps == p.sleeps
      && dir.names == old(dir.names) + p.created
      && tracker.present && tracker.text == RecordAll(old(tracker.text), p.recorded)
      && exitCode == if p.failed then 1 else 0
  {
    var items := Items(info);
    ghost var init := Start(dl, clock);
    var i := 0;
    while i < |items|
      invariant 0 <= i <= |items|
      invariant !After(items, i, done, dl.outcomes, init).failed
      invariant dl.calls == After(items, i, done, dl.outcomes, init).calls
      invariant clock.sleeps == After(items, i, done, dl.outcomes, init).sleeps
      invariant dir.names == old(dir.names) + After(items, i, done, dl.outcomes, init).created
      invariant tracker.present
      invariant tracker.text == RecordAll(old(tracker.text), After(items, i, done, dl.outcomes, init).recorded)
    {
      var d := items[i];
      AfterNext(items, i, done, dl.outcomes, init);
      ghost var before := After(items, i, done, dl.outcomes, init);
      if d.url !in done {
        clock.Sleep(Pause);
        var result := DownloadWithRetry(dl, clock, dir, d.url, d.position, d.title);
        if !result.Succeeded? {
          FailFast(items, i + 1, |items|, done, dl.outcomes, init);
          assert items[..|items|] == items;
          return 1;
        }
        tracker.Save(d.url);
        RecordAllSnoc(old(tracker.text), before.recorded, d.url);
      }
      i := i + 1;
    }
    assert items[..|items|] == items;
    return 0;
  }

  /** The whole `__main__` block. `playlist` is the metadata extractor's answer,
      `None` when it raised. With a playlist, the folder ends as the reconcile
      left it (`Turn` over every key, `picks` being the files the glob
      yielded) plus the files the download loop created. */
  method Run(playlist: Option<seq<Entry>>, tracker: TrackerFile, dir: Directory, dl: Downloader, clock: Clock)
    returns (exitCode: int, ghost picks: seq<string>)
    modifies tracker, dir, dl, clock
    ensures playlist.None? ==>
      && exitCode == 1
      && tracker.present == old(tracker.present) && tracker.text == old(tracker.text)
      && dir.names == old(dir.names) && dl.calls == old(dl.calls) && clock.sleeps == old(clock.sleeps)
    ensures playlist.Some? ==>
      var info := PlaylistInfo(playlist.value);
      var ledger := if old(tracker.present) then old(tracker.text) else [];
      var s := Pass(info, Loaded(ledger), dir.refuses, old(dir.names), picks);
      var p := Processed(Items(info), Loaded(ledger), dl.outcomes, old(Start(dl, clock)));
      && tracker.present && tracker.text == RecordAll(ledger, p.recorded)
      && dl.calls == p.calls && clock.sleeps == p.sleeps
      && |picks| == |info.ids| && WellFormed(s) && GlobPicks(s)
      && dir.names == Turn(s, |picks|).names + p.created
      && exitCode == if p.failed then 1 else 0
  {
    picks := [];
    if playlist.None? {
      return 1, picks;
    }
    var info := PlaylistInfo(playlist.value);
    var done := tracker.Load();
    assert done == Loaded(tracker.text) by {
      assert Loaded([]) == {} by { assert Lines([]) == []; }
    }
    var renamed;
    renamed, picks := RenameExistingVideos(info, done, dir);
    exitCode := DownloadRemaining(info, done, tracker, dir, dl, clock);
  }
}
