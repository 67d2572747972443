/** `download_with_retry` (download-youtube-playlist.py): up to `max_retries`
    download attempts, a pause between attempts and none after the last. The
    downloader and the clock are abstract: the downloader's answer to each
    call is scripted, and a pause is recorded rather than waited. */
module Retry {
  import opened Naming
  import opened FileSystem

  /** What one download call does: the payload arrives with this container
      extension, or the call raises with this message. */
  datatype Attempt = Fetched(ext: string) | Failed(message: string)

  /** The downloader. The answer to the k-th call overall (from 0) is
      `outcomes(k)`; `calls` lists the URLs requested so far. */
  class Downloader {
    const outcomes: nat -> Attempt
    var calls: seq<string>

    constructor (outcomes: nat -> Attempt)
      ensures this.outcomes == outcomes && calls == []
    {
      this.outcomes := outcomes;
      calls := [];
    }

    method Download(url: string) returns (a: Attempt)
      modifies this
      ensures calls == old(calls) + [url]
      ensures a == outcomes(|old(calls)|)
    {
      a := outcomes(|calls|);
      calls := calls + [url];
    }
  }

  /** `time.sleep`, recorded: each pause's length in seconds. */
  class Clock {
    var sleeps: seq<int>

    constructor ()
      ensures sleeps == []
    {
      sleeps := [];
    }

    method Sleep(seconds: int)
      modifies this
      ensures sleeps == old(sleeps) + [seconds]
    {
      sleeps := sleeps + [seconds];
    }
  }

  /** `(True, None)`, `(False, str(e))`, or the implicit `None` when the loop
      never runs. */
  datatype RetryResult = Succeeded | GaveUp(error: string) | NoResult

  /** The result and the number of download calls made. */
  datatype RetryRun = RetryRun(result: RetryResult, attempts: nat)

  /** The downloader's answer to attempt `j` of a loop whose first call is
      call number `start` overall. */
  function AnswerAt(outcomes: nat -> Attempt, start: nat, j: nat): Attempt {
    outcomes(start + j)
  }

  /** The loop from attempt number `attempt` on. */
  function RetryFrom(outcomes: nat -> Attempt, start: nat, attempt: nat, maxRetries: int): RetryRun
    decreases maxRetries - attempt
  {
    if attempt >= maxRetries then RetryRun(NoResult, attempt)
    else match AnswerAt(outcomes, start, attempt)
      case Fetched(_) => RetryRun(Succeeded, attempt + 1)
      case Failed(message) =>
        if attempt < maxRetries - 1 then RetryFrom(outcomes, start, attempt + 1, maxRetries)
        else RetryRun(GaveUp(message), attempt + 1)
  }

  function RetrySpec(outcomes: nat -> Attempt, start: nat, maxRetries: int): RetryRun {
    RetryFrom(outcomes, start, 0, maxRetries)
  }

  /** Pauses taken: one between consecutive attempts. */
  function Waits(run: RetryRun): nat {
    if run.attempts == 0 then 0 else run.attempts - 1
  }

  /** `n` copies of `x`. */
  function Repeat<T>(x: T, n: nat): (r: seq<T>)
    ensures |r| == n
  {
    if n == 0 then [] else Repeat(x, n - 1) + [x]
  }

  /** Every element of `Repeat(x, n)` is `x`. */
  lemma {:induction false} RepeatElements<T>(x: T, n: nat)
    ensures forall i :: 0 <= i < n ==> Repeat(x, n)[i] == x
  {
    if n > 0 {
      RepeatElements(x, n - 1);
    }
  }

  predicate FailsFrom(outcomes: nat -> Attempt, start: nat, n: nat) {
    forall j :: 0 <= j < n ==> AnswerAt(outcomes, start, j).Failed?
  }

  lemma {:induction false} SucceedsAfterFrom(outcomes: nat -> Attempt, start: nat, attempt: nat, maxRetries: int, r: nat)
    requires attempt <= r < maxRetries
    requires forall j :: attempt <= j < r ==> AnswerAt(outcomes, start, j).Failed?
    requires AnswerAt(outcomes, start, r).Fetched?
    ensures RetryFrom(outcomes, start, attempt, maxRetries) == RetryRun(Succeeded, r + 1)
    decreases r - attempt
  {
    if attempt < r {
      SucceedsAfterFrom(outcomes, start, attempt + 1, maxRetries, r);
    }
  }

  /** When the first `r` attempts fail and the next succeeds, within the bound,
      the result is success after exactly `r + 1` calls and `r` pauses. */
  lemma RetrySucceedsAfter(outcomes: nat -> Attempt, start: nat, maxRetries: int, r: nat)
    requires r < maxRetries
    requires FailsFrom(outcomes, start, r) && AnswerAt(outcomes, start, r).Fetched?
    ensures RetrySpec(outcomes, start, maxRetries) == RetryRun(Succeeded, r + 1)
    ensures Waits(RetrySpec(outcomes, start, maxRetries)) == r
  {
    SucceedsAfterFrom(outcomes, start, 0, maxRetries, r);
  }

  lemma {:induction false} ExhaustedFrom(outcomes: nat -> Attempt, start: nat, attempt: nat, maxRetries: int)
    requires attempt < maxRetries
    requires forall j :: attempt <= j < maxRetries ==> AnswerAt(outcomes, start, j).Failed?
    ensures RetryFrom(outcomes, start, attempt, maxRetries)
      == RetryRun(GaveUp(AnswerAt(outcomes, start, maxRetries - 1).message), maxRetries)
    decreases maxRetries - attempt
  {
    if attempt < maxRetries - 1 {
      ExhaustedFrom(outcomes, start, attempt + 1, maxRetries);
    }
  }

  /** When every attempt fails the result carries the last error, after
      exactly `maxRetries` calls and `maxRetries - 1` pauses. */
  lemma RetryExhausted(outcomes: nat -> Attempt, start: nat, maxRetries: int)
    requires maxRetries >= 1 && FailsFrom(outcomes, start, maxRetries)
    ensures RetrySpec(outcomes, start, maxRetries)
      == RetryRun(GaveUp(AnswerAt(outcomes, start, maxRetries - 1).message), maxRetries)
    ensures Waits(RetrySpec(outcomes, start, maxRetries)) == maxRetries - 1
  {
    ExhaustedFrom(outcomes, start, 0, maxRetries);
  }

  lemma {:induction false} RetryFromShape(outcomes: nat -> Attempt, start: nat, attempt: nat, maxRetries: int)
    requires attempt < maxRetries
    requires forall j :: 0 <= j < attempt ==> AnswerAt(outcomes, start, j).Failed?
    ensures var run := RetryFrom(outcomes, start, attempt, maxRetries);
      && attempt < run.attempts <= maxRetries
      && FailsFrom(outcomes, start, run.attempts - 1)
      && (run.result.Succeeded? <==> AnswerAt(outcomes, start, run.attempts - 1).Fetched?)
      && (run.result.GaveUp? <==> !run.result.Succeeded?)
      && (run.result.GaveUp? ==>
            run.attempts == maxRetries && run.result.error == AnswerAt(outcomes, start, run.attempts - 1).message)
    decreases maxRetries - attempt
  {
    if AnswerAt(outcomes, start, attempt).Failed? && attempt < maxRetries - 1 {
      RetryFromShape(outcomes, start, attempt + 1, maxRetries);
    }
  }

  /** With at least one attempt allowed, the loop always returns: success
      exactly when the last call it made succeeded, every earlier call having
      failed, and giving up only once the bound is used up. */
  lemma RetryShape(outcomes: nat -> Attempt, start: nat, maxRetries: int)
    requires maxRetries >= 1
    ensures var run := RetrySpec(outcomes, start, maxRetries);
      && 1 <= run.attempts <= maxRetries
      && FailsFrom(outcomes, start, run.attempts - 1)
      && (run.result.Succeeded? <==> AnswerAt(outcomes, start, run.attempts - 1).Fetched?)
      && !run.result.NoResult?
      && (run.result.GaveUp? ==>
            run.attempts == maxRetries && run.result.error == AnswerAt(outcomes, start, run.attempts - 1).message)
  {
    RetryFromShape(outcomes, start, 0, maxRetries);
  }

  /** One turn of the loop, as `RetryFrom` takes it. */
  lemma RetryFromTurn(outcomes: nat -> Attempt, start: nat, attempt: nat, maxRetries: int)
    requires attempt < maxRetries
    ensures AnswerAt(outcomes, start, attempt).Fetched? ==>
      RetryFrom(outcomes, start, attempt, maxRetries) == RetryRun(Succeeded, attempt + 1)
    ensures AnswerAt(outcomes, start, attempt).Failed? && attempt < maxRetries - 1 ==>
      RetryFrom(outcomes, start, attempt, maxRetries) == RetryFrom(outcomes, start, attempt + 1, maxRetries)
    ensures AnswerAt(outcomes, start, attempt).Failed? && attempt == maxRetries - 1 ==>
      RetryFrom(outcomes, start, attempt, maxRetries)
        == RetryRun(GaveUp(AnswerAt(outcomes, start, attempt).message), attempt + 1)
  {
  }

  /** With no attempt allowed the loop body never runs and the result is `None`. */
  lemma RetryWithoutAttempts(outcomes: nat -> Attempt, start: nat, maxRetries: int)
    requires maxRetries <= 0
    ensures RetrySpec(outcomes, start, maxRetries) == RetryRun(NoResult, 0)
  {
  }

  /** The file a successful run leaves behind: the output template
      "{position:03d} - {safe_title}.%(ext)s" filled in with the extension of
      the payload the last call fetched. */
  function Payload(stem: string, outcomes: nat -> Attempt, start: nat, run: RetryRun): set<string> {
    if run.result.Succeeded? && run.attempts >= 1 && AnswerAt(outcomes, start, run.attempts - 1).Fetched?
    then {FillTemplate(stem, AnswerAt(outcomes, start, run.attempts - 1).ext)}
    else {}
  }

  /** The loop returns success at attempt `attempt`: one more call than
      attempts before it, a pause after each earlier attempt, and the fetched
      payload's file. This is the unfolding the loop's proof uses. */
  lemma SucceedsAtTurn(outcomes: nat -> Attempt, start: nat, attempt: nat, maxRetries: int, stem: string)
    requires attempt < maxRetries && AnswerAt(outcomes, start, attempt).Fetched?
    requires RetrySpec(outcomes, start, maxRetries) == RetryFrom(outcomes, start, attempt, maxRetries)
    ensures var run := RetrySpec(outcomes, start, maxRetries);
      && run == RetryRun(Succeeded, attempt + 1) && Waits(run) == attempt
      && Payload(stem, outcomes, start, run) == {FillTemplate(stem, AnswerAt(outcomes, start, attempt).ext)}
  {
    RetryFromTurn(outcomes, start, attempt, maxRetries);
  }

  /** The loop gives up at its last attempt with that attempt's error, a pause
      after each earlier attempt, and no file. This is the unfolding the
      loop's proof uses. */
  lemma GivesUpAtTurn(outcomes: nat -> Attempt, start: nat, attempt: nat, maxRetries: int, stem: string)
    requires attempt == maxRetries - 1 && AnswerAt(outcomes, start, attempt).Failed?
    requires RetrySpec(outcomes, start, maxRetries) == RetryFrom(outcomes, start, attempt, maxRetries)
    ensures var run := RetrySpec(outcomes, start, maxRetries);
      && run == RetryRun(GaveUp(AnswerAt(outcomes, start, attempt).message), attempt + 1) && Waits(run) == attempt
      && Payload(stem, outcomes, start, run) == {}
  {
    RetryFromTurn(outcomes, start, attempt, maxRetries);
  }

  /** The retry loop: downloads `url`, pausing `delay` seconds after each failed
      attempt but the last; the result, the calls, the pauses and the new file
      are those of `RetrySpec`. */
  method DownloadWithRetry(dl: Downloader, clock: Clock, dir: Directory, url: string,
                           position: int, title: string, maxRetries: int := 3, delay: int := 5)
    returns (result: RetryResult)
    modifies dl, clock, dir
    ensures var run := RetrySpec(dl.outcomes, |old(dl.calls)|, maxRetries);
      && result == run.result
      && dl.calls == old(dl.calls) + Repeat(url, run.attempts)
      && clock.sleeps == old(clock.sleeps) + Repeat(delay, Waits(run))
      && dir.names == old(dir.names) + Payload(OutputStem(position, title), dl.outcomes, |old(dl.calls)|, run)
  {
    ghost var start := |dl.calls|;
    var stem := OutputStem(position, title);
    var attempt := 0;
    while attempt < maxRetries
      invariant attempt == 0 || attempt < maxRetries
      invariant dl.calls == old(dl.calls) + Repeat(url, attempt)
      invariant clock.sleeps == old(clock.sleeps) + Repeat(delay, attempt)
      invariant dir.names == old(dir.names)
      invariant RetrySpec(dl.outcomes, start, maxRetries) == RetryFrom(dl.outcomes, start, attempt, maxRetries)
      decreases maxRetries - attempt
    {
      var a := dl.Download(url);
      assert a == AnswerAt(dl.outcomes, start, attempt);
      if a.Fetched? {
        SucceedsAtTurn(dl.outcomes, start, attempt, maxRetries, stem);
        // the downloader writes the payload under the output template
        dir.Create(FillTemplate(stem, a.ext));
        return Succeeded;
      }
      if attempt < maxRetries - 1 {
        RetryFromTurn(dl.outcomes, start, attempt, maxRetries);
        clock.Sleep(delay);
      } else {
        GivesUpAtTurn(dl.outcomes, start, attempt, maxRetries, stem);
        return GaveUp(a.message);
      }
      attempt := attempt + 1;
    }
    return NoResult;
  }
}
