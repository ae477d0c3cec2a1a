// The download-completion predicate and the settle loop of ferbot/main.py.
// The wall clock and the directory listing are not observed directly: a wait
// is given the trace of what each pass of the loop would see, one Poll per
// pass. A finite trace that runs out before the loop returns stands for a
// loop that is still waiting.

module Downloads {
  import opened Wrappers
  import opened Text

  /** The lock-file marker a Brave browser leaves in an unfinished download's name. */
  const BraveMarker := ".com.brave.Browser"
  /** The suffix Chromium gives a partial download. */
  const PartialSuffix := ".crdownload"

  /** A staged file name is an unfinished download. */
  function IsIncomplete(name: string): (r: bool)
    ensures r <==> Occurs(BraveMarker, name) || EndsWith(name, PartialSuffix)
  {
    if Contains(name, BraveMarker) then true
    else if EndsWith(name, PartialSuffix) then true
    else false
  }

  /** What one pass of the loop observes: the elapsed time read by the loop
      test, the elapsed time read again to size the nap, and the listing of
      the staging directory taken after the nap. */
  datatype Poll = Poll(checkedAt: real, sleptAt: real, listing: seq<string>)

  /** What the wait ends in: the listing it returns (the empty listing on
      timeout), or still polling when the trace ends. */
  datatype WaitOutcome = Returned(files: seq<string>) | StillWaiting

  /** A timeout is in force when it is given and not zero. */
  predicate TimeoutSet(timeout: Option<real>) {
    timeout.Some? && timeout.value != 0.0
  }

  /** An expected count is in force when it is given and not zero. */
  predicate CountSet(nfiles: Option<int>) {
    nfiles.Some? && nfiles.value != 0
  }

  /** The loop test: no timeout in force, or the elapsed time is below it. */
  predicate KeepsPolling(timeout: Option<real>, elapsed: real) {
    !TimeoutSet(timeout) || elapsed < timeout.value
  }

  /** A listing ends the wait: it has the expected count, when one is in
      force, and none of its entries is an unfinished download. */
  predicate Settled(files: seq<string>, nfiles: Option<int>) {
    && (!CountSet(nfiles) || |files| == nfiles.value)
    && !(exists f :: f in files && IsIncomplete(f))
  }

  /** How long a pass sleeps: the elapsed time clamped to [0, 0.5] seconds. */
  function NapLength(elapsed: real): (d: real)
    ensures 0.0 <= d <= 0.5
    ensures 0.0 <= elapsed <= 0.5 ==> d == elapsed
    ensures elapsed > 0.5 ==> d == 0.5
    ensures elapsed < 0.0 ==> d == 0.0
  {
    if elapsed < 0.0 then 0.0 else if elapsed > 0.5 then 0.5 else elapsed
  }

  /** The outcome of waiting on the trace `polls`, pass by pass. */
  function Wait(polls: seq<Poll>, timeout: Option<real>, nfiles: Option<int>): WaitOutcome {
    if polls == [] then StillWaiting
    else if !KeepsPolling(timeout, polls[0].checkedAt) then Returned([])
    else if Settled(polls[0].listing, nfiles) then Returned(polls[0].listing)
    else Wait(polls[1..], timeout, nfiles)
  }

  /** The loop of wait_downloads over a trace. It also reports the naps it
      took, one per pass that got past the loop test. */
  method WaitDownloads(polls: seq<Poll>, timeout: Option<real>, nfiles: Option<int>)
    returns (outcome: WaitOutcome, naps: seq<real>)
    ensures outcome == Wait(polls, timeout, nfiles)
    ensures |naps| <= |polls|
    ensures forall j :: 0 <= j < |naps| ==> naps[j] == NapLength(polls[j].sleptAt)
    ensures forall d :: d in naps ==> 0.0 <= d <= 0.5
    ensures forall k: nat :: FirstStopAt(polls, timeout, nfiles, k) ==>
      |naps| == (if k < |polls| && KeepsPolling(timeout, polls[k].checkedAt) then k + 1 else k)
  {
    naps := [];
    var i := 0;
    while i < |polls|
      invariant 0 <= i <= |polls|
      invariant Wait(polls, timeout, nfiles) == Wait(polls[i..], timeout, nfiles)
      invariant |naps| == i
      invariant forall j :: 0 <= j < i ==> naps[j] == NapLength(polls[j].sleptAt)
      invariant forall j :: 0 <= j < i ==>
        KeepsPolling(timeout, polls[j].checkedAt) && !Settled(polls[j].listing, nfiles)
    {
      assert polls[i..][1..] == polls[i + 1..];
      if !KeepsPolling(timeout, polls[i].checkedAt) {
        return Returned([]), naps;
      }
      naps := naps + [NapLength(polls[i].sleptAt)];
      var files := polls[i].listing;
      if CountSet(nfiles) && |files| != nfiles.value {
        i := i + 1;
        continue;
      }
      if !(exists f :: f in files && IsIncomplete(f)) {
        return Returned(files), naps;
      }
      i := i + 1;
    }
    outcome := StillWaiting;
  }

  /** Poll `k` is the first pass at which the loop stops: every earlier pass
      passed the loop test and saw an unsettled listing, and pass `k` (if the
      trace reaches it) either fails the loop test or sees a settled listing. */
  ghost predicate FirstStopAt(polls: seq<Poll>, timeout: Option<real>, nfiles: Option<int>, k: nat) {
    && k <= |polls|
    && (forall j :: 0 <= j < k ==>
          KeepsPolling(timeout, polls[j].checkedAt) && !Settled(polls[j].listing, nfiles))
    && (k < |polls| ==>
          !KeepsPolling(timeout, polls[k].checkedAt) || Settled(polls[k].listing, nfiles))
  }

  /** The wait returns the listing of the earliest qualifying pass, the empty
      listing if the timeout is reached first, and keeps waiting if the trace
      has no stopping pass. */
  lemma {:induction false} WaitStopsAtFirstQualifyingPoll(
    polls: seq<Poll>, timeout: Option<real>, nfiles: Option<int>, k: nat)
    requires FirstStopAt(polls, timeout, nfiles, k)
    ensures Wait(polls, timeout, nfiles) ==
      if k == |polls| then StillWaiting
      else if !KeepsPolling(timeout, polls[k].checkedAt) then Returned([])
      else Returned(polls[k].listing)
  {
    if k > 0 {
      assert FirstStopAt(polls[1..], timeout, nfiles, k - 1) by {
        forall j | 0 <= j < k - 1
          ensures KeepsPolling(timeout, polls[1..][j].checkedAt) && !Settled(polls[1..][j].listing, nfiles)
        {
          assert polls[1..][j] == polls[j + 1];
        }
      }
      WaitStopsAtFirstQualifyingPoll(polls[1..], timeout, nfiles, k - 1);
    }
  }

  /** A returned listing is either empty or settled: so every returned entry
      is a finished download, and when a count is in force a non-empty result
      has exactly that many entries. */
  lemma {:induction false} WaitReturnsSettledListing(polls: seq<Poll>, timeout: Option<real>, nfiles: Option<int>)
    ensures Wait(polls, timeout, nfiles).Returned? ==>
      var files := Wait(polls, timeout, nfiles).files;
      && (files == [] || Settled(files, nfiles))
      && (forall f :: f in files ==> !IsIncomplete(f))
      && (CountSet(nfiles) && files != [] ==> |files| == nfiles.value)
  {
    if polls != [] && KeepsPolling(timeout, polls[0].checkedAt) && !Settled(polls[0].listing, nfiles) {
      WaitReturnsSettledListing(polls[1..], timeout, nfiles);
    }
  }

  /** Without a timeout the wait never gives up: it keeps waiting exactly
      when no pass sees a settled listing, and whatever it returns is settled
      (an empty listing only when that empty listing settled). */
  lemma {:induction false} WaitWithoutTimeoutNeverGivesUp(
    polls: seq<Poll>, timeout: Option<real>, nfiles: Option<int>)
    requires !TimeoutSet(timeout)
    ensures Wait(polls, timeout, nfiles).StillWaiting? <==>
      forall j :: 0 <= j < |polls| ==> !Settled(polls[j].listing, nfiles)
    ensures Wait(polls, timeout, nfiles).Returned? ==>
      Settled(Wait(polls, timeout, nfiles).files, nfiles)
  {
    if polls != [] {
      WaitWithoutTimeoutNeverGivesUp(polls[1..], timeout, nfiles);
      if !Settled(polls[0].listing, nfiles) {
        assert forall j :: 1 <= j < |polls| ==> polls[j] == polls[1..][j - 1];
      }
    }
  }

  /** With a timeout in force, once a pass reads an elapsed time at or above
      it before any listing settled, the wait returns the empty listing. */
  lemma {:induction false} WaitGivesUpAtTimeout(
    polls: seq<Poll>, timeout: Option<real>, nfiles: Option<int>, k: nat)
    requires TimeoutSet(timeout)
    requires k < |polls| && polls[k].checkedAt >= timeout.value
    requires forall j :: 0 <= j < k ==> !Settled(polls[j].listing, nfiles)
    ensures Wait(polls, timeout, nfiles) == Returned([])
  {
    if k > 0 && KeepsPolling(timeout, polls[0].checkedAt) {
      assert forall j :: 0 <= j < k - 1 ==> polls[1..][j] == polls[j + 1];
      WaitGivesUpAtTimeout(polls[1..], timeout, nfiles, k - 1);
    }
  }

  /** Waiting with an expected count of one and no timeout, as the folder
      branch does, either keeps waiting or returns exactly one finished file. */
  lemma SingleFileWait(polls: seq<Poll>)
    ensures Wait(polls, None, Some(1)).Returned? ==>
      |Wait(polls, None, Some(1)).files| == 1 && !IsIncomplete(Wait(polls, None, Some(1)).files[0])
  {
    WaitWithoutTimeoutNeverGivesUp(polls, None, Some(1));
  }

  /** Whether the first stopping pass sees a settled empty listing or finds
      the timeout reached, the wait returns the same empty listing: the
      caller cannot tell the two apart. */
  lemma EmptyListingLooksLikeTimeout(polls: seq<Poll>, timeout: Option<real>, nfiles: Option<int>, k: nat)
    requires FirstStopAt(polls, timeout, nfiles, k) && k < |polls|
    requires polls[k].listing == [] || !KeepsPolling(timeout, polls[k].checkedAt)
    ensures Wait(polls, timeout, nfiles) == Returned([])
  {
    WaitStopsAtFirstQualifyingPoll(polls, timeout, nfiles, k);
  }

  /** A partial download at the first pass and the finished file at the next
      pass, 0.6 s later: the wait returns the finished file. */
  lemma PartialThenFinishedDownload()
    ensures Wait([Poll(0.0, 0.0, ["report.pdf.crdownload"]), Poll(0.6, 0.6, ["report.pdf"])], Some(5.0), Some(1))
      == Returned(["report.pdf"])
  {
    assert IsIncomplete("report.pdf.crdownload");
    assert !IsIncomplete("report.pdf") by {
      assert !EndsWith("report.pdf", PartialSuffix);
    }
    var polls := [Poll(0.0, 0.0, ["report.pdf.crdownload"]), Poll(0.6, 0.6, ["report.pdf"])];
    assert polls[1..] == [Poll(0.6, 0.6, ["report.pdf"])];
  }
}
