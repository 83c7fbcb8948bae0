/**
 * verify-review/src/main.rs as it runs: each function of the binary as a
 * method over the live filesystem, proved against the functions of module
 * `Review` that describe its effect. `sha256::digest`, the editor and the
 * prompts arrive as parameters.
 */
module ReviewTool {
  import opened Wrappers
  import opened Text
  import opened Fs
  import opened Snapshot
  import opened Review

  /** `hash_file`: read the file (a failure panics, `None`), trim it, digest it. */
  method HashFileOf(fsys: FileSystem, p: Path, digest: string -> Hash) returns (h: Option<Hash>)
    ensures h == HashFile(fsys.State(), p, digest)
  {
    var text := fsys.ReadToString(p);
    match text
    case None => h := None;
    case Some(s) => h := Some(digest(Trim(s)));
  }

  lemma PrefixGrows<T>(s: seq<T>, i: nat)
    requires i < |s|
    ensures s[..i] + [s[i]] == s[..i + 1]
  {
  }

  lemma SuffixShrinks<T>(s: seq<T>, i: nat)
    requires i < |s|
    ensures s[i..][0] == s[i] && s[i..][1..] == s[i + 1..]
  {
  }

  /** The closure `find_reviewable_tests` maps over the glob's paths; `None` is a panic. */
  method RecordOf(fsys: FileSystem, received: Path, digest: string -> Hash) returns (test: Option<Record>)
    ensures test == RecordFor(fsys.State(), received, digest)
  {
    var receivedSha256 := HashFileOf(fsys, received, digest);
    if receivedSha256.None? {
      return None;
    }
    var baseName := BaseName(received.name);
    var accepted := Path(received.dir, baseName + AcceptedSuffix);
    var acceptedSha256 := HashFileOf(fsys, accepted, digest);
    if acceptedSha256.None? {
      return None;
    }
    var alreadyMatches := acceptedSha256.value == receivedSha256.value;
    test := Some(Record(baseName, accepted, acceptedSha256.value, received, receivedSha256.value, alreadyMatches));
  }

  /**
   * `find_reviewable_tests` over the paths the glob yields: one record per
   * path, in order, or `None` as soon as a read panics.
   */
  method FindReviewableTests(fsys: FileSystem, entries: seq<Path>, digest: string -> Hash)
    returns (found: Option<seq<Record>>)
    ensures found == Discover(fsys.State(), entries, digest)
  {
    ghost var d := fsys.State();
    var tests: seq<Record> := [];
    for i := 0 to |entries|
      invariant Discover(d, entries[..i], digest) == Some(tests)
    {
      PrefixGrows(entries, i);
      var test := RecordOf(fsys, entries[i], digest);
      DiscoverSnoc(d, entries[..i], entries[i], digest);
      if test.None? {
        DiscoverAborts(d, entries, i, digest);
        return None;
      }
      tests := tests + [test.value];
    }
    assert entries[..|entries|] == entries;
    found := Some(tests);
  }

  /** `review`: hash both files, let the editor run, hash the accepted file again, classify. */
  method ReviewTest(fsys: FileSystem, t: Record, digest: string -> Hash, run: EditorRun)
    returns (outcome: ReviewOutcome)
    modifies fsys
    ensures Reviewed(outcome, fsys.State()) == ReviewOnce(old(fsys.State()), t, digest, run)
  {
    var initialAccepted := HashFileOf(fsys, t.accepted, digest);
    if initialAccepted.None? {
      return ReviewPanic;
    }
    var initialReceived := HashFileOf(fsys, t.received, digest);
    if initialReceived.None? {
      return ReviewPanic;
    }
    match run
    case EditorError =>
      outcome := ReviewError;
    case EditorExited(after) =>
      fsys.Edit(t.accepted, after);
      var finalAccepted := HashFileOf(fsys, t.accepted, digest);
      if finalAccepted.None? {
        return ReviewPanic;
      }
      outcome := Classified(Classify(initialAccepted.value, initialReceived.value, finalAccepted.value));
  }

  /** The pre-step of `read_and_review_tests`: delete every already matching received file. */
  method RemoveMatchingReceived(fsys: FileSystem, tests: seq<Record>) returns (ok: bool)
    modifies fsys
    ensures RemoveMatching(old(fsys.State()), tests) == (if ok then Ok(fsys.State()) else Fault(fsys.State()))
  {
    var i := 0;
    while i < |tests|
      invariant 0 <= i <= |tests|
      invariant RemoveMatching(fsys.State(), tests[i..]) == RemoveMatching(old(fsys.State()), tests)
    {
      SuffixShrinks(tests, i);
      if tests[i].alreadyMatches {
        ok := fsys.RemoveFile(tests[i].received);
        if !ok {
          return;
        }
      }
      i := i + 1;
    }
    ok := true;
  }

  /**
   * One pass of the `while` loop of `read_and_review_tests`: pick, review,
   * confirm. `stop` says how the session ended if this pass ended it;
   * otherwise `rest` is the new list of pending records.
   */
  method Pass(fsys: FileSystem, pending: seq<Record>, round: Round, digest: string -> Hash)
    returns (stop: Option<SessionEnd>, rest: seq<Record>)
    requires pending != []
    modifies fsys
    ensures Step(old(fsys.State()), pending, round, digest) ==
      if stop.Some? then Stop(stop.value, fsys.State()) else Next(fsys.State(), rest)
  {
    rest := pending;
    match round.selection
    case Cancel =>
      return Some(SelectionCancelled), rest;
    case Pick(index) =>
      var t := pending[index % |pending|];
      var outcome := ReviewTest(fsys, t, digest, round.editor);
      match outcome
      case ReviewPanic =>
        return Some(Panicked), rest;
      case ReviewError =>
        return Some(ReviewFailed), rest;
      case Classified(result) =>
        if result == Match || round.answer == Yes {
          rest := Without(pending, t);
          var ok := fsys.RemoveFile(t.received);
          if !ok {
            return Some(Panicked), rest;
          }
        }
        stop := None;
  }

  /**
   * The `while` loop of `read_and_review_tests`, consuming one round of
   * input per pass; when the rounds run out with records still pending the
   * session ends as `ScriptExhausted`.
   */
  method ReviewLoop(fsys: FileSystem, tests: seq<Record>, digest: string -> Hash, rounds: seq<Round>)
    returns (end: SessionEnd)
    modifies fsys
    ensures var r := Session(old(fsys.State()), tests, rounds, digest);
      end == r.end && fsys.State() == r.disk
  {
    var pending := tests;
    var k := 0;
    while pending != []
      invariant 0 <= k <= |rounds|
      invariant Session(fsys.State(), pending, rounds[k..], digest) == Session(old(fsys.State()), tests, rounds, digest)
      decreases |rounds| - k
    {
      if k == |rounds| {
        return ScriptExhausted;
      }
      SessionUnfolds(fsys.State(), pending, rounds, k, digest);
      var stop, rest := Pass(fsys, pending, rounds[k], digest);
      if stop.Some? {
        return stop.value;
      }
      pending := rest;
      k := k + 1;
    }
    end := AllReviewed;
  }

  /** `read_and_review_tests`: discovery, the pre-step, then the loop over the records still to review. */
  method ReadAndReviewTests(fsys: FileSystem, entries: seq<Path>, digest: string -> Hash, rounds: seq<Round>)
    returns (end: SessionEnd)
    modifies fsys
    ensures var r := ReadAndReview(old(fsys.State()), entries, digest, rounds);
      end == r.end && fsys.State() == r.disk
  {
    var found := FindReviewableTests(fsys, entries, digest);
    if found.None? {
      return Panicked;
    }
    var tests := found.value;
    if tests == [] {
      return NothingToReview;
    }
    var ok := RemoveMatchingReceived(fsys, tests);
    if !ok {
      return Panicked;
    }
    end := ReviewLoop(fsys, Unmatched(tests), digest, rounds);
  }

  /** The `for_each` of `clean`: delete each record's received file. */
  method RemoveEveryReceived(fsys: FileSystem, tests: seq<Record>) returns (ok: bool)
    modifies fsys
    ensures RemoveAllReceived(old(fsys.State()), tests) == (if ok then Ok(fsys.State()) else Fault(fsys.State()))
  {
    var i := 0;
    while i < |tests|
      invariant 0 <= i <= |tests|
      invariant RemoveAllReceived(fsys.State(), tests[i..]) == RemoveAllReceived(old(fsys.State()), tests)
    {
      SuffixShrinks(tests, i);
      ok := fsys.RemoveFile(tests[i].received);
      if !ok {
        return;
      }
      i := i + 1;
    }
    ok := true;
  }

  /** `clean`: discovery, then delete every received file. */
  method Clean(fsys: FileSystem, entries: seq<Path>, digest: string -> Hash) returns (ok: bool)
    modifies fsys
    ensures CleanSpec(old(fsys.State()), entries, digest) == (if ok then Ok(fsys.State()) else Fault(fsys.State()))
  {
    var found := FindReviewableTests(fsys, entries, digest);
    if found.None? {
      return false;
    }
    ok := RemoveEveryReceived(fsys, found.value);
  }

  /** The `for_each` of `auto_accept`: replace each accepted file by its received file. */
  method AcceptEvery(fsys: FileSystem, tests: seq<Record>) returns (ok: bool)
    modifies fsys
    ensures AcceptAll(old(fsys.State()), tests) == (if ok then Ok(fsys.State()) else Fault(fsys.State()))
  {
    var i := 0;
    while i < |tests|
      invariant 0 <= i <= |tests|
      invariant AcceptAll(fsys.State(), tests[i..]) == AcceptAll(old(fsys.State()), tests)
    {
      SuffixShrinks(tests, i);
      ok := fsys.RemoveFile(tests[i].accepted);
      if !ok {
        return;
      }
      ok := fsys.Rename(tests[i].received, tests[i].accepted);
      if !ok {
        return;
      }
      i := i + 1;
    }
    ok := true;
  }

  /** `auto_accept`: discovery, then replace every accepted file by its received file. */
  method AutoAccept(fsys: FileSystem, entries: seq<Path>, digest: string -> Hash) returns (ok: bool)
    modifies fsys
    ensures AutoAcceptSpec(old(fsys.State()), entries, digest) == (if ok then Ok(fsys.State()) else Fault(fsys.State()))
  {
    var found := FindReviewableTests(fsys, entries, digest);
    if found.None? {
      return false;
    }
    ok := AcceptEvery(fsys, found.value);
  }

  /** `main`: `--clean` first, then `--accept`, otherwise the interactive review. */
  method Run(fsys: FileSystem, cli: Cli, entries: seq<Path>, digest: string -> Hash, rounds: seq<Round>)
    returns (outcome: RunOutcome)
    modifies fsys
    ensures Ran(outcome, fsys.State()) == Dispatch(cli, old(fsys.State()), entries, digest, rounds)
  {
    if cli.clean {
      var ok := Clean(fsys, entries, digest);
      outcome := Bulk(ok);
    } else if cli.accept {
      var ok := AutoAccept(fsys, entries, digest);
      outcome := Bulk(ok);
    } else {
      var end := ReadAndReviewTests(fsys, entries, digest, rounds);
      outcome := Interactive(end);
    }
  }
}
