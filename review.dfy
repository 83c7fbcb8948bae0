/**
 * verify-review/src/main.rs, the pure part: discovery of reviewable pairs,
 * content hashing, the three-way classification of an editor session, and
 * the state machine of an interactive review session with the user's
 * answers, the editor's effect and `sha256::digest` taken as inputs.
 */
module Review {
  import opened Wrappers
  import opened Text
  import opened Fs
  import opened Snapshot

  /** A hex digest as `sha256::digest` returns it. */
  type Hash = string

  datatype ReviewResult = Match | NoMatch | NoChanges

  /** `ReviewableTest`: one received file and its accepted sibling. */
  datatype Record = Record(
    baseName: string,
    accepted: Path,
    acceptedSha256: Hash,
    received: Path,
    receivedSha256: Hash,
    alreadyMatches: bool)

  // ---------------------------------------------------------------- hashing

  /** `hash_file`: the digest of the trimmed text; reading anything but a file panics (`None`). */
  function HashFile(d: Disk, p: Path, digest: string -> Hash): Option<Hash> {
    if p in d.files then Some(digest(Trim(d.files[p]))) else None
  }

  /** Two files whose texts differ only in white space at either end hash equal. */
  lemma HashIgnoresSurroundingWhitespace(
    d: Disk, p: Path, e: Disk, q: Path, a: string, b: string, digest: string -> Hash)
    requires p in d.files && q in e.files
    requires AllWhitespace(a) && AllWhitespace(b) && d.files[p] == a + e.files[q] + b
    ensures HashFile(d, p, digest) == HashFile(e, q, digest)
  {
    TrimIgnoresSurroundingWhitespace(a, e.files[q], b);
  }

  // -------------------------------------------------------------- discovery

  /** `file_name().replace(".received.json", "")`. */
  function BaseName(name: string): string {
    RemoveAll(name, ReceivedSuffix)
  }

  /** `received.with_file_name(format!("{}.accepted.json", base_name))`. */
  function SiblingAccepted(received: Path): Path {
    Path(received.dir, BaseName(received.name) + AcceptedSuffix)
  }

  /** A received file named `<b>.received.json` has base name `b` when the marker does not occur earlier. */
  lemma BaseNameOfPlainName(b: string)
    requires forall i :: 0 <= i < |b| ==> !OccursAt(b + ReceivedSuffix, ReceivedSuffix, i)
    ensures BaseName(b + ReceivedSuffix) == b
  {
    assert b + ReceivedSuffix + [] == b + ReceivedSuffix;
    RemoveAllAfterPlainPrefix(b, ReceivedSuffix, []);
  }

  /** Every occurrence of the marker is removed, not only the trailing one. */
  lemma BaseNameRemovesEveryMarker()
    ensures BaseName("t" + ReceivedSuffix + ReceivedSuffix) == "t"
  {
    var p := ReceivedSuffix;
    var s := "t" + p + p;
    assert !OccursAt(s, p, 0) by {
      assert s[0] == 't' && p[0] == '.';
    }
    RemoveAllAfterPlainPrefix("t", p, p);
    assert [] + p + [] == p;
    RemoveAllAfterPlainPrefix([], p, []);
    assert RemoveAll([], p) == [];
  }

  /**
   * Hence two received files of one directory can share an accepted sibling:
   * `t.received.json` and `t.received.json.received.json` both pair with
   * `t.accepted.json`.
   */
  lemma MarkerTwiceSharesSibling(dir: Dir)
    ensures SiblingAccepted(Path(dir, "t" + ReceivedSuffix))
         == SiblingAccepted(Path(dir, "t" + ReceivedSuffix + ReceivedSuffix))
  {
    assert !OccursAt("t" + ReceivedSuffix, ReceivedSuffix, 0) by {
      assert ("t" + ReceivedSuffix)[0] == 't' && ReceivedSuffix[0] == '.';
    }
    BaseNameOfPlainName("t");
    BaseNameRemovesEveryMarker();
  }

  /** What discovery promises about a record it returns, given the disk it read. */
  ghost predicate Describes(d: Disk, t: Record, digest: string -> Hash) {
    && t.received in d.files
    && t.accepted in d.files
    && t.baseName == BaseName(t.received.name)
    && t.accepted == Path(t.received.dir, t.baseName + AcceptedSuffix)
    && t.receivedSha256 == digest(Trim(d.files[t.received]))
    && t.acceptedSha256 == digest(Trim(d.files[t.accepted]))
    && t.alreadyMatches == (t.acceptedSha256 == t.receivedSha256)
  }

  /** Both the received file and its accepted sibling can be read. */
  predicate Pairable(d: Disk, received: Path) {
    received in d.files && SiblingAccepted(received) in d.files
  }

  /**
   * The closure given to `filter_map` in `find_reviewable_tests`. The
   * accepted sibling is hashed before its existence is checked, so a missing
   * one panics (`None`) rather than being skipped; once that hash has
   * succeeded the `accepted.exists()` test always holds.
   */
  function RecordFor(d: Disk, received: Path, digest: string -> Hash): Option<Record> {
    match HashFile(d, received, digest)
    case None => None
    case Some(receivedSha256) =>
      var baseName := BaseName(received.name);
      var accepted := Path(received.dir, baseName + AcceptedSuffix);
      match HashFile(d, accepted, digest)
      case None => None
      case Some(acceptedSha256) =>
        Some(Record(baseName, accepted, acceptedSha256, received, receivedSha256,
                    acceptedSha256 == receivedSha256))
  }

  /** The closure succeeds exactly when both files can be read, and its record describes them. */
  lemma RecordForDescribes(d: Disk, received: Path, digest: string -> Hash)
    ensures RecordFor(d, received, digest).Some? <==> Pairable(d, received)
    ensures RecordFor(d, received, digest).Some? ==>
      RecordFor(d, received, digest).value.received == received
      && Describes(d, RecordFor(d, received, digest).value, digest)
  {
  }

  /** `collect` into a vector, where a `None` stands for a panic of the closure: it aborts the whole. */
  function AllSome(os: seq<Option<Record>>): (r: Option<seq<Record>>)
    ensures r.Some? <==> forall i :: 0 <= i < |os| ==> os[i].Some?
    ensures r.Some? ==> |r.value| == |os| && forall i :: 0 <= i < |os| ==> r.value[i] == os[i].value
    decreases |os|
  {
    if os == [] then Some([])
    else
      match os[0]
      case None => None
      case Some(t) =>
        match AllSome(os[1..])
        case None => None
        case Some(rest) => Some([t] + rest)
  }

  /** `find_reviewable_tests` over the paths the glob yields, in order; any panic makes it `None`. */
  function Discover(d: Disk, entries: seq<Path>, digest: string -> Hash): (r: Option<seq<Record>>)
    ensures r.Some? <==> forall i :: 0 <= i < |entries| ==> RecordFor(d, entries[i], digest).Some?
    ensures r.Some? ==> |r.value| == |entries|
    ensures r.Some? ==> forall i :: 0 <= i < |entries| ==> r.value[i] == RecordFor(d, entries[i], digest).value
  {
    var os := seq(|entries|, i requires 0 <= i < |entries| => RecordFor(d, entries[i], digest));
    assert forall i :: 0 <= i < |entries| ==> os[i] == RecordFor(d, entries[i], digest);
    AllSome(os)
  }

  /** Discovery stops at the first path the closure panics on. */
  lemma DiscoverAborts(d: Disk, entries: seq<Path>, i: nat, digest: string -> Hash)
    requires i < |entries| && RecordFor(d, entries[i], digest).None?
    ensures Discover(d, entries, digest) == None
  {
  }

  /** Discovery is the records the closure yields, one per path, when it yields one for each. */
  lemma DiscoverCollects(d: Disk, entries: seq<Path>, tests: seq<Record>, digest: string -> Hash)
    requires |tests| == |entries|
    requires forall j :: 0 <= j < |entries| ==> RecordFor(d, entries[j], digest) == Some(tests[j])
    ensures Discover(d, entries, digest) == Some(tests)
  {
    assert forall j :: 0 <= j < |entries| ==> RecordFor(d, entries[j], digest).Some?;
    var r := Discover(d, entries, digest);
    assert |r.value| == |tests|;
    assert forall j :: 0 <= j < |tests| ==> r.value[j] == tests[j];
    assert r.value == tests;
  }

  /** Discovery over one more path: the closure's record is appended, or its panic aborts the whole. */
  lemma DiscoverSnoc(d: Disk, entries: seq<Path>, e: Path, digest: string -> Hash)
    requires Discover(d, entries, digest).Some?
    ensures Discover(d, entries + [e], digest) ==
      match RecordFor(d, e, digest)
      case None => None
      case Some(t) => Some(Discover(d, entries, digest).value + [t])
  {
    var es := entries + [e];
    if RecordFor(d, e, digest).None? {
      DiscoverAborts(d, es, |entries|, digest);
    } else {
      var ts := Discover(d, entries, digest).value + [RecordFor(d, e, digest).value];
      forall j | 0 <= j < |es| ensures RecordFor(d, es[j], digest) == Some(ts[j]) {
        if j < |entries| {
          assert es[j] == entries[j];
        }
      }
      DiscoverCollects(d, es, ts, digest);
    }
  }

  /** A received file with no accepted sibling aborts discovery instead of being skipped. */
  lemma OrphanAbortsDiscovery(d: Disk, entries: seq<Path>, i: nat, digest: string -> Hash)
    requires i < |entries| && SiblingAccepted(entries[i]) !in d.files
    ensures Discover(d, entries, digest) == None
  {
    RecordForDescribes(d, entries[i], digest);
  }

  /** Discovery succeeds exactly when every received file and its sibling can be read. */
  lemma DiscoverSucceeds(d: Disk, entries: seq<Path>, digest: string -> Hash)
    ensures Discover(d, entries, digest).Some? <==> forall i :: 0 <= i < |entries| ==> Pairable(d, entries[i])
  {
    forall i | 0 <= i < |entries| ensures RecordFor(d, entries[i], digest).Some? <==> Pairable(d, entries[i]) {
      RecordForDescribes(d, entries[i], digest);
    }
  }

  /** Discovery succeeds exactly when every received file and its sibling can be read, and then describes them. */
  lemma DiscoveryDescribesEveryEntry(d: Disk, entries: seq<Path>, digest: string -> Hash)
    ensures Discover(d, entries, digest).Some? <==> forall i :: 0 <= i < |entries| ==> Pairable(d, entries[i])
    ensures Discover(d, entries, digest).Some? ==> forall i :: 0 <= i < |entries| ==>
      Discover(d, entries, digest).value[i].received == entries[i]
      && Describes(d, Discover(d, entries, digest).value[i], digest)
  {
    forall i | 0 <= i < |entries| ensures RecordFor(d, entries[i], digest).Some? <==> Pairable(d, entries[i]) {
      RecordForDescribes(d, entries[i], digest);
    }
  }

  /** Each record found pairs its path with that path's accepted sibling, both on disk. */
  lemma DiscoveredPairs(d: Disk, entries: seq<Path>, digest: string -> Hash)
    requires Discover(d, entries, digest).Some?
    ensures var tests := Discover(d, entries, digest).value;
      |tests| == |entries| &&
      forall i :: 0 <= i < |entries| ==>
        && tests[i].received == entries[i] && tests[i].accepted == SiblingAccepted(entries[i])
        && entries[i] in d.files && SiblingAccepted(entries[i]) in d.files
  {
    forall i | 0 <= i < |entries|
      ensures RecordFor(d, entries[i], digest).value.received == entries[i]
      ensures RecordFor(d, entries[i], digest).value.accepted == SiblingAccepted(entries[i])
      ensures entries[i] in d.files && SiblingAccepted(entries[i]) in d.files
    {
      RecordForDescribes(d, entries[i], digest);
    }
  }

  /** The received files of the records found are exactly the paths the glob yielded. */
  lemma DiscoveredReceivedPaths(d: Disk, entries: seq<Path>, digest: string -> Hash)
    requires Discover(d, entries, digest).Some?
    ensures ReceivedPaths(Discover(d, entries, digest).value) == set p | p in entries
  {
    var tests := Discover(d, entries, digest).value;
    DiscoveredPairs(d, entries, digest);
    forall p | p in entries ensures p in ReceivedPaths(tests) {
      var i :| 0 <= i < |entries| && entries[i] == p;
      assert tests[i] in tests;
    }
  }

  /** The glob's guarantees: distinct paths, each named `*.received.json`. */
  ghost predicate GlobResult(entries: seq<Path>) {
    && (forall i :: 0 <= i < |entries| ==> EndsWith(entries[i].name, ReceivedSuffix))
    && (forall i, j :: 0 <= i < j < |entries| ==> entries[i] != entries[j])
  }

  /** The records' files exist, received and accepted files are told apart by name, and received paths are distinct. */
  ghost predicate Reviewable(d: Disk, tests: seq<Record>) {
    && (forall i :: 0 <= i < |tests| ==>
          && tests[i].received in d.files && tests[i].accepted in d.files
          && tests[i].accepted.dir == tests[i].received.dir
          && EndsWith(tests[i].received.name, ReceivedSuffix)
          && EndsWith(tests[i].accepted.name, AcceptedSuffix))
    && (forall i, j :: 0 <= i < j < |tests| ==> tests[i].received != tests[j].received)
  }

  lemma ReceivedIsNeverAccepted(p: Path, q: Path)
    requires EndsWith(p.name, ReceivedSuffix) && EndsWith(q.name, AcceptedSuffix)
    ensures p != q
  {
    assert ReceivedSuffix[1] != AcceptedSuffix[1];
  }

  lemma DiscoveredAreReviewable(d: Disk, entries: seq<Path>, digest: string -> Hash)
    requires GlobResult(entries) && Discover(d, entries, digest).Some?
    ensures Reviewable(d, Discover(d, entries, digest).value)
  {
    var tests := Discover(d, entries, digest).value;
    DiscoveredPairs(d, entries, digest);
    forall i | 0 <= i < |tests| ensures EndsWith(tests[i].accepted.name, AcceptedSuffix) {
      var b := BaseName(entries[i].name);
      assert (b + AcceptedSuffix)[|b|..] == AcceptedSuffix;
    }
  }

  // --------------------------------------------------------- classification

  /**
   * The if-chain at the end of `review`: a match when the accepted file now
   * hashes like the received one did, otherwise a change when its hash moved.
   */
  function Classify(initialAccepted: Hash, initialReceived: Hash, finalAccepted: Hash): (r: ReviewResult)
    ensures r == Match <==> finalAccepted == initialReceived
    ensures r == NoMatch <==> finalAccepted != initialReceived && finalAccepted != initialAccepted
    ensures r == NoChanges <==> finalAccepted != initialReceived && finalAccepted == initialAccepted
  {
    if finalAccepted == initialReceived then Match
    else if finalAccepted != initialAccepted then NoMatch
    else NoChanges
  }

  /** When both files started out equal, leaving the accepted file alone still counts as a match. */
  lemma MatchTakesPrecedence(h: Hash)
    ensures Classify(h, h, h) == Match
  {
  }

  /** The editor run: it exits leaving the accepted file's new text (or no file), or fails to spawn or wait. */
  datatype EditorRun = EditorExited(acceptedAfter: Option<string>) | EditorError

  /** How `review` ends: `Ok(result)`, `Err` from the editor, or a panic in `hash_file`. */
  datatype ReviewOutcome = Classified(result: ReviewResult) | ReviewError | ReviewPanic

  datatype Reviewed = Reviewed(outcome: ReviewOutcome, disk: Disk)

  /** The editor changes the accepted file only, and removes it exactly when it leaves no text. */
  lemma EditedAgreesOutside(d: Disk, p: Path, after: Option<string>)
    ensures Edited(d, p, after).dirs == d.dirs
    ensures AgreeOutside(d.files, Edited(d, p, after).files, {p})
    ensures p in Edited(d, p, after).files <==> after.Some?
  {
  }

  /** `review`: hash both files, run the editor on them, hash the accepted file again, classify. */
  function ReviewOnce(d: Disk, t: Record, digest: string -> Hash, run: EditorRun): (r: Reviewed)
    ensures r.disk.dirs == d.dirs
    ensures AgreeOutside(d.files, r.disk.files, {t.accepted})
    ensures t.accepted in r.disk.files ==> t.accepted in d.files
    ensures r.outcome.Classified? <==>
      t.accepted in d.files && t.received in d.files && run.EditorExited? && t.accepted in r.disk.files
    ensures r.outcome == ReviewError <==> t.accepted in d.files && t.received in d.files && run.EditorError?
    ensures r.outcome == ReviewError ==> r.disk == d
    // A panic while hashing the two files changes nothing.
    ensures t.accepted !in d.files || t.received !in d.files ==> r == Reviewed(ReviewPanic, d)
    // Once the editor exits, the disk is exactly what it left.
    ensures t.accepted in d.files && t.received in d.files && run.EditorExited? ==>
      r.disk == Edited(d, t.accepted, run.acceptedAfter)
    ensures r.outcome.Classified? ==>
      var finalAccepted := HashFile(r.disk, t.accepted, digest);
      && (r.outcome.result == Match <==> finalAccepted == HashFile(d, t.received, digest))
      && (r.outcome.result == NoChanges <==>
            finalAccepted != HashFile(d, t.received, digest) && finalAccepted == HashFile(d, t.accepted, digest))
  {
    match HashFile(d, t.accepted, digest)
    case None => Reviewed(ReviewPanic, d)
    case Some(initialAccepted) =>
      match HashFile(d, t.received, digest)
      case None => Reviewed(ReviewPanic, d)
      case Some(initialReceived) =>
        match run
        case EditorError => Reviewed(ReviewError, d)
        case EditorExited(after) =>
          var d1 := Edited(d, t.accepted, after);
          EditedAgreesOutside(d, t.accepted, after);
          match HashFile(d1, t.accepted, digest)
          case None => Reviewed(ReviewPanic, d1)
          case Some(finalAccepted) =>
            Reviewed(Classified(Classify(initialAccepted, initialReceived, finalAccepted)), d1)
  }

  // ------------------------------------------------------------ the session

  /** The picker: one of the pending records (an index, read modulo their number), or an abort. */
  datatype Selection = Pick(index: nat) | Cancel

  /** The confirmation prompt: yes, no, or dismissed (`Err`). */
  datatype Answer = Yes | No | Dismissed

  /** Everything one pass of the loop may consume. */
  datatype Round = Round(selection: Selection, editor: EditorRun, answer: Answer)

  /**
   * How `read_and_review_tests` ends. `ScriptExhausted` stands for a user who
   * goes on beyond the answers given.
   */
  datatype SessionEnd =
    | NothingToReview
    | AllReviewed
    | SelectionCancelled
    | ReviewFailed
    | Panicked
    | ScriptExhausted

  datatype StepResult = Next(disk: Disk, pending: seq<Record>) | Stop(end: SessionEnd, disk: Disk)

  datatype SessionResult = SessionResult(end: SessionEnd, disk: Disk, pending: seq<Record>)

  function Selected(w: seq<Record>, index: nat): (t: Record)
    requires w != []
    ensures t in w
  {
    w[index % |w|]
  }

  /** `tests_to_review.retain(|t| t != &test)`. */
  function Without(w: seq<Record>, t: Record): (r: seq<Record>)
    ensures forall x :: x in r <==> x in w && x != t
    ensures |r| <= |w|
    ensures t in w ==> |r| < |w|
  {
    if w == [] then []
    else if w[0] == t then Without(w[1..], t)
    else [w[0]] + Without(w[1..], t)
  }

  /** `retain` keeps the order of the records it keeps. */
  lemma {:induction false} WithoutKeepsOrder(a: seq<Record>, b: seq<Record>, t: Record)
    ensures Without(a + b, t) == Without(a, t) + Without(b, t)
    ensures forall x :: Without([x], t) == if x == t then [] else [x]
    decreases |a|
  {
    if a == [] {
      assert a + b == b;
    } else {
      assert (a + b)[0] == a[0] && (a + b)[1..] == a[1..] + b;
      WithoutKeepsOrder(a[1..], b, t);
      if !(a[0] == t) {
        assert [a[0]] + (Without(a[1..], t) + Without(b, t)) == [a[0]] + Without(a[1..], t) + Without(b, t);
      }
    }
    forall x ensures Without([x], t) == if x == t then [] else [x] {
      assert [x][1..] == [];
    }
  }

  /** Marking `t` reviewed: drop it from the worklist and delete its received file. */
  function Resolve(d: Disk, w: seq<Record>, t: Record): StepResult {
    match Removed(d, t.received)
    case Fault(d1) => Stop(Panicked, d1)
    case Ok(d1) => Next(d1, Without(w, t))
  }

  /** One pass of the `while` loop over a non-empty worklist. */
  function Step(d: Disk, w: seq<Record>, round: Round, digest: string -> Hash): (r: StepResult)
    requires w != []
    ensures round.selection == Cancel ==> r == Stop(SelectionCancelled, d)
    ensures r.Next? ==> |r.pending| <= |w| && forall x :: x in r.pending ==> x in w
    ensures round.selection.Pick? ==>
      var t := Selected(w, round.selection.index);
      var rv := ReviewOnce(d, t, digest, round.editor);
      // A match, or a confirmed change, resolves the record.
      && (rv.outcome.Classified? && (rv.outcome.result == Match || round.answer == Yes) ==>
            && (r.Next? <==> t.received in rv.disk.files)
            && (r.Next? ==> r.pending == Without(w, t) && r.disk.files == rv.disk.files - {t.received}))
      // A declined or dismissed confirmation keeps the worklist and the files as the editor left them.
      && (rv.outcome.Classified? && rv.outcome.result != Match && round.answer != Yes ==>
            r == Next(rv.disk, w))
      // An editor error returns, a panic in hashing aborts.
      && (rv.outcome == ReviewError ==> r == Stop(ReviewFailed, d))
      && (rv.outcome == ReviewPanic ==> r == Stop(Panicked, rv.disk))
  {
    match round.selection
    case Cancel => Stop(SelectionCancelled, d)
    case Pick(index) =>
      var t := Selected(w, index);
      var rv := ReviewOnce(d, t, digest, round.editor);
      match rv.outcome
      case ReviewPanic => Stop(Panicked, rv.disk)
      case ReviewError => Stop(ReviewFailed, rv.disk)
      case Classified(result) =>
        if result == Match || round.answer == Yes then Resolve(rv.disk, w, t)
        else Next(rv.disk, w)
  }

  /** The `while !tests_to_review.is_empty()` loop, one round of input per pass. */
  function Session(d: Disk, w: seq<Record>, rounds: seq<Round>, digest: string -> Hash): (r: SessionResult)
    ensures r.end == AllReviewed <==> r.pending == []
    ensures r.end in {AllReviewed, SelectionCancelled, ReviewFailed, Panicked, ScriptExhausted}
    ensures |r.pending| <= |w| && forall x :: x in r.pending ==> x in w
    decreases |rounds|
  {
    if w == [] then SessionResult(AllReviewed, d, [])
    else if rounds == [] then SessionResult(ScriptExhausted, d, w)
    else match Step(d, w, rounds[0], digest)
      case Stop(end, d1) => SessionResult(end, d1, w)
      case Next(d1, w1) => Session(d1, w1, rounds[1..], digest)
  }

  /** The session from round `k` on is one step followed by the session from round `k + 1`. */
  lemma SessionUnfolds(d: Disk, w: seq<Record>, rounds: seq<Round>, k: nat, digest: string -> Hash)
    requires w != [] && k < |rounds|
    ensures Session(d, w, rounds[k..], digest) ==
      match Step(d, w, rounds[k], digest)
      case Stop(end, d1) => SessionResult(end, d1, w)
      case Next(d1, w1) => Session(d1, w1, rounds[k + 1..], digest)
  {
    assert rounds[k..][0] == rounds[k] && rounds[k..][1..] == rounds[k + 1..];
  }

  /** The pre-step: delete the received file of every already matching record. */
  function RemoveMatching(d: Disk, tests: seq<Record>): Effect
    decreases |tests|
  {
    if tests == [] then Ok(d)
    else if tests[0].alreadyMatches then
      match Removed(d, tests[0].received)
      case Fault(d1) => Fault(d1)
      case Ok(d1) => RemoveMatching(d1, tests[1..])
    else RemoveMatching(d, tests[1..])
  }

  /** `tests_to_review.retain(|test| !test.already_matches)`. */
  function Unmatched(tests: seq<Record>): (r: seq<Record>)
    ensures forall x :: x in r <==> x in tests && !x.alreadyMatches
  {
    if tests == [] then []
    else if tests[0].alreadyMatches then Unmatched(tests[1..])
    else [tests[0]] + Unmatched(tests[1..])
  }

  /** `retain` keeps the order of the records it keeps. */
  lemma {:induction false} UnmatchedKeepsOrder(a: seq<Record>, b: seq<Record>)
    ensures Unmatched(a + b) == Unmatched(a) + Unmatched(b)
    ensures forall x :: Unmatched([x]) == if x.alreadyMatches then [] else [x]
    decreases |a|
  {
    if a == [] {
      assert a + b == b;
    } else {
      assert (a + b)[0] == a[0] && (a + b)[1..] == a[1..] + b;
      UnmatchedKeepsOrder(a[1..], b);
      if !(a[0].alreadyMatches) {
        assert [a[0]] + (Unmatched(a[1..]) + Unmatched(b)) == [a[0]] + Unmatched(a[1..]) + Unmatched(b);
      }
    }
    forall x ensures Unmatched([x]) == if x.alreadyMatches then [] else [x] {
      assert [x][1..] == [];
    }
  }

  /** `read_and_review_tests`. */
  function ReadAndReview(d: Disk, entries: seq<Path>, digest: string -> Hash, rounds: seq<Round>): SessionResult {
    match Discover(d, entries, digest)
    case None => SessionResult(Panicked, d, [])
    case Some(tests) =>
      if tests == [] then SessionResult(NothingToReview, d, [])
      else match RemoveMatching(d, tests)
        case Fault(d1) => SessionResult(Panicked, d1, Unmatched(tests))
        case Ok(d1) => Session(d1, Unmatched(tests), rounds, digest)
  }

  // ------------------------------------------------- what a session changes

  function AcceptedPaths(w: seq<Record>): set<Path> {
    set x | x in w :: x.accepted
  }

  function ReceivedPaths(w: seq<Record>): set<Path> {
    set x | x in w :: x.received
  }

  /**
   * From `d` to `d'` no file was written but an accepted file of `w` (by the
   * editor), and no file disappeared but a received file of `w` or an
   * accepted file the editor removed.
   */
  ghost predicate OnlyReviewChanges(d: Disk, d': Disk, w: seq<Record>) {
    && d'.dirs == d.dirs
    && (forall p :: p in d'.files && p !in AcceptedPaths(w) ==> p in d.files && d'.files[p] == d.files[p])
    && (forall p :: p in d.files && p !in d'.files ==> p in ReceivedPaths(w) || p in AcceptedPaths(w))
  }

  lemma ChangesCompose(d0: Disk, d1: Disk, d2: Disk, v: seq<Record>, w: seq<Record>)
    requires forall x :: x in v ==> x in w
    requires OnlyReviewChanges(d0, d1, w) && OnlyReviewChanges(d1, d2, v)
    ensures OnlyReviewChanges(d0, d2, w)
  {
    assert AcceptedPaths(v) <= AcceptedPaths(w);
    assert ReceivedPaths(v) <= ReceivedPaths(w);
  }

  lemma StepChanges(d: Disk, w: seq<Record>, round: Round, digest: string -> Hash)
    requires w != []
    ensures OnlyReviewChanges(d, Step(d, w, round, digest).disk, w)
  {
    if round.selection.Pick? {
      var t := Selected(w, round.selection.index);
      assert t.accepted in AcceptedPaths(w) && t.received in ReceivedPaths(w);
    }
  }

  /** Over a whole session the loop itself writes no file: only the editor touches accepted files. */
  lemma {:induction false} SessionChanges(d: Disk, w: seq<Record>, rounds: seq<Round>, digest: string -> Hash)
    ensures OnlyReviewChanges(d, Session(d, w, rounds, digest).disk, w)
    decreases |rounds|
  {
    if w != [] && rounds != [] {
      StepChanges(d, w, rounds[0], digest);
      match Step(d, w, rounds[0], digest)
      case Stop(_, _) =>
      case Next(d1, w1) =>
        SessionChanges(d1, w1, rounds[1..], digest);
        ChangesCompose(d, d1, Session(d1, w1, rounds[1..], digest).disk, w1, w);
    }
  }

  /**
   * The worklist invariant: every pending record's received file is on disk,
   * distinct records have distinct received files, and no received file is
   * any record's accepted file.
   */
  ghost predicate WorklistOk(d: Disk, w: seq<Record>) {
    && (forall x :: x in w ==> x.received in d.files)
    && (forall x, y :: x in w && y in w && x != y ==> x.received != y.received)
    && (forall x, y :: x in w && y in w ==> x.received != y.accepted)
  }

  /** The editor only touches the accepted file, so every pending received file survives a review. */
  lemma ReviewKeepsReceived(d: Disk, w: seq<Record>, t: Record, digest: string -> Hash, run: EditorRun)
    requires WorklistOk(d, w) && t in w
    ensures forall x :: x in w ==> x.received in ReviewOnce(d, t, digest, run).disk.files
  {
    var rv := ReviewOnce(d, t, digest, run);
    forall x | x in w ensures x.received in rv.disk.files {
      assert x.received != t.accepted;
    }
  }

  lemma StepKeepsWorklistOk(d: Disk, w: seq<Record>, round: Round, digest: string -> Hash)
    requires w != [] && WorklistOk(d, w)
    ensures Step(d, w, round, digest).Next? ==> WorklistOk(Step(d, w, round, digest).disk, Step(d, w, round, digest).pending)
    ensures Step(d, w, round, digest).Stop? ==> forall x :: x in w ==> x.received in Step(d, w, round, digest).disk.files
  {
    if round.selection.Pick? {
      var t := Selected(w, round.selection.index);
      var rv := ReviewOnce(d, t, digest, round.editor);
      ReviewKeepsReceived(d, w, t, digest, round.editor);
      var r := Step(d, w, round, digest);
      if rv.outcome.Classified? && (rv.outcome.result == Match || round.answer == Yes) {
        if r.Next? {
          assert r.disk.files == rv.disk.files - {t.received};
          assert r.pending == Without(w, t);
          forall x | x in r.pending ensures x.received in r.disk.files {
            assert x in w && x != t;
          }
        }
      }
    }
  }

  /**
   * However the session ends, a record of the original worklist is still
   * pending exactly when its received file is still on disk.
   */
  lemma {:induction false} SessionResolvesExactly(d: Disk, w: seq<Record>, rounds: seq<Round>, digest: string -> Hash)
    requires WorklistOk(d, w)
    ensures var r := Session(d, w, rounds, digest);
      forall x :: x in w ==> (x in r.pending <==> x.received in r.disk.files)
    decreases |rounds|
  {
    if w != [] && rounds != [] {
      StepKeepsWorklistOk(d, w, rounds[0], digest);
      match Step(d, w, rounds[0], digest)
      case Stop(_, _) =>
      case Next(d1, w1) =>
        var r := Session(d1, w1, rounds[1..], digest);
        SessionResolvesExactly(d1, w1, rounds[1..], digest);
        SessionChanges(d1, w1, rounds[1..], digest);
        forall x | x in w && x !in w1 ensures x.received !in r.disk.files {
          var t := Selected(w, rounds[0].selection.index);
          assert x == t;
          assert t.received !in d1.files;
          assert t.received !in AcceptedPaths(w1);
        }
    }
  }

  /** Deleting the received files of the already matching records, when received files are distinct and present. */
  function MatchingReceived(tests: seq<Record>): set<Path> {
    set x | x in tests && x.alreadyMatches :: x.received
  }

  lemma {:induction false} PreStepDeletesMatching(d: Disk, tests: seq<Record>)
    requires forall i :: 0 <= i < |tests| ==> tests[i].received in d.files
    requires forall i, j :: 0 <= i < j < |tests| ==> tests[i].received != tests[j].received
    ensures RemoveMatching(d, tests) == Ok(d.(files := d.files - MatchingReceived(tests)))
    decreases |tests|
  {
    if tests != [] {
      var t, rest := tests[0], tests[1..];
      assert forall i :: 0 <= i < |rest| ==> rest[i] == tests[i + 1];
      if t.alreadyMatches {
        var d1 := d.(files := d.files - {t.received});
        PreStepDeletesMatching(d1, rest);
        assert MatchingReceived(tests) == {t.received} + MatchingReceived(rest);
        assert d1.files - MatchingReceived(rest) == d.files - MatchingReceived(tests);
      } else {
        PreStepDeletesMatching(d, rest);
        assert MatchingReceived(tests) == MatchingReceived(rest);
      }
    }
  }

  /** After the pre-step the unmatched records form a sound worklist, and only matching received files are gone. */
  lemma AfterPreStep(d: Disk, tests: seq<Record>)
    requires Reviewable(d, tests)
    ensures var d1 := d.(files := d.files - MatchingReceived(tests));
      && RemoveMatching(d, tests) == Ok(d1)
      && WorklistOk(d1, Unmatched(tests))
      && OnlyReviewChanges(d, d1, tests)
      && (forall x, y :: x in tests && y in tests ==> x.received != y.accepted)
  {
    PreStepDeletesMatching(d, tests);
    forall x, y | x in tests && y in tests ensures x.received != y.accepted {
      ReceivedIsNeverAccepted(x.received, y.accepted);
    }
    assert MatchingReceived(tests) <= ReceivedPaths(tests);
  }

  /**
   * The whole of `read_and_review_tests` on a successful discovery: the
   * pre-step cannot panic, every already matching record's received file is
   * gone, every other record is still pending exactly when its received file
   * is still there, and nothing else changes but accepted files.
   */
  lemma ReviewSessionOutcome(d: Disk, entries: seq<Path>, digest: string -> Hash, rounds: seq<Round>)
    requires GlobResult(entries) && Discover(d, entries, digest).Some?
    ensures var tests := Discover(d, entries, digest).value;
      var r := ReadAndReview(d, entries, digest, rounds);
      && (tests == [] <==> r.end == NothingToReview)
      && (forall x :: x in tests && x.alreadyMatches ==> x.received !in r.disk.files)
      && (forall x :: x in tests && !x.alreadyMatches ==> (x in r.pending <==> x.received in r.disk.files))
      && OnlyReviewChanges(d, r.disk, tests)
  {
    var tests := Discover(d, entries, digest).value;
    if tests != [] {
      DiscoveredAreReviewable(d, entries, digest);
      AfterPreStep(d, tests);
      var d1 := d.(files := d.files - MatchingReceived(tests));
      var w := Unmatched(tests);
      var r := Session(d1, w, rounds, digest);
      assert ReadAndReview(d, entries, digest, rounds) == r;
      SessionResolvesExactly(d1, w, rounds, digest);
      SessionChanges(d1, w, rounds, digest);
      ChangesCompose(d, d1, r.disk, w, tests);
      forall x | x in tests && x.alreadyMatches ensures x.received !in r.disk.files {
        assert x.received !in d1.files;
        assert x.received !in AcceptedPaths(w);
      }
    }
  }

  // ------------------------------------------------------------ bulk modes

  /** `clean`'s loop: remove every record's received file. */
  function RemoveAllReceived(d: Disk, tests: seq<Record>): Effect
    decreases |tests|
  {
    if tests == [] then Ok(d)
    else match Removed(d, tests[0].received)
      case Fault(d1) => Fault(d1)
      case Ok(d1) => RemoveAllReceived(d1, tests[1..])
  }

  /** `auto_accept`'s loop: remove each accepted file and rename the received file onto it. */
  function AcceptAll(d: Disk, tests: seq<Record>): Effect
    decreases |tests|
  {
    if tests == [] then Ok(d)
    else match Removed(d, tests[0].accepted)
      case Fault(d1) => Fault(d1)
      case Ok(d1) =>
        match Renamed(d1, tests[0].received, tests[0].accepted)
        case Fault(d2) => Fault(d2)
        case Ok(d2) => AcceptAll(d2, tests[1..])
  }

  /** `clean`'s loop deletes exactly the received files, given they are distinct and present. */
  lemma {:induction false} RemoveAllReceivedDeletesThem(d: Disk, tests: seq<Record>)
    requires forall i :: 0 <= i < |tests| ==> tests[i].received in d.files
    requires forall i, j :: 0 <= i < j < |tests| ==> tests[i].received != tests[j].received
    ensures RemoveAllReceived(d, tests) == Ok(d.(files := d.files - ReceivedPaths(tests)))
    decreases |tests|
  {
    if tests != [] {
      var t, rest := tests[0], tests[1..];
      assert forall i :: 0 <= i < |rest| ==> rest[i] == tests[i + 1];
      var d1 := d.(files := d.files - {t.received});
      RemoveAllReceivedDeletesThem(d1, rest);
      assert ReceivedPaths(tests) == {t.received} + ReceivedPaths(rest);
      assert d1.files - ReceivedPaths(rest) == d.files - ReceivedPaths(tests);
    }
  }

  /** One pass of `auto_accept`'s loop on a well-formed disk. */
  lemma AcceptOne(d: Disk, t: Record)
    requires WellFormed(d)
    requires t.received in d.files && t.accepted in d.files && t.accepted.dir == t.received.dir
    requires t.received != t.accepted
    ensures Removed(d, t.accepted).Ok?
    ensures Renamed(Removed(d, t.accepted).disk, t.received, t.accepted)
         == Ok(d.(files := (d.files - {t.received})[t.accepted := d.files[t.received]]))
    ensures WellFormed(d.(files := (d.files - {t.received})[t.accepted := d.files[t.received]]))
  {
    var d1 := Removed(d, t.accepted).disk;
    assert d1.files - {t.received} == d.files - {t.accepted, t.received};
    assert (d.files - {t.accepted, t.received})[t.accepted := d.files[t.received]]
        == (d.files - {t.received})[t.accepted := d.files[t.received]];
  }

  /** The disk after `auto_accept` handled `t`: its received text moved onto its accepted path. */
  function Installed(d: Disk, t: Record): Disk
    requires t.received in d.files
  {
    d.(files := (d.files - {t.received})[t.accepted := d.files[t.received]])
  }

  /** Touched paths of a worklist. */
  function Touched(tests: seq<Record>): set<Path> {
    AcceptedPaths(tests) + ReceivedPaths(tests)
  }

  /** No later record of the worklist shares record `i`'s accepted file. */
  predicate LastFor(tests: seq<Record>, i: nat)
    requires i < |tests|
  {
    forall j :: i < j < |tests| ==> tests[j].accepted != tests[i].accepted
  }

  /** No record's received file is any record's accepted file. */
  predicate ReceivedNotAccepted(tests: seq<Record>) {
    forall i, j :: 0 <= i < |tests| && 0 <= j < |tests| ==> tests[i].received != tests[j].accepted
  }

  /** In a reviewable list no received file is also an accepted file. */
  lemma ReviewableSeparates(d: Disk, tests: seq<Record>)
    requires Reviewable(d, tests)
    ensures ReceivedNotAccepted(tests)
  {
    forall i, j | 0 <= i < |tests| && 0 <= j < |tests| ensures tests[i].received != tests[j].accepted {
      ReceivedIsNeverAccepted(tests[i].received, tests[j].accepted);
    }
  }

  /** The paths a worklist touches are its first record's two files and those the rest touches. */
  lemma TouchedUnfolds(tests: seq<Record>)
    requires tests != []
    ensures Touched(tests) == {tests[0].accepted, tests[0].received} + Touched(tests[1..])
  {
    assert tests == [tests[0]] + tests[1..];
  }

  /** After the first pass the rest of the worklist is still reviewable, on unchanged received files. */
  lemma AcceptFirst(d: Disk, tests: seq<Record>)
    requires WellFormed(d) && Reviewable(d, tests) && tests != []
    requires ReceivedNotAccepted(tests)
    ensures AcceptAll(d, tests) == AcceptAll(Installed(d, tests[0]), tests[1..])
    ensures WellFormed(Installed(d, tests[0]))
    ensures Reviewable(Installed(d, tests[0]), tests[1..]) && ReceivedNotAccepted(tests[1..])
    ensures forall i :: 1 <= i < |tests| ==>
      Installed(d, tests[0]).files[tests[i].received] == d.files[tests[i].received]
  {
    AcceptOne(d, tests[0]);
    RestAfterInstall(d, tests);
  }

  /**
   * Moving the first record's received file leaves the rest of the list
   * sound and its received files unchanged; an accepted file it shares with
   * the first record now holds the first record's received text.
   */
  lemma RestAfterInstall(d: Disk, tests: seq<Record>)
    requires Reviewable(d, tests) && tests != []
    requires ReceivedNotAccepted(tests)
    ensures Reviewable(Installed(d, tests[0]), tests[1..]) && ReceivedNotAccepted(tests[1..])
    ensures forall i :: 1 <= i < |tests| ==>
      Installed(d, tests[0]).files[tests[i].received] == d.files[tests[i].received]
  {
    var t, rest := tests[0], tests[1..];
    var d2 := Installed(d, t);
    assert forall i :: 0 <= i < |rest| ==> rest[i] == tests[i + 1];
    forall i | 0 <= i < |rest| ensures rest[i].accepted in d2.files {
      assert rest[i].accepted != t.received;
    }
  }

  /**
   * `auto_accept`'s loop over discovered records: it cannot fail, and
   * afterwards no received file is left, every accepted path exists, an
   * accepted path holds the received text of the last record naming it, and
   * nothing else changed. When two records share an accepted file the later
   * one's text wins.
   */
  lemma {:induction false} AcceptAllInstallsReceived(d: Disk, tests: seq<Record>)
    requires WellFormed(d) && Reviewable(d, tests) && ReceivedNotAccepted(tests)
    ensures AcceptAll(d, tests).Ok?
    ensures var d' := AcceptAll(d, tests).disk;
      && d'.dirs == d.dirs
      && (forall i :: 0 <= i < |tests| ==>
            && tests[i].received !in d'.files
            && tests[i].accepted in d'.files
            && (LastFor(tests, i) ==> d'.files[tests[i].accepted] == d.files[tests[i].received]))
      && AgreeOutside(d.files, d'.files, Touched(tests))
    decreases |tests|
  {
    if tests != [] {
      var t, rest := tests[0], tests[1..];
      AcceptFirst(d, tests);
      TouchedUnfolds(tests);
      var d2 := Installed(d, t);
      AcceptAllInstallsReceived(d2, rest);
      var d3 := AcceptAll(d2, rest).disk;
      FirstTouchedOnce(tests);
      forall i | 0 <= i < |tests|
        ensures tests[i].received !in d3.files && tests[i].accepted in d3.files
        ensures LastFor(tests, i) ==> d3.files[tests[i].accepted] == d.files[tests[i].received]
      {
        if i > 0 {
          assert tests[i] == rest[i - 1];
        }
      }
    }
  }

  /**
   * The first record's received file is touched by no later record, nor is
   * its accepted file when no later record shares it; a record that is last
   * for its accepted file stays so in the rest of the list.
   */
  lemma FirstTouchedOnce(tests: seq<Record>)
    requires tests != [] && ReceivedNotAccepted(tests)
    requires forall i, j :: 0 <= i < j < |tests| ==> tests[i].received != tests[j].received
    ensures tests[0].received !in Touched(tests[1..])
    ensures LastFor(tests, 0) ==> tests[0].accepted !in Touched(tests[1..])
    ensures forall i :: 1 <= i < |tests| && LastFor(tests, i) ==> LastFor(tests[1..], i - 1)
  {
    var t, rest := tests[0], tests[1..];
    forall x | x in rest
      ensures x.received != t.received && x.accepted != t.received
      ensures x.received != t.accepted
      ensures LastFor(tests, 0) ==> x.accepted != t.accepted
    {
      var j :| 0 <= j < |rest| && rest[j] == x;
      assert x == tests[j + 1];
    }
    forall i | 1 <= i < |tests| && LastFor(tests, i) ensures LastFor(rest, i - 1) {
      forall j | i - 1 < j < |rest| ensures rest[j].accepted != rest[i - 1].accepted {
        assert rest[j] == tests[j + 1];
      }
    }
  }

  /** `clean`: discovery (a panic is a `Fault`), then the loop. */
  function CleanSpec(d: Disk, entries: seq<Path>, digest: string -> Hash): Effect {
    match Discover(d, entries, digest)
    case None => Fault(d)
    case Some(tests) => RemoveAllReceived(d, tests)
  }

  /** `auto_accept`: discovery, then the loop. */
  function AutoAcceptSpec(d: Disk, entries: seq<Path>, digest: string -> Hash): Effect {
    match Discover(d, entries, digest)
    case None => Fault(d)
    case Some(tests) => AcceptAll(d, tests)
  }

  /**
   * `clean` either panics during discovery before deleting anything, or
   * deletes exactly the globbed received files and leaves every other file
   * (accepted ones included) alone.
   */
  lemma CleanDeletesEveryReceived(d: Disk, entries: seq<Path>, digest: string -> Hash)
    requires GlobResult(entries)
    ensures CleanSpec(d, entries, digest).Ok? <==> forall i :: 0 <= i < |entries| ==> Pairable(d, entries[i])
    ensures CleanSpec(d, entries, digest) ==
      if CleanSpec(d, entries, digest).Ok? then Ok(d.(files := d.files - (set p | p in entries))) else Fault(d)
  {
    DiscoverSucceeds(d, entries, digest);
    if Discover(d, entries, digest).Some? {
      var tests := Discover(d, entries, digest).value;
      DiscoveredAreReviewable(d, entries, digest);
      RemoveAllReceivedDeletesThem(d, tests);
      DiscoveredReceivedPaths(d, entries, digest);
    }
  }

  /**
   * `auto_accept` once every received file has a readable sibling: it cannot
   * fail, no received file is left, every sibling exists and holds the text
   * of the last received file paired with it, and no directory changes.
   */
  lemma AutoAcceptInstallsEveryReceived(d: Disk, entries: seq<Path>, digest: string -> Hash)
    requires WellFormed(d) && GlobResult(entries)
    requires forall i :: 0 <= i < |entries| ==> Pairable(d, entries[i])
    ensures AutoAcceptSpec(d, entries, digest).Ok?
    ensures var d' := AutoAcceptSpec(d, entries, digest).disk;
      && d'.dirs == d.dirs
      && (forall i :: 0 <= i < |entries| ==>
            && entries[i] !in d'.files && SiblingAccepted(entries[i]) in d'.files
            && ((forall j :: i < j < |entries| ==> SiblingAccepted(entries[j]) != SiblingAccepted(entries[i])) ==>
                  Content(d', SiblingAccepted(entries[i])) == Content(d, entries[i])))
  {
    DiscoverSucceeds(d, entries, digest);
    var tests := Discover(d, entries, digest).value;
    DiscoveredPairs(d, entries, digest);
    DiscoveredAreReviewable(d, entries, digest);
    ReviewableSeparates(d, tests);
    AcceptAllInstallsReceived(d, tests);
    var d' := AcceptAll(d, tests).disk;
    forall i | 0 <= i < |entries|
      ensures entries[i] !in d'.files && SiblingAccepted(entries[i]) in d'.files
      ensures (forall j :: i < j < |entries| ==> SiblingAccepted(entries[j]) != SiblingAccepted(entries[i])) ==>
        Content(d', SiblingAccepted(entries[i])) == Content(d, entries[i])
    {
      assert tests[i].received == entries[i] && tests[i].accepted == SiblingAccepted(entries[i]);
      if forall j :: i < j < |entries| ==> SiblingAccepted(entries[j]) != SiblingAccepted(entries[i]) {
        assert LastFor(tests, i);
      }
    }
  }

  /** The command line: `--clean` and `--accept`. */
  datatype Cli = Cli(clean: bool, accept: bool)

  datatype RunOutcome = Bulk(ok: bool) | Interactive(end: SessionEnd)

  datatype Ran = Ran(outcome: RunOutcome, disk: Disk)

  /** `main`: `--clean` wins over `--accept`; with neither, the interactive review. */
  function Dispatch(cli: Cli, d: Disk, entries: seq<Path>, digest: string -> Hash, rounds: seq<Round>): Ran {
    if cli.clean then
      var e := CleanSpec(d, entries, digest);
      Ran(Bulk(e.Ok?), e.disk)
    else if cli.accept then
      var e := AutoAcceptSpec(d, entries, digest);
      Ran(Bulk(e.Ok?), e.disk)
    else
      var r := ReadAndReview(d, entries, digest, rounds);
      Ran(Interactive(r.end), r.disk)
  }

  /**
   * What each mode of `main` does to the disk: `--clean` (whatever `--accept`
   * says) deletes the globbed received files or fails leaving the disk as it
   * was; `--accept` alone runs `auto_accept`; neither runs the review session.
   */
  lemma DispatchModes(cli: Cli, d: Disk, entries: seq<Path>, digest: string -> Hash, rounds: seq<Round>)
    requires GlobResult(entries)
    ensures var r := Dispatch(cli, d, entries, digest, rounds);
      && (cli.clean ==>
            && r.outcome.Bulk?
            && (r.outcome.ok <==> forall i :: 0 <= i < |entries| ==> Pairable(d, entries[i]))
            && r.disk == (if r.outcome.ok then d.(files := d.files - (set p | p in entries)) else d))
      && (!cli.clean && cli.accept ==>
            r == Ran(Bulk(AutoAcceptSpec(d, entries, digest).Ok?), AutoAcceptSpec(d, entries, digest).disk))
      && (!cli.clean && !cli.accept ==>
            && r.outcome == Interactive(ReadAndReview(d, entries, digest, rounds).end)
            && r.disk == ReadAndReview(d, entries, digest, rounds).disk)
  {
    CleanDeletesEveryReceived(d, entries, digest);
  }
}
