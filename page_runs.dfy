/**
 * Sequences of events seen by one DownloadFile page: poll ticks and
 * download clicks, folded over the page state in the order they happen.
 * Nothing here discards a late answer or checks ids: the page does neither.
 */
module DownloadFileRuns {
  import opened Wrappers
  import opened ReceivedFiles
  import opened Base64
  import opened DownloadFilePage

  datatype Event =
    | Tick(outcome: PollOutcome)
    | Click(file: IncomingFile)

  function Step(p: Page, e: Event): Page
  {
    match e
    case Tick(o) => AfterPoll(p, o)
    case Click(f) => AfterDownload(p, f)
  }

  /** The page state after the events, first to last. */
  function Run(p: Page, events: seq<Event>): Page
    decreases |events|
  {
    if events == [] then p else Run(Step(p, events[0]), events[1..])
  }

  /** Running two stretches of events is running the first, then the second. */
  lemma {:induction false} RunConcat(p: Page, a: seq<Event>, b: seq<Event>)
    ensures Run(p, a + b) == Run(Run(p, a), b)
    decreases |a|
  {
    if a == [] {
      assert a + b == b;
    } else {
      assert (a + b)[0] == a[0];
      assert (a + b)[1..] == a[1..] + b;
      RunConcat(Step(p, a[0]), a[1..], b);
    }
  }

  /**
   * No handler clears `error`: once set it stays set, and the only values it
   * ever takes are the two messages of the handlers.
   */
  lemma {:induction false} ErrorNeverCleared(p: Page, events: seq<Event>)
    ensures p.error.Some? ==> Run(p, events).error.Some?
    ensures var e := Run(p, events).error;
      e == p.error || e == Some(ConnectionError) || e == Some(DownloadFailed)
    decreases |events|
  {
    if events != [] {
      ErrorNeverCleared(Step(p, events[0]), events[1..]);
    }
  }

  /** The event is a 200 tick whose body describes `f`. */
  predicate Announces(e: Event, f: IncomingFile)
  {
    e.Tick? && IsFound(e.outcome) && ToIncoming(e.outcome.body.value) == f
  }

  /** Every entry in the list was there at the start or was announced by a 200 tick. */
  lemma {:induction false} FilesProvenance(p: Page, events: seq<Event>)
    ensures forall f :: f in Run(p, events).files ==>
      f in p.files || exists k :: 0 <= k < |events| && Announces(events[k], f)
    decreases |events|
  {
    if events != [] {
      var q := Step(p, events[0]);
      FilesProvenance(q, events[1..]);
      forall f | f in Run(p, events).files
        ensures f in p.files || exists k :: 0 <= k < |events| && Announces(events[k], f)
      {
        if f !in q.files {
          var k :| 0 <= k < |events[1..]| && Announces(events[1..][k], f);
          assert Announces(events[k + 1], f);
        } else if f !in p.files {
          assert Announces(events[0], f);
        }
      }
    }
  }

  /** A tick that gets an answer without a file: any status but 200. */
  predicate IsQuiet(e: Event)
  {
    e.Tick? && e.outcome.Response? && e.outcome.status != 200
  }

  /** A tick that gets a 204 answer. */
  predicate IsNoContent(e: Event)
  {
    e.Tick? && e.outcome.Response? && e.outcome.status == 204
  }

  /**
   * Any number of answers without a file leave `files` and `error` alone;
   * when they are all 204 and there is at least one, `loading` ends up set.
   */
  lemma {:induction false} IdleStability(p: Page, events: seq<Event>)
    requires forall k :: 0 <= k < |events| ==> IsQuiet(events[k])
    ensures Run(p, events).files == p.files && Run(p, events).error == p.error
    ensures events != [] && (forall k :: 0 <= k < |events| ==> IsNoContent(events[k]))
            ==> Run(p, events) == p.(loading := true)
    decreases |events|
  {
    if events != [] {
      var q := Step(p, events[0]);
      IdleStability(q, events[1..]);
      if (forall k :: 0 <= k < |events| ==> IsNoContent(events[k])) && events[1..] != [] {
        assert q == p.(loading := true);
      }
    }
  }

  /**
   * Polling goes on after anything: whatever happened before, a 200 tick
   * appends its file to the list as it was.
   */
  lemma Resilience(p: Page, events: seq<Event>, b: NextFileBody)
    ensures Run(p, events + [Tick(Response(200, Some(b)))]).files
         == Run(p, events).files + [ToIncoming(b)]
  {
    RunConcat(p, events, [Tick(Response(200, Some(b)))]);
  }

  /**
   * A 200 tick and a click give the same page in either order when the
   * clicked entry has another id, or when its payload does not decode.
   */
  lemma FoundAndDownloadCommute(p: Page, b: NextFileBody, file: IncomingFile)
    requires b.id != file.id || Atob(file.fileData).None?
    ensures Run(p, [Tick(Response(200, Some(b))), Click(file)])
         == Run(p, [Click(file), Tick(Response(200, Some(b)))])
  {
    WithoutIdAppended(p.files, ToIncoming(b), file.id);
  }

  /** The same file announced twice is listed twice: the page does not deduplicate. */
  lemma DuplicateAnnouncement(p: Page, b: NextFileBody)
    ensures var r := Run(p, [Tick(Response(200, Some(b))), Tick(Response(200, Some(b)))]);
      && r.files == p.files + [ToIncoming(b), ToIncoming(b)]
      && CountId(r.files, b.id) == CountId(p.files, b.id) + 2
  {
    var f := ToIncoming(b);
    var tick := Tick(Response(200, Some(b)));
    var q1 := Step(p, tick);
    var q2 := Step(q1, tick);
    assert [tick, tick][1..] == [tick];
    assert [tick][1..] == [];
    assert Run(p, [tick, tick]) == Run(q1, [tick]) == Run(q2, []);
    assert q1.files == Appended(p.files, f);
    assert q2.files == Appended(q1.files, f);
  }

  /** One successful download of a file listed twice removes both entries. */
  lemma DuplicateRemovedTogether(p: Page, b: NextFileBody)
    requires Atob(b.file_data).Some?
    ensures !HasId(Run(p, [Tick(Response(200, Some(b))), Tick(Response(200, Some(b))),
                           Click(ToIncoming(b))]).files, b.id)
  {
    var f := ToIncoming(b);
    var tick := Tick(Response(200, Some(b)));
    var q2 := Step(Step(p, tick), tick);
    var events := [tick, tick, Click(f)];
    assert events[1..] == [tick, Click(f)] && events[1..][1..] == [Click(f)];
    assert [Click(f)][1..] == [];
    assert Run(p, events) == Run(Step(p, tick), [tick, Click(f)]) == Run(q2, [Click(f)]);
    assert Run(q2, [Click(f)]) == Run(AfterDownload(q2, f), []);
  }

  /** A second successful download of the same entry changes nothing more. */
  lemma DownloadTwice(p: Page, file: IncomingFile)
    ensures Run(p, [Click(file), Click(file)]) == Run(p, [Click(file)])
  {
    var q := AfterDownload(p, file);
    if Atob(file.fileData).Some? {
      WithoutIdRemovesAll(q.files, file.id);
    }
  }

  /**
   * A 204, a 200 carrying "x.pdf" with payload "QQ==", and another 204 leave
   * that one entry listed with `loading` set again; downloading it saves the
   * single byte 0x41 and empties the list.
   */
  lemma ReceiveThenDownload()
    ensures var f := IncomingFile("a", "x.pdf", "QQ==", 1);
      var r := Run(Initial, [Tick(Response(204, None)),
                             Tick(Response(200, Some(NextFileBody("a", "x.pdf", "QQ==", 1)))),
                             Tick(Response(204, None))]);
      && r == Page([f], true, None)
      && Delivery(f) == Some(SavedFile([0x41], "x.pdf", PdfType))
      && AfterDownload(r, f) == Page([], true, None)
  {
    var f := IncomingFile("a", "x.pdf", "QQ==", 1);
    var b := NextFileBody("a", "x.pdf", "QQ==", 1);
    var e0, e1, e2 := Tick(Response(204, None)), Tick(Response(200, Some(b))), Tick(Response(204, None));
    assert [e0, e1, e2][1..] == [e1, e2] && [e1, e2][1..] == [e2] && [e2][1..] == [];
    var q0 := Step(Initial, e0);
    var q1 := Step(q0, e1);
    assert q1 == Page([f], false, None);
    assert Run(Initial, [e0, e1, e2]) == Run(q0, [e1, e2]) == Run(q1, [e2]) == Step(q1, e2);
    AtobOfQQ();
    assert CharCodes("A") == [0x41];
  }

  /** The payload "QQ==" decodes to the single character 'A' (0x41). */
  lemma AtobOfQQ()
    ensures Atob("QQ==") == Some("A")
  {
    assert EncodeChunk("A") == "QQ";
    assert Btoa("A") == "QQ==";
    AtobBtoa("A");
  }

  /** Which panels the page shows: the waiting panel, the list and the error line. */
  predicate ShowsWaiting(p: Page) { p.loading && |p.files| == 0 }
  predicate ShowsList(p: Page) { |p.files| > 0 }
  predicate ShowsError(p: Page) { p.error.Some? }

  /** On mount only the waiting panel is shown; after a 200 tick the list replaces it. */
  lemma Display(p: Page, b: NextFileBody)
    ensures ShowsWaiting(Initial) && !ShowsList(Initial) && !ShowsError(Initial)
    ensures var r := AfterPoll(p, Response(200, Some(b))); ShowsList(r) && !ShowsWaiting(r)
  {
  }
}
