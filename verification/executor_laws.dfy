/** What the read loop promises: the shape and contents of a rebuilt row
    stated without the staging map, and how each kind of line changes the
    session over a whole run. */
module ExecutorLaws {
  import opened Wrappers
  import opened JsonValue
  import opened Executor

  // ---------------------------------------------------------------------
  // The row of an event, stated entry by entry

  /** Entry `e` supplies a value for header `h`: its key is a `u64` naming
      a position whose header is `h`. */
  predicate Names(headers: seq<string>, e: Json, h: string) {
    var i := AsU64(Element(e, 0));
    i.Some? && i.value < |headers| && headers[i.value] == h
  }

  /** The value of the last entry supplying header `h`, if any. */
  function LastValue(headers: seq<string>, entries: seq<Json>, h: string): Option<Json>
    decreases |entries|
  {
    if |entries| == 0 then None
    else if Names(headers, entries[|entries| - 1], h) then Some(Element(entries[|entries| - 1], 1))
    else LastValue(headers, entries[..|entries| - 1], h)
  }

  /** The id the last string-keyed entry sets, 0 when none does. */
  function LastId(entries: seq<Json>): nat
    decreases |entries|
  {
    if |entries| == 0 then 0
    else
      var e := entries[|entries| - 1];
      if Element(e, 0).Str? && AsU64(Element(e, 1)).Some? then AsU64(Element(e, 1)).value
      else LastId(entries[..|entries| - 1])
  }

  /** An entry the loop accepts: a numeric key is a `u64` below the number
      of headers, and a string key carries a `u64` id. */
  predicate EntryValid(headers: seq<string>, e: Json) {
    && (Element(e, 0).Num? ==> AsU64(Element(e, 0)).Some? && AsU64(Element(e, 0)).value < |headers|)
    && (Element(e, 0).Str? ==> AsU64(Element(e, 1)).Some?)
  }

  /** Every entry is accepted and every header is supplied. */
  predicate WellFormedData(headers: seq<string>, entries: seq<Json>) {
    && (forall k :: 0 <= k < |entries| ==> EntryValid(headers, entries[k]))
    && (forall j :: 0 <= j < |headers| ==> LastValue(headers, entries, headers[j]).Some?)
  }

  lemma {:induction false} StageAllSnoc(headers: seq<string>, st: Staging, entries: seq<Json>, e: Json)
    ensures StageAll(headers, st, entries + [e])
            == (match StageAll(headers, st, entries)
                case Success(mid) => StageEntry(headers, mid, e)
                case Failure(a) => Failure(a))
    decreases |entries|
  {
    if |entries| > 0 {
      assert (entries + [e])[1..] == entries[1..] + [e];
      var first := StageEntry(headers, st, entries[0]);
      if first.Success? {
        StageAllSnoc(headers, first.value, entries[1..], e);
      }
    } else {
      assert [] + [e] == [e];
    }
  }

  /** Staging succeeds exactly when every entry is accepted; then a header
      is staged exactly when some entry supplies it, with the value of the
      last such entry, and the id is the last one set. */
  lemma {:induction false} StagingMeaning(headers: seq<string>, entries: seq<Json>)
    ensures StageAll(headers, Staging(map[], 0), entries).Success?
            <==> forall k :: 0 <= k < |entries| ==> EntryValid(headers, entries[k])
    ensures StageAll(headers, Staging(map[], 0), entries).Success? ==>
              var st := StageAll(headers, Staging(map[], 0), entries).value;
              && st.id == LastId(entries)
              && forall h :: (h in st.values <==> LastValue(headers, entries, h).Some?)
                             && (h in st.values ==> LastValue(headers, entries, h) == Some(st.values[h]))
    decreases |entries|
  {
    if |entries| > 0 {
      var init := Staging(map[], 0);
      var prefix := entries[..|entries| - 1];
      var e := entries[|entries| - 1];
      assert entries == prefix + [e];
      StagingMeaning(headers, prefix);
      StageAllSnoc(headers, init, prefix, e);
      assert forall k :: 0 <= k < |prefix| ==> prefix[k] == entries[k];
    }
  }

  lemma {:induction false} CollectMeaning(headers: seq<string>, values: map<string, Json>)
    ensures Collect(headers, values).Success? <==> forall j :: 0 <= j < |headers| ==> headers[j] in values
    ensures Collect(headers, values).Success? ==>
              forall j :: 0 <= j < |headers| ==> Collect(headers, values).value[j] == values[headers[j]]
    decreases |headers|
  {
    if |headers| > 0 {
      CollectMeaning(headers[1..], values);
      assert forall j :: 1 <= j < |headers| ==> headers[j] == headers[1..][j - 1];
    }
  }

  /** A normal event rebuilds a row exactly when its data is well formed:
      the row is the id followed by, for each header in order, the value of
      the last entry supplying that header. */
  lemma DecodeRowMeaning(headers: seq<string>, event: Json)
    requires Member(event, "data").Arr?
    ensures var entries := Member(event, "data").items;
      DecodeRow(headers, event).Success? <==> WellFormedData(headers, entries)
    ensures var entries := Member(event, "data").items;
      DecodeRow(headers, event).Success? ==>
        var row := DecodeRow(headers, event).value;
        && |row| == |headers| + 1
        && row[0] == Num(Int(LastId(entries)))
        && forall j :: 0 <= j < |headers| ==> LastValue(headers, entries, headers[j]) == Some(row[j + 1])
  {
    var entries := Member(event, "data").items;
    StagingMeaning(headers, entries);
    var st := StageAll(headers, Staging(map[], 0), entries);
    if st.Success? {
      CollectMeaning(headers, st.value.values);
    }
  }

  /** Values are staged by header name, so two columns with the same header
      always show the same value. */
  lemma SameHeaderSameValue(headers: seq<string>, event: Json, i: nat, j: nat)
    requires Member(event, "data").Arr? && DecodeRow(headers, event).Success?
    requires i < |headers| && j < |headers| && headers[i] == headers[j]
    ensures DecodeRow(headers, event).value[i + 1] == DecodeRow(headers, event).value[j + 1]
  {
    DecodeRowMeaning(headers, event);
  }

  // ---------------------------------------------------------------------
  // Runs

  /** Once stopped, the loop takes no further input into account. */
  lemma {:induction false} StoppedStaysPut(headers: seq<string>, s: Session, inputs: seq<Input>)
    requires s.status.Stopped?
    ensures RunFrom(headers, s, inputs) == s
    decreases |inputs|
  {
    if |inputs| > 0 {
      StoppedStaysPut(headers, s, inputs[1..]);
    }
  }

  lemma {:induction false} RunAppend(headers: seq<string>, s: Session, a: seq<Input>, b: seq<Input>)
    ensures RunFrom(headers, s, a + b) == RunFrom(headers, RunFrom(headers, s, a), b)
    decreases |a|
  {
    if |a| > 0 {
      assert (a + b)[1..] == a[1..] + b;
      RunAppend(headers, Step(headers, s, a[0]), a[1..], b);
    } else {
      assert a + b == b;
    }
  }

  /** The session after `before`, one input `x`, then `after`. */
  lemma RunAround(headers: seq<string>, before: seq<Input>, x: Input, after: seq<Input>)
    ensures Run(headers, before + [x] + after)
            == RunFrom(headers, Step(headers, Run(headers, before), x), after)
  {
    RunAppend(headers, Start, before + [x], after);
    RunAppend(headers, Start, before, [x]);
  }

  /** A line on standard error replaces every row by the single row holding
      the line, publishes it, and ends the loop: nothing after it counts. */
  lemma ErrorLineEndsSession(headers: seq<string>, before: seq<Input>, text: string, after: seq<Input>)
    requires Run(headers, before).status.Running?
    ensures Run(headers, before + [ErrorLine(text)] + after)
            == Session([[Str(text)]], Run(headers, before).published + [[[Str(text)]]], Stopped(ToolError))
  {
    RunAround(headers, before, ErrorLine(text), after);
    StoppedStaysPut(headers, Step(headers, Run(headers, before), ErrorLine(text)), after);
  }

  /** The end of standard error ends the loop without publishing. */
  lemma ErrorEndStopsQuietly(headers: seq<string>, before: seq<Input>, after: seq<Input>)
    requires Run(headers, before).status.Running?
    ensures Run(headers, before + [ErrorEnd] + after).rows == Run(headers, before).rows
    ensures Run(headers, before + [ErrorEnd] + after).published == Run(headers, before).published
    ensures Run(headers, before + [ErrorEnd] + after).status == Stopped(ErrorStreamClosed)
  {
    RunAround(headers, before, ErrorEnd, after);
    StoppedStaysPut(headers, Step(headers, Run(headers, before), ErrorEnd), after);
  }

  /** Lines the loop skips: empty (zero-length) output lines and
      `attached_probes` events. */
  predicate Skipped(x: Input) {
    x.OutputEmpty? || (x.OutputEvent? && Member(x.event, "type") == Str("attached_probes"))
  }

  /** A skipped line changes nothing: the run is as if it never came. */
  lemma SkippedLineChangesNothing(headers: seq<string>, before: seq<Input>, x: Input, after: seq<Input>)
    requires Skipped(x)
    ensures Run(headers, before + [x] + after) == Run(headers, before + after)
  {
    RunAround(headers, before, x, after);
    RunAppend(headers, Start, before, after);
  }

  /** A `map` event appends the `DONE` row to the rows so far, publishes
      them, and ends the loop. */
  lemma MapEventFinishes(headers: seq<string>, before: seq<Input>, event: Json, after: seq<Input>)
    requires Run(headers, before).status.Running?
    requires Member(event, "type") == Str("map")
    ensures var s := Run(headers, before);
      Run(headers, before + [OutputEvent(event)] + after)
      == Session(s.rows + [FinishedRow], s.published + [s.rows + [FinishedRow]], Stopped(QueryFinished))
  {
    RunAround(headers, before, OutputEvent(event), after);
    StoppedStaysPut(headers, Step(headers, Run(headers, before), OutputEvent(event)), after);
  }

  /** Any other event appends exactly one row — the id, then one value per
      header — and publishes all rows so far; earlier rows are untouched. */
  lemma EventAppendsRow(headers: seq<string>, before: seq<Input>, event: Json)
    requires Run(headers, before).status.Running?
    requires Member(event, "type") != Str("attached_probes") && Member(event, "type") != Str("map")
    requires Member(event, "data").Arr? && WellFormedData(headers, Member(event, "data").items)
    ensures var s := Run(headers, before);
      var t := Run(headers, before + [OutputEvent(event)]);
      && t.status.Running?
      && |t.rows| == |s.rows| + 1 && s.rows <= t.rows
      && t.published == s.published + [t.rows]
      && |t.rows[|s.rows|]| == |headers| + 1
      && t.rows[|s.rows|][0] == Num(Int(LastId(Member(event, "data").items)))
      && forall j :: 0 <= j < |headers| ==>
           LastValue(headers, Member(event, "data").items, headers[j]) == Some(t.rows[|s.rows|][j + 1])
  {
    RunAppend(headers, Start, before, [OutputEvent(event)]);
    DecodeRowMeaning(headers, event);
  }

  /** The end of standard output publishes `[["Done"]]` in place of the
      rows, which are kept, and the loop goes on. */
  lemma OutputEndPublishesDone(headers: seq<string>, before: seq<Input>)
    requires Run(headers, before).status.Running?
    ensures var s := Run(headers, before);
      Run(headers, before + [OutputEnd]) == Session(s.rows, s.published + [DoneSnapshot], Running)
  {
    RunAppend(headers, Start, before, [OutputEnd]);
  }

  // ---------------------------------------------------------------------
  // Append-only growth

  /** Every snapshot other than `[["Done"]]` is a prefix of the current
      rows, and each such snapshot extends the ones sent before it. */
  predicate Growing(s: Session) {
    && (forall k :: 0 <= k < |s.published| ==> s.published[k] == DoneSnapshot || s.published[k] <= s.rows)
    && (forall i, j :: 0 <= i < j < |s.published| && s.published[i] != DoneSnapshot && s.published[j] != DoneSnapshot
          ==> s.published[i] <= s.published[j])
  }

  lemma StepKeepsGrowing(headers: seq<string>, s: Session, x: Input)
    requires Growing(s)
    requires Step(headers, s, x).status != Stopped(ToolError)
    ensures Growing(Step(headers, s, x))
  {
    var t := Step(headers, s, x);
    if s.rows <= t.rows && t.published == s.published + [t.rows] {
      forall k | 0 <= k < |t.published|
        ensures t.published[k] == DoneSnapshot || t.published[k] <= t.rows
      {
        if k < |s.published| {
          assert t.published[k] == s.published[k];
        }
      }
    }
  }

  /** Unless bpftrace reports an error, rows are only ever appended: every
      published snapshot except `[["Done"]]` extends the previous ones and
      is a prefix of the final rows. */
  lemma {:induction false} RunKeepsGrowing(headers: seq<string>, s: Session, inputs: seq<Input>)
    requires Growing(s)
    requires RunFrom(headers, s, inputs).status != Stopped(ToolError)
    ensures Growing(RunFrom(headers, s, inputs))
    decreases |inputs|
  {
    if |inputs| > 0 {
      var next := Step(headers, s, inputs[0]);
      if next.status == Stopped(ToolError) {
        StoppedStaysPut(headers, next, inputs[1..]);
      } else {
        StepKeepsGrowing(headers, s, inputs[0]);
        RunKeepsGrowing(headers, next, inputs[1..]);
      }
    }
  }

  lemma AppendOnlyGrowth(headers: seq<string>, inputs: seq<Input>)
    requires Run(headers, inputs).status != Stopped(ToolError)
    ensures Growing(Run(headers, inputs))
  {
    RunKeepsGrowing(headers, Start, inputs);
  }

  // ---------------------------------------------------------------------
  // A whole transcript

  /** An event `{"type": "value", "data": [["id", id], [0, pid]]}` for the
      single header `pid`. */
  function PidEvent(id: nat, pid: int): Json {
    Obj(map["type" := Str("value"), "data" := Arr([Arr([Str("id"), Num(Int(id))]), Arr([Num(Int(0)), Num(Int(pid))])])])
  }

  lemma DecodePidEvent(id: nat, pid: int)
    requires id < U64Limit
    ensures Member(PidEvent(id, pid), "type") == Str("value")
    ensures DecodeRow(["pid"], PidEvent(id, pid)) == Success([Num(Int(id)), Num(Int(pid))])
  {
    var idEntry := Arr([Str("id"), Num(Int(id))]);
    var pidEntry := Arr([Num(Int(0)), Num(Int(pid))]);
    assert Member(PidEvent(id, pid), "data") == Arr([idEntry, pidEntry]);
    var st1 := Staging(map[], id);
    assert StageEntry(["pid"], Staging(map[], 0), idEntry) == Success(st1);
    var st2 := Staging(map["pid" := Num(Int(pid))], id);
    assert StageEntry(["pid"], st1, pidEntry) == Success(st2);
    assert [pidEntry][1..] == [];
    assert StageAll(["pid"], st1, [pidEntry]) == Success(st2);
    assert [idEntry, pidEntry][1..] == [pidEntry];
    assert StageAll(["pid"], Staging(map[], 0), [idEntry, pidEntry]) == Success(st2);
    var headers: seq<string> := ["pid"];
    assert headers[1..] == [];
    assert headers[0] in st2.values && st2.values[headers[0]] == Num(Int(pid));
    assert Collect(headers[1..], st2.values) == Success([]);
    assert [Num(Int(pid))] + [] == [Num(Int(pid))];
    assert Collect(headers, st2.values) == Success([Num(Int(pid))]);
    assert [Num(Int(id))] + [Num(Int(pid))] == [Num(Int(id)), Num(Int(pid))];
  }

  const Attached: Input := OutputEvent(Obj(map["type" := Str("attached_probes")]))
  const MapDump: Input := OutputEvent(Obj(map["type" := Str("map")]))
  const Row1: Row := [Num(Int(1)), Num(Int(100))]
  const Row2: Row := [Num(Int(2)), Num(Int(200))]

  lemma TranscriptFirstSteps()
    ensures Step(["pid"], Start, Attached) == Start
    ensures Step(["pid"], Start, OutputEvent(PidEvent(1, 100))) == Session([Row1], [[Row1]], Running)
  {
    DecodePidEvent(1, 100);
    assert Start.rows + [Row1] == [Row1];
    assert Start.published + [[Row1]] == [[Row1]];
  }

  lemma TranscriptLastSteps()
    ensures Step(["pid"], Session([Row1], [[Row1]], Running), OutputEvent(PidEvent(2, 200)))
            == Session([Row1, Row2], [[Row1], [Row1, Row2]], Running)
    ensures Step(["pid"], Session([Row1, Row2], [[Row1], [Row1, Row2]], Running), MapDump)
            == Session([Row1, Row2, FinishedRow], [[Row1], [Row1, Row2], [Row1, Row2, FinishedRow]], Stopped(QueryFinished))
  {
    DecodePidEvent(2, 200);
    assert [Row1] + [Row2] == [Row1, Row2];
    assert [[Row1]] + [[Row1, Row2]] == [[Row1], [Row1, Row2]];
    assert [Row1, Row2] + [FinishedRow] == [Row1, Row2, FinishedRow];
    assert [[Row1], [Row1, Row2]] + [[Row1, Row2, FinishedRow]] == [[Row1], [Row1, Row2], [Row1, Row2, FinishedRow]];
  }

  /** Probes attached, two events, then the final map dump: the snapshots
      are one row, two rows, and the two rows with the `DONE` row. */
  lemma TranscriptWithTwoEvents()
    ensures Run(["pid"], [Attached, OutputEvent(PidEvent(1, 100)), OutputEvent(PidEvent(2, 200)), MapDump])
            == Session([Row1, Row2, FinishedRow], [[Row1], [Row1, Row2], [Row1, Row2, FinishedRow]], Stopped(QueryFinished))
  {
    var headers := ["pid"];
    var e1 := OutputEvent(PidEvent(1, 100));
    var e2 := OutputEvent(PidEvent(2, 200));
    var s1 := Session([Row1], [[Row1]], Running);
    var s2 := Session([Row1, Row2], [[Row1], [Row1, Row2]], Running);
    var s3 := Session([Row1, Row2, FinishedRow], [[Row1], [Row1, Row2], [Row1, Row2, FinishedRow]], Stopped(QueryFinished));
    TranscriptFirstSteps();
    TranscriptLastSteps();
    assert RunFrom(headers, s3, []) == s3;
    assert RunFrom(headers, s2, [MapDump]) == s3;
    assert RunFrom(headers, s1, [e2, MapDump]) == s3 by {
      assert [e2, MapDump][1..] == [MapDump];
    }
    assert RunFrom(headers, Start, [e1, e2, MapDump]) == s3 by {
      assert [e1, e2, MapDump][1..] == [e2, MapDump];
    }
    assert [Attached, e1, e2, MapDump][1..] == [e1, e2, MapDump];
  }
}
