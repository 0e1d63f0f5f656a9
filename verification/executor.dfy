/** The read loop of `execute_bpf_locally` (and its copy in
    `execute_bpf_remotely`) as a step function over the lines the two output
    streams deliver, already interleaved in the order the loop sees them.
    The state holds the accumulated rows, every snapshot sent to the
    subscribers, and whether the loop is still running. */
module Executor {
  import opened Wrappers
  import opened JsonValue

  type Row = seq<Json>

  /** What one turn of the loop receives. Output lines arrive decoded: an
      empty (zero-length) line, a JSON value, or text that is not JSON. A
      line holding only whitespace is not empty: it does not parse as JSON,
      so it is `OutputGarbage` and ends in `Stopped(Panicked(MalformedJson))`. */
  datatype Input =
    | ErrorLine(text: string)
    | ErrorEnd
    | ErrorReadFailed
    | OutputEmpty
    | OutputEvent(event: Json)
    | OutputGarbage
    | OutputEnd
    | OutputReadFailed

  /** Where the loop panics. */
  datatype Abort =
    /** A non-empty output line that does not parse as JSON. */
    | MalformedJson
    /** An event whose `data` member is not an array. */
    | DataNotArray
    /** A numeric key that is not a `u64`. */
    | BadIndexKey
    /** A numeric key past the last header. */
    | IndexOutOfRange(index: nat)
    /** A string key whose value is not a `u64`. */
    | BadId
    /** A header no entry of the event supplied a value for. */
    | MissingColumn(header: string)

  datatype StopReason =
    /** bpftrace wrote a line to standard error. */
    | ToolError
    | ErrorStreamClosed
    | ReadFailed
    /** A `map` event: the query finished. */
    | QueryFinished
    | Panicked(abort: Abort)

  datatype Status = Running | Stopped(reason: StopReason)

  datatype Session = Session(rows: seq<Row>, published: seq<seq<Row>>, status: Status)

  const Start: Session := Session([], [], Running)

  /** The snapshot sent when standard output ends. */
  const DoneSnapshot: seq<Row> := [[Str("Done")]]

  /** The row appended by a `map` event. */
  const FinishedRow: Row := [Str("DONE")]

  // ---------------------------------------------------------------------
  // Rebuilding a row from an event

  /** The values staged so far, by header name, and the id. */
  datatype Staging = Staging(values: map<string, Json>, id: nat)

  /** One `[key, value]` entry of `data`: a numeric key stages the value
      under the header at that position, a string key sets the id, any
      other key is ignored. */
  function StageEntry(headers: seq<string>, st: Staging, entry: Json): Result<Staging, Abort> {
    var key := Element(entry, 0);
    var value := Element(entry, 1);
    match key
    case Num(_) =>
      (match AsU64(key)
       case None => Failure(BadIndexKey)
       case Some(i) =>
         if i < |headers| then Success(st.(values := st.values[headers[i] := value]))
         else Failure(IndexOutOfRange(i)))
    case Str(_) =>
      (match AsU64(value)
       case None => Failure(BadId)
       case Some(n) => Success(st.(id := n)))
    case _ => Success(st)
  }

  /** The entries staged in order. */
  function StageAll(headers: seq<string>, st: Staging, entries: seq<Json>): Result<Staging, Abort>
    decreases |entries|
  {
    if |entries| == 0 then Success(st)
    else
      var next :- StageEntry(headers, st, entries[0]);
      StageAll(headers, next, entries[1..])
  }

  /** The staged value of every header in order; the first header without
      one aborts. */
  function Collect(headers: seq<string>, values: map<string, Json>): (r: Result<Row, Abort>)
    ensures r.Success? ==> |r.value| == |headers|
  {
    if |headers| == 0 then Success([])
    else if headers[0] !in values then Failure(MissingColumn(headers[0]))
    else
      var rest :- Collect(headers[1..], values);
      Success([values[headers[0]]] + rest)
  }

  /** The row of a normal event: the id, then one value per header. An
      event without a `data` array never gives a row. */
  function DecodeRow(headers: seq<string>, event: Json): (r: Result<Row, Abort>)
    ensures r.Success? ==> |r.value| == |headers| + 1 && r.value[0].Num? && r.value[0].n.Int?
    ensures r.Success? ==> Member(event, "data").Arr?
  {
    match Member(event, "data")
    case Arr(entries) =>
      var st :- StageAll(headers, Staging(map[], 0), entries);
      var values :- Collect(headers, st.values);
      Success([Num(Int(st.id))] + values)
    case _ => Failure(DataNotArray)
  }

  // ---------------------------------------------------------------------
  // The loop

  /** The accumulated rows after `rows`, sent to the subscribers. */
  function Publish(s: Session, rows: seq<Row>, status: Status): Session {
    Session(rows, s.published + [rows], status)
  }

  /** One turn of the loop. A stopped session ignores everything; nothing
      once published is taken back, and at most one snapshot is sent per
      turn, which is the rows or `[["Done"]]`; while the loop keeps
      running, rows are only appended, at most one per turn. */
  function Step(headers: seq<string>, s: Session, input: Input): (r: Session)
    ensures s.status.Stopped? ==> r == s
    ensures |s.published| <= |r.published| <= |s.published| + 1
    ensures r.published[..|s.published|] == s.published
    ensures |r.published| > |s.published| ==>
              r.published[|s.published|] == r.rows || r.published[|s.published|] == DoneSnapshot
    ensures r.status.Running? ==>
              |s.rows| <= |r.rows| <= |s.rows| + 1 && r.rows[..|s.rows|] == s.rows
  {
    if s.status.Stopped? then s
    else match input
      case ErrorLine(text) => Publish(s, [[Str(text)]], Stopped(ToolError))
      case ErrorEnd => s.(status := Stopped(ErrorStreamClosed))
      case ErrorReadFailed => s.(status := Stopped(ReadFailed))
      case OutputEmpty => s
      case OutputGarbage => s.(status := Stopped(Panicked(MalformedJson)))
      case OutputEvent(event) =>
        if Member(event, "type") == Str("attached_probes") then s
        else if Member(event, "type") == Str("map") then
          Publish(s, s.rows + [FinishedRow], Stopped(QueryFinished))
        else
          (match DecodeRow(headers, event)
           case Success(row) => Publish(s, s.rows + [row], Running)
           case Failure(a) => s.(status := Stopped(Panicked(a))))
      case OutputEnd => s.(published := s.published + [DoneSnapshot])
      case OutputReadFailed => s.(status := Stopped(ReadFailed))
  }

  function RunFrom(headers: seq<string>, s: Session, inputs: seq<Input>): Session
    decreases |inputs|
  {
    if |inputs| == 0 then s else RunFrom(headers, Step(headers, s, inputs[0]), inputs[1..])
  }

  /** The session after the loop has seen `inputs`. */
  function Run(headers: seq<string>, inputs: seq<Input>): Session {
    RunFrom(headers, Start, inputs)
  }
}
