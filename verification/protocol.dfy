/** The values exchanged with the two remote services and the trace of
    externally visible actions the worker performs, in order. */
module Protocol {

  /** A JSON scalar as it appears in a service answer or in the job's output
      artifact. */
  datatype Value = Null | Number(n: real) | Text(s: string)

  /** A sample's hyperparameters, opaque to the worker. */
  type Params = map<string, Value>

  /** One externally visible action of the worker. */
  datatype Call =
    | GetEventRanges                                // ask the job scheduler for one event range
    | GetSample(sampleID: string)                   // ask the sample coordinator for a sample
    | AcknowledgeEvent(eventID: string)             // mark an event range `finished`
    | ReportLoss(sampleID: string, loss: Value)     // push a measured loss to the coordinator
    | WriteMarker(text: string)                     // write the sample marker file
    | WriteSampleFile(parameters: Params)           // write the input sample file
    | WriteManifest(fileName: string, entries: seq<string>)  // an input list written as JSON
    | Execute(jobParams: string)                    // run the payload with the packaged arguments

  /** Number of event-range requests in a trace. */
  function Fetches(calls: seq<Call>): nat
  {
    if |calls| == 0 then 0 else (if calls[0].GetEventRanges? then 1 else 0) + Fetches(calls[1..])
  }

  /** Number of sample-marker writes in a trace. */
  function MarkerWrites(calls: seq<Call>): nat
  {
    if |calls| == 0 then 0 else (if calls[0].WriteMarker? then 1 else 0) + MarkerWrites(calls[1..])
  }

  /** Number of coordinator lookups in a trace. */
  function Lookups(calls: seq<Call>): nat
  {
    if |calls| == 0 then 0 else (if calls[0].GetSample? then 1 else 0) + Lookups(calls[1..])
  }

  lemma {:induction false} TalliesConcat(a: seq<Call>, b: seq<Call>)
    ensures Fetches(a + b) == Fetches(a) + Fetches(b)
    ensures MarkerWrites(a + b) == MarkerWrites(a) + MarkerWrites(b)
    ensures Lookups(a + b) == Lookups(a) + Lookups(b)
    decreases |a|
  {
    if |a| == 0 {
      assert a + b == b;
    } else {
      assert (a + b)[1..] == a[1..] + b;
      TalliesConcat(a[1..], b);
    }
  }

  lemma TalliesOne(c: Call)
    ensures Fetches([c]) == (if c.GetEventRanges? then 1 else 0)
    ensures MarkerWrites([c]) == (if c.WriteMarker? then 1 else 0)
    ensures Lookups([c]) == (if c.GetSample? then 1 else 0)
  {
    assert [c][1..] == [];
  }

  /** Every event acknowledgement in the trace comes after a loss report. */
  ghost predicate AcknowledgedAfterReport(calls: seq<Call>)
  {
    forall j :: 0 <= j < |calls| && calls[j].AcknowledgeEvent? ==>
      exists i :: 0 <= i < j && calls[i].ReportLoss?
  }
}
