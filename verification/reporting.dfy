/** Closing the loop after the payload ran: reading the loss from the
    payload's output artifact, reporting it to the sample coordinator and
    acknowledging the event range, and normalising the payload's exit
    status into this process's own. */
module Reporting {
  import opened Wrappers
  import opened Protocol

  /** The output artifact as the worker finds it: absent, not a JSON object
      (or unreadable), or the object's fields. */
  datatype Artifact = Missing | Malformed | Parsed(fields: map<string, Value>)

  /** Python's `x == 0` on a decoded JSON value. */
  predicate IsZero(v: Value)
  {
    v.Number? && v.n == 0.0
  }

  /** The object reports a usable loss: status zero and a non-null `loss`. */
  predicate HasUsableLoss(fields: map<string, Value>)
  {
    "status" in fields && IsZero(fields["status"]) && "loss" in fields && fields["loss"] != Null
  }

  /** The loss the worker will report. A missing artifact, a parse failure,
      a missing `status` or `loss` key (the `KeyError` is caught and
      logged), a non-zero status and a JSON `null` loss all give none. */
  function ExtractLoss(artifact: Artifact): (loss: Option<Value>)
    ensures loss.Some? <==> artifact.Parsed? && HasUsableLoss(artifact.fields)
    ensures loss.Some? ==> loss.value == artifact.fields["loss"] && loss.value != Null
  {
    match artifact
    case Missing => None
    case Malformed => None
    case Parsed(fields) =>
      if "status" !in fields then None
      else if !IsZero(fields["status"]) then None
      else if "loss" !in fields then None
      else if fields["loss"] == Null then None
      else Some(fields["loss"])
  }

  /** The reporting calls: nothing without a loss; otherwise the loss goes
      to the coordinator and, only if the coordinator accepted it, the
      event range is acknowledged to the scheduler. */
  function Report(eventID: string, sampleID: string, loss: Option<Value>, accepted: bool): (calls: seq<Call>)
    ensures loss.None? ==> calls == []
    ensures loss.Some? ==> |calls| > 0 && calls[0] == ReportLoss(sampleID, loss.value)
    ensures AcknowledgeEvent(eventID) in calls <==> loss.Some? && accepted
    ensures forall c :: c in calls ==> c == ReportLoss(sampleID, loss.value) || c == AcknowledgeEvent(eventID)
    ensures AcknowledgedAfterReport(calls)
    ensures |calls| <= 2
  {
    match loss
    case None => []
    case Some(v) => [ReportLoss(sampleID, v)] + (if accepted then [AcknowledgeEvent(eventID)] else [])
  }

  /** Python's `status %= 255` on the status the payload run returned. */
  const StatusModulus: nat := 255

  /** The payload status folded into `0..254`: the one value in range that
      differs from `raw` by a multiple of 255. */
  function Normalise(raw: int): (status: nat)
    ensures status < StatusModulus
    ensures (raw - status) % StatusModulus == 0
  {
    raw % StatusModulus
  }

  /** Two numbers in `0..254` that differ by a multiple of 255 are equal. */
  lemma CongruentInRange(a: int, b: int, q: int)
    requires 0 <= a < StatusModulus && 0 <= b < StatusModulus
    requires a - b == q * StatusModulus
    ensures a == b
  {
    assert q >= 1 ==> q * StatusModulus >= StatusModulus;
    assert q <= -1 ==> q * StatusModulus <= -(StatusModulus as int);
  }

  /** The status is determined by its two properties: any value in range
      congruent to `raw` is `Normalise(raw)`. */
  lemma NormaliseUnique(raw: int, s: int)
    requires 0 <= s < StatusModulus && (raw - s) % StatusModulus == 0
    ensures Normalise(raw) == s
  {
    var n := Normalise(raw);
    var q1 := (raw - s) / StatusModulus;
    var q2 := (raw - n) / StatusModulus;
    assert raw - s == q1 * StatusModulus;
    assert raw - n == q2 * StatusModulus;
    assert n - s == (q1 - q2) * StatusModulus;
    CongruentInRange(n, s, q1 - q2);
  }

  /** A wait status `256 * e` (exit code `e`, no signal) normalises to the
      exit code itself, for every code the wrapper can produce. */
  lemma WaitStatus(e: int)
    requires 0 <= e < StatusModulus
    ensures Normalise(256 * e) == e
  {
    assert 256 * e - e == e * StatusModulus;
    NormaliseUnique(256 * e, e);
  }

  /** A status already in range is left alone, so normalising twice is
      normalising once. */
  lemma NormaliseIdempotent(raw: int)
    ensures Normalise(Normalise(raw)) == Normalise(raw)
  {
    var n := Normalise(raw);
    assert n - n == 0 * StatusModulus;
    NormaliseUnique(n, n);
  }

  /** The payload runs inside a wrapper that exits with its own status
      folded by 255; seen from outside as a wait status, the folding of the
      folded status is the payload's folded status. */
  lemma WrappedPayloadStatus(payloadStatus: int)
    ensures Normalise(256 * Normalise(payloadStatus)) == Normalise(payloadStatus)
  {
    WaitStatus(Normalise(payloadStatus));
  }

  /** A payload exiting with code 255 (wait status `256 * 255`) comes out
      as 0, the status of success. */
  lemma ExitCode255Vanishes()
    ensures Normalise(256 * 255) == 0
  {
    assert 256 * 255 - 0 == 256 * StatusModulus;
    NormaliseUnique(256 * 255, 0);
  }
}
