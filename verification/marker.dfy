/** The composite event-range identifier and the sample marker file that
    carries `(eventID, sampleID)` from the resolution phase to the reporting
    phase. */
module Marker {
  import opened Wrappers
  import opened Text

  /** The sample ID is the fourth `-`-separated field of the event range ID;
      an identifier with fewer fields has none. */
  function SampleIdOf(eventRangeID: string): (r: Option<string>)
    ensures r.Some? <==> Count(eventRangeID, '-') >= 3
    ensures r.Some? ==> '-' !in r.value
    ensures r.Some? ==> forall ch :: ch in r.value ==> ch in eventRangeID
  {
    var fields := Split(eventRangeID, '-');
    if |fields| >= 4 then Some(fields[3]) else None
  }

  /** An identifier built from dash-free fields yields its fourth field. */
  lemma SampleIdOfFields(fields: seq<string>)
    requires |fields| >= 4
    requires forall i :: 0 <= i < |fields| ==> '-' !in fields[i]
    ensures SampleIdOf(Join(fields, '-')) == Some(fields[3])
  {
    SplitJoin(fields, '-');
  }

  /** The marker text `eventID,sampleID`. */
  function Format(eventID: string, sampleID: string): (text: string)
    ensures Count(text, ',') == Count(eventID, ',') + 1 + Count(sampleID, ',')
  {
    CountConcat(eventID, "," + sampleID, ',');
    CountConcat(",", sampleID, ',');
    assert eventID + "," + sampleID == eventID + ("," + sampleID);
    eventID + "," + sampleID
  }

  /** Reading the marker back with `text.split(',')` and unpacking into two
      names: anything but exactly two fields fails. */
  function Parse(text: string): (r: Option<(string, string)>)
    ensures r.Some? <==> Count(text, ',') == 1
    ensures r.Some? ==> ',' !in r.value.0 && ',' !in r.value.1
    ensures r.Some? ==> Format(r.value.0, r.value.1) == text
  {
    var fields := Split(text, ',');
    if |fields| == 2 then
      assert fields[1..] == [fields[1]];
      Some((fields[0], fields[1]))
    else None
  }

  /** The marker reads back as the pair that was written exactly when
      neither part contains a comma. */
  lemma RoundTrip(eventID: string, sampleID: string)
    ensures Parse(Format(eventID, sampleID)) == Some((eventID, sampleID))
      <==> ',' !in eventID && ',' !in sampleID
  {
    if ',' !in eventID && ',' !in sampleID {
      var fields := [eventID, sampleID];
      assert fields[1..] == [sampleID];
      assert Join(fields, ',') == Format(eventID, sampleID);
      SplitJoin(fields, ',');
    }
  }

  /** The marker the resolution phase writes for an event range whose ID
      holds no comma is read back as the same event and sample. */
  lemma EventMarkerRoundTrip(eventRangeID: string)
    requires ',' !in eventRangeID
    requires SampleIdOf(eventRangeID).Some?
    ensures var s := SampleIdOf(eventRangeID).value;
      Parse(Format(eventRangeID, s)) == Some((eventRangeID, s))
  {
    RoundTrip(eventRangeID, SampleIdOf(eventRangeID).value);
  }

  /** A comma inside the event ID gives the marker three or more fields,
      and reading it back fails. */
  lemma CommaBreaksMarker(eventID: string, sampleID: string)
    requires ',' in eventID
    ensures Parse(Format(eventID, sampleID)).None?
  {
  }
}
