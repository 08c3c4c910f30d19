/** HID feature-report framing: every report written to the bootloader carries
    report id 0 and at most one chunk of payload. */
module Transport {
  import opened Wrappers
  import opened Codec

  /** Fixed size of a feature report, in both directions. */
  const RESPONSE_LEN: nat := 64

  /** One feature report as handed to the device: report id and data bytes. */
  datatype Report = Report(reportId: byte, data: seq<byte>)

  datatype TransportError = OversizedReport(length: nat)

  /** The framing as written: oversized payloads are refused, everything else
      is passed through `Pad`, which leaves an empty payload empty. */
  function SetFeatureReportAsWritten(payload: seq<byte>): (r: Result<Report, TransportError>)
    ensures r.Failure? <==> |payload| > RESPONSE_LEN
    ensures r.Failure? ==> r.error == OversizedReport(|payload|)
    ensures r.Success? ==> r.value.reportId == 0 && |r.value.data| % RESPONSE_LEN == 0
    ensures r.Success? && |payload| > 0 ==> |r.value.data| == RESPONSE_LEN
    ensures r.Success? ==> |payload| <= |r.value.data| && r.value.data[..|payload|] == payload
    ensures r.Success? ==> forall i :: |payload| <= i < |r.value.data| ==> r.value.data[i] == 0
  {
    if |payload| > RESPONSE_LEN then Failure(OversizedReport(|payload|))
    else Success(Report(0x00, Pad(payload)))
  }

  /** The empty payload is sent as a zero-length report, not as 64 bytes. */
  lemma EmptyReportNotPadded()
    ensures SetFeatureReportAsWritten([]) == Success(Report(0, []))
  {
  }

  /** The framing as intended: every accepted payload goes out as exactly 64
      bytes, the payload followed by zeros. */
  function SetFeatureReport(payload: seq<byte>): (r: Result<Report, TransportError>)
    ensures r.Failure? <==> |payload| > RESPONSE_LEN
    ensures r.Failure? ==> r.error == OversizedReport(|payload|)
    ensures r.Success? ==> r.value.reportId == 0 && |r.value.data| == RESPONSE_LEN
    ensures r.Success? ==> r.value.data[..|payload|] == payload
    ensures r.Success? ==> forall i :: |payload| <= i < RESPONSE_LEN ==> r.value.data[i] == 0
  {
    if |payload| > RESPONSE_LEN then Failure(OversizedReport(|payload|))
    else Success(Report(0x00, payload + Zeros(RESPONSE_LEN - |payload|)))
  }

  /** On every non-empty payload the two framings agree, and the data sent is
      the chunk padding of the payload. */
  lemma FramingAgrees(payload: seq<byte>)
    requires |payload| > 0
    ensures SetFeatureReport(payload) == SetFeatureReportAsWritten(payload)
    ensures |payload| <= RESPONSE_LEN ==> SetFeatureReport(payload).value.data == Pad(payload)
  {
    if |payload| <= RESPONSE_LEN {
      var a := SetFeatureReport(payload).value.data;
      PadUnique(payload, a);
    }
  }

  /** The report for a payload that fits. */
  function Frame(payload: seq<byte>): (r: Report)
    requires |payload| <= RESPONSE_LEN
    ensures r.reportId == 0 && |r.data| == RESPONSE_LEN && r.data[..|payload|] == payload
    ensures forall i :: |payload| <= i < RESPONSE_LEN ==> r.data[i] == 0
  {
    SetFeatureReport(payload).value
  }

  /** The data bytes of a run of reports, concatenated in order. */
  function Concat(reports: seq<Report>): (bs: seq<byte>)
  {
    if reports == [] then [] else reports[0].data + Concat(reports[1..])
  }
}
