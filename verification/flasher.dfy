/** The firmware-update state machine: INIT, PREPARE, chunked transfer and
    REBOOT, modelled as a total function from the image and the two scripted
    device replies to the trace of reports sent, the progress events yielded
    and the final outcome. */
module Flasher {
  import opened Wrappers
  import opened Codec
  import opened Registry
  import opened Transport

  const CMD_BASE: u32 := 0x55AA00
  const CMD_INIT: u32 := CMD_BASE + 1
  const CMD_PREPARE: u32 := CMD_BASE + 5
  const CMD_REBOOT: u32 := CMD_BASE + 7

  /** Status word the bootloader answers INIT and PREPARE with on success. */
  const EXPECTED_STATUS: u32 := 0xFAFAFAFA

  datatype Step = Initialize | Prepare | Flash | Reboot | Complete

  /** One value yielded by the update generator. */
  datatype Progress = Progress(step: Step, fraction: real)

  datatype FlashError =
    | FirmwareTooLarge(size: nat, limit: nat)
      /** INIT reply not exactly one report long. */
    | ReplyLength(phase: Step, length: nat)
      /** Reply whose length is not a multiple of 4: the word decoder reads past its end. */
    | ReplyNotAligned(phase: Step, length: nat)
      /** Reply too short to hold the command or the status word: the message
          renderer is handed a missing value. */
    | ReplyTooShort(phase: Step, length: nat)
    | CmdMismatch(phase: Step, expected: u32, actual: u32)
    | StatusMismatch(phase: Step, expected: u32, actual: u32)

  /** Everything one update run does, in order. */
  datatype Run = Run(sent: seq<Report>, events: seq<Progress>, outcome: Outcome<FlashError>)

  /** The reports and events of the chunk loop. */
  datatype Transfer = Transfer(sent: seq<Report>, events: seq<Progress>)

  // ---------------------------------------------------------------- replies

  /** A well-formed INIT answer, read straight off the bytes: one full report
      echoing INIT with the success status. */
  predicate InitReplyOk(reply: seq<byte>) {
    |reply| == RESPONSE_LEN && WordAt(reply, 0) == CMD_INIT && WordAt(reply, 4) == EXPECTED_STATUS
  }

  /** A well-formed PREPARE answer: its length is not checked beyond being
      decodable into at least two words. */
  predicate PrepareReplyOk(reply: seq<byte>) {
    |reply| % 4 == 0 && |reply| >= 8 && WordAt(reply, 0) == CMD_PREPARE && WordAt(reply, 4) == EXPECTED_STATUS
  }

  /** Decodes a reply and compares word 0 with `cmd` and word 1 with the
      success status, in that order. */
  function CheckEcho(phase: Step, cmd: u32, reply: seq<byte>): (r: Outcome<FlashError>)
    ensures r == Pass <==>
      |reply| % 4 == 0 && |reply| >= 8 && WordAt(reply, 0) == cmd && WordAt(reply, 4) == EXPECTED_STATUS
    ensures r.Fail? ==> !r.error.FirmwareTooLarge? && r.error.phase == phase
    ensures r.Fail? && r.error.ReplyNotAligned? <==> |reply| % 4 != 0
    ensures r.Fail? && r.error.ReplyTooShort? <==>
      |reply| % 4 == 0 && (|reply| == 0 || (|reply| == 4 && WordAt(reply, 0) == cmd))
    ensures r.Fail? && r.error.CmdMismatch? <==> |reply| % 4 == 0 && |reply| >= 4 && WordAt(reply, 0) != cmd
    ensures r.Fail? && r.error.CmdMismatch? ==> r.error == CmdMismatch(phase, cmd, WordAt(reply, 0))
    ensures r.Fail? && r.error.StatusMismatch? <==>
      |reply| % 4 == 0 && |reply| >= 8 && WordAt(reply, 0) == cmd && WordAt(reply, 4) != EXPECTED_STATUS
    ensures r.Fail? && r.error.StatusMismatch? ==> r.error == StatusMismatch(phase, EXPECTED_STATUS, WordAt(reply, 4))
    ensures r.Fail? ==> !r.error.FirmwareTooLarge? && !r.error.ReplyLength?
  {
    match Unpack(reply)
    case None => Fail(ReplyNotAligned(phase, |reply|))
    case Some(ws) =>
      if |ws| < 1 then Fail(ReplyTooShort(phase, |reply|))
      else if ws[0] != cmd then Fail(CmdMismatch(phase, cmd, ws[0]))
      else if |ws| < 2 then Fail(ReplyTooShort(phase, |reply|))
      else if ws[1] != EXPECTED_STATUS then Fail(StatusMismatch(phase, EXPECTED_STATUS, ws[1]))
      else Pass
  }

  /** The INIT reply must first be exactly one report long. */
  function CheckInitReply(reply: seq<byte>): (r: Outcome<FlashError>)
    ensures r == Pass <==> InitReplyOk(reply)
    ensures r.Fail? ==> !r.error.FirmwareTooLarge? && r.error.phase == Initialize
    ensures r.Fail? && r.error.ReplyLength? <==> |reply| != RESPONSE_LEN
    ensures r.Fail? && r.error.ReplyLength? ==> r.error.length == |reply|
    ensures r.Fail? ==> !r.error.ReplyNotAligned? && !r.error.ReplyTooShort?
    ensures |reply| == RESPONSE_LEN && WordAt(reply, 0) != CMD_INIT ==>
      r == Fail(CmdMismatch(Initialize, CMD_INIT, WordAt(reply, 0)))
    ensures |reply| == RESPONSE_LEN && WordAt(reply, 0) == CMD_INIT && WordAt(reply, 4) != EXPECTED_STATUS ==>
      r == Fail(StatusMismatch(Initialize, EXPECTED_STATUS, WordAt(reply, 4)))
  {
    if |reply| != RESPONSE_LEN then Fail(ReplyLength(Initialize, |reply|))
    else CheckEcho(Initialize, CMD_INIT, reply)
  }

  // ---------------------------------------------------------------- frames

  function InitFrame(): Report {
    Frame(Pack([CMD_INIT]))
  }

  function PrepareFrame(qmkOffset: u32, paddedLen: u32): Report {
    Frame(Pack([CMD_PREPARE, qmkOffset, paddedLen]))
  }

  function RebootFrame(): Report {
    Frame(Pack([CMD_REBOOT]))
  }

  // ---------------------------------------------------------------- chunk loop

  function Min(a: int, b: int): int {
    if a <= b then a else b
  }

  /** The transfer loop from byte `offset` on: each chunk is sent as a raw
      report and followed by the fraction of the image sent so far. */
  function SendChunks(image: seq<byte>, offset: nat): (t: Transfer)
    decreases |image| - offset
  {
    if offset >= |image| then Transfer([], [])
    else
      var chunk := image[offset..Min(offset + CHUNK_SIZE, |image|)];
      var rest := SendChunks(image, offset + CHUNK_SIZE);
      Transfer([Frame(chunk)] + rest.sent,
               [Progress(Flash, (offset + |chunk|) as real / |image| as real)] + rest.events)
  }

  /** The fraction reported after chunk k of a padded image. */
  function ChunkFraction(image: seq<byte>, k: nat): real
    requires |image| > 0
  {
    (CHUNK_SIZE * (k + 1)) as real / |image| as real
  }

  /** On a padded image, starting at a chunk boundary, the loop sends the
      remaining chunks verbatim and in order, one report each. */
  lemma {:induction false} ChunkReports(image: seq<byte>, offset: nat)
    requires |image| % CHUNK_SIZE == 0 && offset % CHUNK_SIZE == 0 && offset <= |image|
    ensures var t := SendChunks(image, offset);
      && |t.sent| == (|image| - offset) / CHUNK_SIZE
      && forall k :: 0 <= k < |t.sent| ==>
           t.sent[k] == Report(0, image[offset + CHUNK_SIZE * k .. offset + CHUNK_SIZE * (k + 1)])
    decreases |image| - offset
  {
    if offset < |image| {
      var next := offset + CHUNK_SIZE;
      assert next <= |image|;
      var chunk := image[offset..next];
      FrameFullChunk(chunk);
      ChunkReports(image, next);
      var rest := SendChunks(image, next).sent;
      var sent := SendChunks(image, offset).sent;
      assert sent == [Report(0, chunk)] + rest;
      forall k | 1 <= k < |sent|
        ensures sent[k] == Report(0, image[offset + CHUNK_SIZE * k .. offset + CHUNK_SIZE * (k + 1)])
      {
        assert sent[k] == rest[k - 1];
        assert next + CHUNK_SIZE * (k - 1) == offset + CHUNK_SIZE * k;
      }
    }
  }

  /** On a padded image, starting at a chunk boundary, the loop yields after
      chunk k the fraction (k+1)*64/|image|. */
  lemma {:induction false} ChunkEvents(image: seq<byte>, offset: nat)
    requires |image| % CHUNK_SIZE == 0 && offset % CHUNK_SIZE == 0 && offset <= |image|
    ensures var t := SendChunks(image, offset);
      && |t.events| == (|image| - offset) / CHUNK_SIZE
      && forall k :: 0 <= k < |t.events| ==>
           t.events[k] == Progress(Flash, ChunkFraction(image, offset / CHUNK_SIZE + k))
    decreases |image| - offset
  {
    if offset < |image| {
      var next := offset + CHUNK_SIZE;
      assert next <= |image|;
      var chunk := image[offset..next];
      assert |chunk| == CHUNK_SIZE;
      ChunkEvents(image, next);
      var rest := SendChunks(image, next).events;
      var events := SendChunks(image, offset).events;
      assert (offset + |chunk|) as real / |image| as real == ChunkFraction(image, offset / CHUNK_SIZE);
      assert events == [Progress(Flash, ChunkFraction(image, offset / CHUNK_SIZE))] + rest;
      assert next / CHUNK_SIZE == offset / CHUNK_SIZE + 1;
      forall k | 1 <= k < |events|
        ensures events[k] == Progress(Flash, ChunkFraction(image, offset / CHUNK_SIZE + k))
      {
        assert events[k] == rest[k - 1];
      }
    }
  }

  /** A full chunk is sent verbatim. */
  lemma FrameFullChunk(chunk: seq<byte>)
    requires |chunk| == CHUNK_SIZE
    ensures Frame(chunk) == Report(0, chunk)
  {
    FramingAgrees(chunk);
  }

  /** The chunks concatenate back to the rest of the image. */
  lemma {:induction false} ChunksConcat(image: seq<byte>, offset: nat)
    requires |image| % CHUNK_SIZE == 0 && offset % CHUNK_SIZE == 0 && offset <= |image|
    ensures Concat(SendChunks(image, offset).sent) == image[offset..]
    decreases |image| - offset
  {
    if offset < |image| {
      var next := offset + CHUNK_SIZE;
      assert next <= |image|;
      var chunk := image[offset..next];
      FrameFullChunk(chunk);
      ChunksConcat(image, next);
      var rest := SendChunks(image, next).sent;
      var sent := SendChunks(image, offset).sent;
      assert sent == [Report(0, chunk)] + rest;
      assert sent[1..] == rest;
      assert Concat(sent) == chunk + Concat(rest);
      assert image[offset..] == chunk + image[next..];
    }
  }

  // ---------------------------------------------------------------- the run

  /** The rest of a run once both replies were accepted: PREPARE already
      sent, then `flash 0`, the chunk loop, `reboot 1`, REBOOT, `complete 1`. */
  function SuccessRun(image: seq<byte>, qmkOffset: u32): (run: Run)
    requires |image| < 0x1_0000_0000
  {
    var t := SendChunks(image, 0);
    Run([InitFrame(), PrepareFrame(qmkOffset, |image|)] + t.sent + [RebootFrame()],
        [Progress(Initialize, 0.0), Progress(Prepare, 0.0), Progress(Flash, 0.0)] + t.events
          + [Progress(Reboot, 1.0), Progress(Complete, 1.0)],
        Pass)
  }

  /** One update: size check (the unpadded length against the product's
      ceiling, without the load offset), padding, INIT, PREPARE with the
      padded length, the chunks, REBOOT. The first failure ends the run with
      nothing further sent or yielded. */
  function FlashDevice(productId: ProductId, firmware: seq<byte>, qmkOffset: u32,
                       initReply: seq<byte>, prepReply: seq<byte>): (run: Run)
    ensures run.outcome == Pass <==>
      |firmware| <= SizeLimit(productId) && InitReplyOk(initReply) && PrepareReplyOk(prepReply)
    ensures run.outcome == Pass ==> run == SuccessRun(Pad(firmware), qmkOffset)
    ensures run.outcome.Fail? && run.outcome.error.FirmwareTooLarge? <==> |firmware| > SizeLimit(productId)
    ensures |firmware| > SizeLimit(productId) ==>
      run == Run([], [], Fail(FirmwareTooLarge(|firmware|, SizeLimit(productId))))
    ensures |firmware| <= SizeLimit(productId) && !InitReplyOk(initReply) ==>
      && run.sent == [InitFrame()]
      && run.events == [Progress(Initialize, 0.0)]
      && run.outcome == CheckInitReply(initReply)
    ensures |firmware| <= SizeLimit(productId) && InitReplyOk(initReply) && !PrepareReplyOk(prepReply) ==>
      && run.sent == [InitFrame(), PrepareFrame(qmkOffset, |Pad(firmware)|)]
      && run.events == [Progress(Initialize, 0.0), Progress(Prepare, 0.0)]
      && run.outcome == CheckEcho(Prepare, CMD_PREPARE, prepReply)
  {
    var limit := SizeLimit(productId);
    if |firmware| > limit then Run([], [], Fail(FirmwareTooLarge(|firmware|, limit)))
    else
      var image := Pad(firmware);
      match CheckInitReply(initReply)
      case Fail(e) => Run([InitFrame()], [Progress(Initialize, 0.0)], Fail(e))
      case Pass =>
        match CheckEcho(Prepare, CMD_PREPARE, prepReply)
        case Fail(e) =>
          Run([InitFrame(), PrepareFrame(qmkOffset, |image|)],
              [Progress(Initialize, 0.0), Progress(Prepare, 0.0)], Fail(e))
        case Pass => SuccessRun(image, qmkOffset)
  }

  /** Number of chunks of the padded image. */
  function ChunkCount(firmware: seq<byte>): nat {
    |Pad(firmware)| / CHUNK_SIZE
  }

  /** The reports of a successful run on a padded image: INIT, PREPARE
      carrying the load offset and the padded length, the image as
      consecutive 64-byte chunks, REBOOT; every report has id 0 and is 64
      bytes long. */
  lemma SuccessReports(image: seq<byte>, qmkOffset: u32)
    requires |image| % CHUNK_SIZE == 0 && |image| < 0x1_0000_0000
    ensures var sent := SuccessRun(image, qmkOffset).sent;
      var n := |image| / CHUNK_SIZE;
      && |sent| == n + 3
      && sent[0].data == Pad(Pack([CMD_INIT]))
      && sent[1].data == Pad(Pack([CMD_PREPARE, qmkOffset, |image|]))
      && (forall k :: 0 <= k < n ==> sent[2 + k].data == image[CHUNK_SIZE * k .. CHUNK_SIZE * (k + 1)])
      && Concat(sent[2..n + 2]) == image
      && sent[n + 2].data == Pad(Pack([CMD_REBOOT]))
      && (forall i :: 0 <= i < |sent| ==> sent[i].reportId == 0 && |sent[i].data| == RESPONSE_LEN)
  {
    var t := SendChunks(image, 0);
    var sent := SuccessRun(image, qmkOffset).sent;
    var n := |image| / CHUNK_SIZE;
    ChunkReports(image, 0);
    ChunksConcat(image, 0);
    FrameLayout(InitFrame(), PrepareFrame(qmkOffset, |image|), t.sent, RebootFrame());
    CommandFrames(qmkOffset, |image|);
    forall i | 0 <= i < |sent|
      ensures sent[i].reportId == 0 && |sent[i].data| == RESPONSE_LEN
    {
      if 2 <= i < n + 2 {
        assert sent[i] == t.sent[i - 2];
      }
    }
  }

  /** Where the parts of a success trace sit. */
  lemma FrameLayout(a: Report, b: Report, mid: seq<Report>, c: Report)
    ensures var all := [a, b] + mid + [c];
      && |all| == |mid| + 3 && all[0] == a && all[1] == b && all[|mid| + 2] == c
      && all[2..|mid| + 2] == mid
      && forall k :: 0 <= k < |mid| ==> all[2 + k] == mid[k]
  {
  }

  /** The three command frames are the chunk padding of the packed words. */
  lemma CommandFrames(qmkOffset: u32, paddedLen: u32)
    ensures InitFrame().data == Pad(Pack([CMD_INIT]))
    ensures PrepareFrame(qmkOffset, paddedLen).data == Pad(Pack([CMD_PREPARE, qmkOffset, paddedLen]))
    ensures RebootFrame().data == Pad(Pack([CMD_REBOOT]))
  {
    FramingAgrees(Pack([CMD_INIT]));
    FramingAgrees(Pack([CMD_PREPARE, qmkOffset, paddedLen]));
    FramingAgrees(Pack([CMD_REBOOT]));
  }

  /** The events of a successful run on a padded image: initialize 0,
      prepare 0, flash 0, one flash event per chunk k with fraction
      (k+1)*64/|image|, reboot 1 and complete 1. */
  lemma SuccessEvents(image: seq<byte>, qmkOffset: u32)
    requires |image| % CHUNK_SIZE == 0 && |image| < 0x1_0000_0000
    ensures var events := SuccessRun(image, qmkOffset).events;
      var n := |image| / CHUNK_SIZE;
      && |events| == n + 5
      && events[..3] == [Progress(Initialize, 0.0), Progress(Prepare, 0.0), Progress(Flash, 0.0)]
      && (forall k :: 0 <= k < n ==> events[3 + k] == Progress(Flash, ChunkFraction(image, k)))
      && events[n + 3..] == [Progress(Reboot, 1.0), Progress(Complete, 1.0)]
      && (forall i :: 0 <= i < |events| ==> (events[i].step == Flash <==> 2 <= i < n + 3))
  {
    ChunkEvents(image, 0);
  }

  /** On success the reports sent are those of SuccessReports for the padded
      image. */
  lemma FlashSuccessReports(productId: ProductId, firmware: seq<byte>, qmkOffset: u32,
                            initReply: seq<byte>, prepReply: seq<byte>)
    requires |firmware| <= SizeLimit(productId) && InitReplyOk(initReply) && PrepareReplyOk(prepReply)
    ensures var run := FlashDevice(productId, firmware, qmkOffset, initReply, prepReply);
      var image := Pad(firmware);
      var n := ChunkCount(firmware);
      && |run.sent| == n + 3
      && run.sent[0].data == Pad(Pack([CMD_INIT]))
      && run.sent[1].data == Pad(Pack([CMD_PREPARE, qmkOffset, |image|]))
      && (forall k :: 0 <= k < n ==> run.sent[2 + k].data == image[CHUNK_SIZE * k .. CHUNK_SIZE * (k + 1)])
      && Concat(run.sent[2..n + 2]) == image
      && run.sent[n + 2].data == Pad(Pack([CMD_REBOOT]))
      && (forall i :: 0 <= i < |run.sent| ==> run.sent[i].reportId == 0 && |run.sent[i].data| == RESPONSE_LEN)
  {
    SuccessReports(Pad(firmware), qmkOffset);
  }

  /** On success the events yielded are those of SuccessEvents for the padded
      image; the flash step appears chunk count + 1 times. */
  lemma FlashSuccessEvents(productId: ProductId, firmware: seq<byte>, qmkOffset: u32,
                           initReply: seq<byte>, prepReply: seq<byte>)
    requires |firmware| <= SizeLimit(productId) && InitReplyOk(initReply) && PrepareReplyOk(prepReply)
    ensures var run := FlashDevice(productId, firmware, qmkOffset, initReply, prepReply);
      var n := ChunkCount(firmware);
      && |run.events| == n + 5
      && run.events[..3] == [Progress(Initialize, 0.0), Progress(Prepare, 0.0), Progress(Flash, 0.0)]
      && (forall k :: 0 <= k < n ==> run.events[3 + k] == Progress(Flash, ChunkFraction(Pad(firmware), k)))
      && run.events[n + 3..] == [Progress(Reboot, 1.0), Progress(Complete, 1.0)]
      && (forall i :: 0 <= i < |run.events| ==> (run.events[i].step == Flash <==> 2 <= i < n + 3))
  {
    SuccessEvents(Pad(firmware), qmkOffset);
  }

  /** A successful run sends chunk count + 3 reports and yields chunk count
      + 5 events, the last of which is complete 1. */
  lemma FlashSuccessLengths(productId: ProductId, firmware: seq<byte>, qmkOffset: u32,
                            initReply: seq<byte>, prepReply: seq<byte>)
    requires |firmware| <= SizeLimit(productId) && InitReplyOk(initReply) && PrepareReplyOk(prepReply)
    ensures var run := FlashDevice(productId, firmware, qmkOffset, initReply, prepReply);
      && |run.sent| == ChunkCount(firmware) + 3
      && |run.events| == ChunkCount(firmware) + 5
      && run.events[|run.events| - 1] == Progress(Complete, 1.0)
  {
    var image := Pad(firmware);
    ChunkReports(image, 0);
    ChunkEvents(image, 0);
  }

  /** Flash-phase fractions strictly increase with the chunk index, and the
      last chunk reports exactly 1. */
  lemma ChunkFractionsIncrease(image: seq<byte>, j: nat, k: nat)
    requires |image| > 0 && |image| % CHUNK_SIZE == 0
    ensures j < k ==> ChunkFraction(image, j) < ChunkFraction(image, k)
    ensures ChunkFraction(image, |image| / CHUNK_SIZE - 1) == 1.0
  {
    var n := |image| as real;
    if j < k {
      var a := (CHUNK_SIZE * (j + 1)) as real;
      var b := (CHUNK_SIZE * (k + 1)) as real;
      assert a < b;
      assert a / n < b / n by {
        assert a / n * n == a && b / n * n == b;
      }
    }
    assert CHUNK_SIZE * (|image| / CHUNK_SIZE - 1 + 1) == |image|;
  }

  // ---------------------------------------------------------------- messages

  /** Lower-case hexadecimal digit for 0..15. */
  function HexChar(d: nat): (c: char)
    requires d < 16
  {
    if d < 10 then ('0' as int + d) as char else ('a' as int + d - 10) as char
  }

  predicate IsLowerHex(c: char) {
    ('0' <= c <= '9') || ('a' <= c <= 'f')
  }

  function HexValue(c: char): nat
    requires IsLowerHex(c)
  {
    if c <= '9' then c as int - '0' as int else c as int - 'a' as int + 10
  }

  function Pow16(k: nat): nat {
    if k == 0 then 1 else 16 * Pow16(k - 1)
  }

  /** The `width` low hexadecimal digits of n, most significant first. */
  function HexDigits(n: nat, width: nat): (s: string)
    ensures |s| == width
    ensures forall i :: 0 <= i < |s| ==> IsLowerHex(s[i])
  {
    if width == 0 then "" else HexDigits(n / 16, width - 1) + [HexChar(n % 16)]
  }

  /** The number a string of lower-case hexadecimal digits denotes. */
  function ParseHex(s: string): nat
    requires forall i :: 0 <= i < |s| ==> IsLowerHex(s[i])
  {
    if s == [] then 0 else ParseHex(s[..|s| - 1]) * 16 + HexValue(s[|s| - 1])
  }

  lemma {:induction false} ParseHexDigits(n: nat, width: nat)
    requires n < Pow16(width)
    ensures ParseHex(HexDigits(n, width)) == n
  {
    if width > 0 {
      ParseHexDigits(n / 16, width - 1);
      var s := HexDigits(n, width);
      assert s[..|s| - 1] == HexDigits(n / 16, width - 1);
      assert HexValue(HexChar(n % 16)) == n % 16;
    }
  }

  /** The inner renderer of the mismatch messages: "0x" and exactly eight
      zero-padded lower-case hexadecimal digits that denote the word. */
  function Format(w: u32): (s: string)
    ensures |s| == 10 && s[..2] == "0x"
    ensures forall i :: 2 <= i < |s| ==> IsLowerHex(s[i])
    ensures ParseHex(s[2..]) == w
  {
    assert Pow16(8) == 0x1_0000_0000;
    ParseHexDigits(w, 8);
    var digits := HexDigits(w, 8);
    assert ("0x" + digits)[2..] == digits;
    "0x" + digits
  }

  /** The fixed words that open each of the four mismatch messages. */
  function MismatchPrefix(e: FlashError): string
    requires e.CmdMismatch? || e.StatusMismatch?
  {
    if e.phase == Initialize then
      if e.CmdMismatch? then "Failed to initialize: response cmd is " else "Failed to initialize: response status is "
    else
      if e.CmdMismatch? then "Failed to prepare: response cmd is " else "Failed to prepare: response status is "
  }

  /** Text of a command or status mismatch during INIT or PREPARE: the actual
      word, then the expected one, both rendered by Format and recoverable from
      the text. */
  function MismatchMessage(e: FlashError): (msg: string)
    requires e.CmdMismatch? || e.StatusMismatch?
    requires e.phase == Initialize || e.phase == Prepare
    ensures |msg| >= 31
    ensures e.phase == Initialize && e.CmdMismatch? ==> msg[..|msg| - 31] == "Failed to initialize: response cmd is "
    ensures e.phase == Initialize && e.StatusMismatch? ==> msg[..|msg| - 31] == "Failed to initialize: response status is "
    ensures e.phase == Prepare && e.CmdMismatch? ==> msg[..|msg| - 31] == "Failed to prepare: response cmd is "
    ensures e.phase == Prepare && e.StatusMismatch? ==> msg[..|msg| - 31] == "Failed to prepare: response status is "
    ensures msg[|msg| - 21..|msg| - 10] == ", expected "
    ensures msg[|msg| - 10..] == Format(e.expected)
    ensures msg[|msg| - 31..|msg| - 21] == Format(e.actual)
    ensures ParseHex(msg[|msg| - 8..]) == e.expected && ParseHex(msg[|msg| - 29..|msg| - 21]) == e.actual
  {
    var head := MismatchPrefix(e);
    var act := Format(e.actual);
    var exp := Format(e.expected);
    var msg := head + act + ", expected " + exp;
    MessageLayout(head, act, exp);
    msg
  }

  lemma MessageLayout(head: string, act: string, exp: string)
    requires |act| == 10 && |exp| == 10
    ensures var msg := head + act + ", expected " + exp;
      && |msg| == |head| + 31
      && msg[..|head|] == head
      && msg[|msg| - 21..|msg| - 10] == ", expected "
      && msg[|msg| - 10..] == exp
      && msg[|msg| - 8..] == exp[2..]
      && msg[|msg| - 31..|msg| - 21] == act
      && msg[|msg| - 29..|msg| - 21] == act[2..]
  {
    var msg := head + act + ", expected " + exp;
    assert msg == head + (act + (", expected " + exp));
  }

}
