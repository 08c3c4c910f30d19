/** Concrete runs of the validator and the update state machine. */
module Scenarios {
  import opened Wrappers
  import opened Codec
  import opened Registry
  import opened Transport
  import opened Validator
  import opened Flasher

  /** The reply of a bootloader that accepts `cmd`: the echo and the success
      status, zero-padded to one report. */
  function GoodReply(cmd: u32): (reply: seq<byte>)
    ensures |reply| == RESPONSE_LEN && WordAt(reply, 0) == cmd && WordAt(reply, 4) == EXPECTED_STATUS
  {
    var p := Pack([cmd, EXPECTED_STATUS]);
    WordAtPad(p, 0);
    WordAtPad(p, 4);
    Pad(p)
  }

  /** The cooperative bootloader's replies are accepted by both checks. */
  lemma GoodRepliesAccepted()
    ensures InitReplyOk(GoodReply(CMD_INIT)) && PrepareReplyOk(GoodReply(CMD_PREPARE))
  {
  }

  /** The nine events of a successful run on a 256-byte padded image. */
  function Events256(): seq<Progress> {
    [Progress(Initialize, 0.0), Progress(Prepare, 0.0), Progress(Flash, 0.0),
     Progress(Flash, 0.25), Progress(Flash, 0.5), Progress(Flash, 0.75), Progress(Flash, 1.0),
     Progress(Reboot, 1.0), Progress(Complete, 1.0)]
  }

  /** A 256-byte image is sent as four chunks, reporting 0.25, 0.5, 0.75, 1. */
  lemma SuccessRun256(image: seq<byte>, qmkOffset: u32)
    requires |image| == 256
    ensures |SuccessRun(image, qmkOffset).sent| == 7
    ensures SuccessRun(image, qmkOffset).events == Events256()
  {
    SuccessReports(image, qmkOffset);
    SuccessEvents(image, qmkOffset);
    var events := SuccessRun(image, qmkOffset).events;
    var expected := Events256();
    assert ChunkFraction(image, 0) == 0.25 && ChunkFraction(image, 1) == 0.5;
    assert ChunkFraction(image, 2) == 0.75 && ChunkFraction(image, 3) == 1.0;
    assert events[..3] == expected[..3];
    assert events[7..] == expected[7..];
    assert forall i :: 0 <= i < 9 ==> events[i] == expected[i];
  }

  /** A 200-byte image is padded to 256 bytes and sent as four chunks; the
      generator yields initialize 0, prepare 0, flash 0, flash 0.25, 0.5,
      0.75, 1, reboot 1, complete 1. */
  lemma Progress200(productId: ProductId, firmware: seq<byte>, qmkOffset: u32, initReply: seq<byte>, prepReply: seq<byte>)
    requires |firmware| == 200 && InitReplyOk(initReply) && PrepareReplyOk(prepReply)
    ensures var run := FlashDevice(productId, firmware, qmkOffset, initReply, prepReply);
      && run.outcome == Pass
      && |run.sent| == 7
      && run.events == Events256()
  {
    assert |Pad(firmware)| == 256;
    SuccessRun256(Pad(firmware), qmkOffset);
  }

  /** The words of a 16-byte header are the words the validator reads. */
  lemma HeaderWords(fw: seq<byte>, sp: u32, v1: u32, v2: u32, v3: u32)
    requires |fw| >= 16 && fw[..16] == Pack([sp, v1, v2, v3])
    ensures WordAt(fw, 0) == sp && WordAt(fw, 4) == v1 && WordAt(fw, 8) == v2 && WordAt(fw, 12) == v3
  {
    var h := fw[..16];
    assert forall k :: 0 <= k < 4 ==> WordAt(h, 4 * k) == WordAt(fw, 4 * k);
    assert WordAt(h, 4 * 0) == sp && WordAt(h, 4 * 1) == v1 && WordAt(h, 4 * 2) == v2 && WordAt(h, 4 * 3) == v3;
  }

  /** With Thumb vectors, the stack-pointer bounds are inclusive at both ends:
      0x20000000 and 0x20000800 pass, 0x1FFFFFFF and 0x20000801 do not. */
  lemma StackPointerBounds(fw: seq<byte>, sp: u32)
    requires |fw| >= 16 && fw[..16] == Pack([sp, 0x101, 0x103, 0x105])
    ensures VectorTableOk(fw) <==> 0x2000_0000 <= sp <= 0x2000_0800
  {
    HeaderWords(fw, sp, 0x101, 0x103, 0x105);
  }

  /** A vector with bit 0 cleared is refused, whatever the stack pointer. */
  lemma ClearedThumbBit(fw: seq<byte>, sp: u32, v1: u32, v2: u32, v3: u32)
    requires |fw| >= 16 && fw[..16] == Pack([sp, v1, v2, v3])
    requires v1 % 2 == 0 || v2 % 2 == 0 || v3 % 2 == 0
    ensures !VectorTableOk(fw)
  {
    HeaderWords(fw, sp, v1, v2, v3);
  }

  /** A 64 KiB image for the SN32F248B whose vector table holds stack pointer
      0x20000400 and Thumb vectors passes validation. */
  lemma Validate64K(firmware: seq<byte>)
    requires |firmware| == 64 * 1024
    requires firmware[..16] == Pack([0x2000_0400, 0x101, 0x103, 0x105])
    ensures ValidateFirmware(0x7040, firmware, 0) == Pass
  {
    HeaderWords(firmware, 0x2000_0400, 0x101, 0x103, 0x105);
  }

  /** Any 64 KiB image for the SN32F248B, answered by a cooperative
      bootloader, flashes in 1024 chunks (1025 flash-step events counting the
      leading flash 0) and ends with complete 1. */
  lemma Flash64K(firmware: seq<byte>, initReply: seq<byte>, prepReply: seq<byte>)
    requires |firmware| == 64 * 1024 && InitReplyOk(initReply) && PrepareReplyOk(prepReply)
    ensures var run := FlashDevice(0x7040, firmware, 0, initReply, prepReply);
      && run.outcome == Pass
      && ChunkCount(firmware) == 1024
      && |run.sent| == 1027
      && |run.events| == 1029
      && run.events[|run.events| - 1] == Progress(Complete, 1.0)
  {
    assert ChunkCount(firmware) == 1024;
    FlashSuccessLengths(0x7040, firmware, 0, initReply, prepReply);
  }

  /** An INIT reply echoing the wrong command aborts right after INIT with
      nothing further sent or yielded. */
  lemma InitCommandMismatch(productId: ProductId, firmware: seq<byte>, qmkOffset: u32, prepReply: seq<byte>)
    requires |firmware| <= SizeLimit(productId)
    ensures var run := FlashDevice(productId, firmware, qmkOffset, GoodReply(0x55AA02), prepReply);
      && run.outcome == Fail(CmdMismatch(Initialize, CMD_INIT, 0x55AA02))
      && run.sent == [InitFrame()]
      && run.events == [Progress(Initialize, 0.0)]
  {
  }

  /** The message of that failure names both words in 8-digit lower-case
      hexadecimal. */
  lemma InitCommandMismatchMessage()
    ensures MismatchMessage(CmdMismatch(Initialize, CMD_INIT, 0x55AA02))
      == "Failed to initialize: response cmd is " + "0x0055aa02" + ", expected " + "0x0055aa01"
  {
    FormatCommands();
  }

  lemma FormatCommands()
    ensures Format(0x55AA02) == "0x0055aa02"
    ensures Format(CMD_INIT) == "0x0055aa01"
  {
    HexPrefix0055aa();
    assert HexDigits(0x55AA0, 7) == HexDigits(0x55AA, 6) + ['0'];
    assert HexDigits(0x55AA02, 8) == HexDigits(0x55AA0, 7) + ['2'];
    assert HexDigits(0x55AA01, 8) == HexDigits(0x55AA0, 7) + ['1'];
  }

  lemma HexPrefix0055aa()
    ensures HexDigits(0x55AA, 6) == "0055aa"
  {
    assert HexDigits(0, 2) == "00";
    assert HexDigits(5, 3) == HexDigits(0, 2) + ['5'];
    assert HexDigits(0x55, 4) == HexDigits(5, 3) + ['5'];
    assert HexDigits(0x55A, 5) == HexDigits(0x55, 4) + ['a'];
    assert HexDigits(0x55AA, 6) == HexDigits(0x55A, 5) + ['a'];
  }

  /** An image the validator accepts also passes the update's own size check,
      which ignores the load offset. */
  lemma ValidatedImageFitsFlashCheck(productId: ProductId, firmware: seq<byte>, qmkOffset: u32,
                                     initReply: seq<byte>, prepReply: seq<byte>)
    requires ValidateFirmware(productId, firmware, qmkOffset) == Pass
    ensures var run := FlashDevice(productId, firmware, qmkOffset, initReply, prepReply);
      run.outcome.Fail? ==> !run.outcome.error.FirmwareTooLarge?
  {
  }

  /** The converse fails: on the SN32F268F (load offset 0x200) a 30 KiB image
      is refused by the validator yet passes the update's size check. */
  lemma SizeChecksDiffer(firmware: seq<byte>)
    requires |firmware| == 30 * 1024
    ensures ValidateFirmware(0x7010, firmware, 0x200) == Fail(TooLarge(30 * 1024, 30 * 1024 - 0x200))
    ensures forall initReply, prepReply | InitReplyOk(initReply) && PrepareReplyOk(prepReply) ::
      FlashDevice(0x7010, firmware, 0x200, initReply, prepReply).outcome == Pass
  {
  }
}
