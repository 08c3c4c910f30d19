/** Structural validation of a firmware image before anything is written. */
module Validator {
  import opened Wrappers
  import opened Codec
  import opened Registry

  const MIN_FIRMWARE_LEN: nat := 0x100

  /** Range allowed for the initial stack pointer (SRAM, both ends inclusive). */
  const SP_MIN: nat := 0x2000_0000
  const SP_MAX: nat := 0x2000_0800

  datatype ValidationError =
    | TooLarge(size: nat, maxAllowed: int)
    | TooSmall
    | Corrupt

  predicate Thumb(w: u32) {
    w % 2 == 1
  }

  /** Vector-table plausibility, stated on the raw bytes: the initial stack
      pointer in [SP_MIN, SP_MAX] and the reset, NMI and hard-fault vectors
      with bit 0 (the Thumb bit) set. */
  predicate VectorTableOk(fw: seq<byte>)
    requires |fw| >= 16
  {
    && SP_MIN <= WordAt(fw, 0) <= SP_MAX
    && Thumb(WordAt(fw, 4)) && Thumb(WordAt(fw, 8)) && Thumb(WordAt(fw, 12))
  }

  /** The check of `validateFirmware`: `unpack` the first 16 bytes and test sp and vecs. */
  function CheckVectorTable(fw: seq<byte>): (ok: bool)
    requires |fw| >= 16
    ensures ok <==> VectorTableOk(fw)
  {
    var head := fw[..16];
    var ws := Unpack(head).value;
    assert forall k :: 0 <= k < 4 ==> WordAt(head, 4 * k) == WordAt(fw, 4 * k);
    var sp := ws[0];
    var vecs := ws[1..];
    !(sp < SP_MIN || sp > SP_MAX || vecs[0] % 2 != 1 || vecs[1] % 2 != 1 || vecs[2] % 2 != 1)
  }

  /** Size ceiling (length plus load offset), then minimum length, then the
      vector table; the first failing check decides the error. */
  function ValidateFirmware(productId: ProductId, fw: seq<byte>, qmkOffset: u32): (r: Outcome<ValidationError>)
    ensures r == Fail(TooLarge(|fw|, SizeLimit(productId) - qmkOffset)) <==> |fw| + qmkOffset > SizeLimit(productId)
    ensures r == Fail(TooSmall) <==> |fw| + qmkOffset <= SizeLimit(productId) && |fw| < MIN_FIRMWARE_LEN
    ensures r == Fail(Corrupt) <==>
      |fw| + qmkOffset <= SizeLimit(productId) && |fw| >= MIN_FIRMWARE_LEN && !VectorTableOk(fw)
    ensures r == Pass <==>
      |fw| + qmkOffset <= SizeLimit(productId) && |fw| >= MIN_FIRMWARE_LEN && VectorTableOk(fw)
  {
    var limit := SizeLimit(productId);
    if |fw| + qmkOffset > limit then Fail(TooLarge(|fw|, limit - qmkOffset))
    else if |fw| < MIN_FIRMWARE_LEN then Fail(TooSmall)
    else if !CheckVectorTable(fw) then Fail(Corrupt)
    else Pass
  }

  /** The boundaries of the size and stack-pointer checks. */
  lemma ValidatorBoundaries(productId: ProductId, fw: seq<byte>, qmkOffset: u32)
    requires |fw| >= MIN_FIRMWARE_LEN && VectorTableOk(fw)
    ensures |fw| + qmkOffset == SizeLimit(productId) ==> ValidateFirmware(productId, fw, qmkOffset) == Pass
    ensures |fw| + qmkOffset == SizeLimit(productId) + 1 ==> ValidateFirmware(productId, fw, qmkOffset).error.TooLarge?
  {
  }
}
