/** The static table of supported SN32 bootloaders and their firmware ceilings. */
module Registry {
  import opened Wrappers

  /** USB vendor id of Sonix Technology Co., Ltd. */
  const SONIX_VENDOR_ID: nat := 0x0c45

  const MAX_FIRMWARE_SN32F260: nat := 30 * 1024
  const MAX_FIRMWARE_SN32F240: nat := 64 * 1024

  /** The product ids of the three supported bootloaders. */
  type ProductId = p: int | p == 0x7010 || p == 0x7040 || p == 0x7900 witness 0x7010

  datatype Device = Device(vendorId: nat, productId: ProductId, description: string, qmkOffset: nat)

  const SupportedDevices: seq<Device> := [
    Device(SONIX_VENDOR_ID, 0x7010, "SN32F268F (bootloader)", 0x200),
    Device(SONIX_VENDOR_ID, 0x7040, "SN32F248B (bootloader)", 0x0),
    Device(SONIX_VENDOR_ID, 0x7900, "SN32F248 (bootloader)", 0x0)
  ]

  /** Maximum firmware size per product: the SN32F260 class holds 30 KiB, the
      SN32F240 class 64 KiB. */
  function SizeLimit(productId: ProductId): (limit: nat)
    ensures limit == 30 * 1024 || limit == 64 * 1024
    ensures limit == 30 * 1024 <==> productId == 0x7010
  {
    if productId == 0x7010 then MAX_FIRMWARE_SN32F260 else MAX_FIRMWARE_SN32F240
  }

  predicate Matches(d: Device, vendorId: nat, productId: nat) {
    d.vendorId == vendorId && d.productId == productId
  }

  /** First device of `devices` with the given ids (Array.prototype.find). */
  function Find(devices: seq<Device>, vendorId: nat, productId: nat): (r: Option<Device>)
    ensures r.Some? ==> r.value in devices && Matches(r.value, vendorId, productId)
    ensures r.None? <==> forall i :: 0 <= i < |devices| ==> !Matches(devices[i], vendorId, productId)
    ensures r.Some? ==> exists i :: 0 <= i < |devices| && devices[i] == r.value
                          && forall j :: 0 <= j < i ==> !Matches(devices[j], vendorId, productId)
  {
    if devices == [] then None
    else if Matches(devices[0], vendorId, productId) then Some(devices[0])
    else
      var r := Find(devices[1..], vendorId, productId);
      assert r.Some? ==> devices[1..][0] == devices[1];
      r
  }

  /** Descriptor of a supported bootloader, or None for anything else. */
  function Lookup(vendorId: nat, productId: nat): (r: Option<Device>)
    ensures r.Some? <==> vendorId == SONIX_VENDOR_ID && (productId == 0x7010 || productId == 0x7040 || productId == 0x7900)
    ensures r.Some? ==> r.value in SupportedDevices && r.value.vendorId == vendorId && r.value.productId == productId
  {
    var ds := SupportedDevices;
    assert |ds| == 3 && ds[0].productId == 0x7010 && ds[1].productId == 0x7040 && ds[2].productId == 0x7900;
    assert forall i :: 0 <= i < |ds| ==> ds[i].vendorId == SONIX_VENDOR_ID;
    Find(ds, vendorId, productId)
  }

  /** Every registered bootloader leaves room for an image above its load offset. */
  lemma RegistryConsistent()
    ensures forall d :: d in SupportedDevices ==> d.vendorId == SONIX_VENDOR_ID && d.qmkOffset < SizeLimit(d.productId)
    ensures Lookup(SONIX_VENDOR_ID, 0x7010).Some? && Lookup(SONIX_VENDOR_ID, 0x7010).value.qmkOffset == 0x200
  {
  }
}
