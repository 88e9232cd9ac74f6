/** The SCSI command blocks scsi_meta.py sends and the 31-byte Command Block Wrapper
    of the USB Mass Storage Bulk-Only Transport (section 5.1 of its Rev 1.0
    specification) that carries them. */
module CommandBlock {
  import opened Wrappers
  import opened ByteCodec

  /** dCBWSignature, "USBC" once written little-endian. */
  const CbwSignature: U32 := 0x43425355
  /** The size of every wrapper. */
  const CbwLength := 31
  /** bmCBWFlags with the direction bit set: data flows from the device to the host. */
  const DirectionIn: Byte := 0x80

  const InquiryOpcode: Byte := 0x12
  const ReadCapacityOpcode: Byte := 0x25
  /** Page code of the Unit Serial Number vital product data page. */
  const SerialNumberPage: Byte := 0x80

  /** Allocation lengths, which are also the lengths of the data phases. */
  const StandardInquiryLength: Byte := 36
  const SerialInquiryLength: Byte := 24
  const ReadCapacityLength: Byte := 8

  /** The fixed 16-byte CBWCB field. */
  type Cdb = s: seq<Byte> | |s| == 16 witness seq(16, _ => 0)

  /** The fields of a Command Block Wrapper after its signature. */
  datatype Wrapper = Wrapper(
    tag: U32,
    dataTransferLength: U32,
    flags: Byte,
    lun: Byte,
    cbLength: Byte,
    cdb: Cdb)

  function Zeros(n: nat): (z: seq<Byte>)
    ensures |z| == n
    ensures forall k :: 0 <= k < n ==> z[k] == 0
  {
    seq(n, _ => 0)
  }

  /** `scsi_cmd += bytes(16 - len(scsi_cmd))`: the command left-justified in 16 bytes. */
  function PadCdb(cmd: seq<Byte>): (c: Cdb)
    requires |cmd| <= 16
    ensures c[..|cmd|] == cmd
    ensures forall k :: |cmd| <= k < 16 ==> c[k] == 0
  {
    cmd + Zeros(16 - |cmd|)
  }

  /** Every byte from index `from` on is zero. */
  predicate ZeroFrom(c: seq<Byte>, from: nat)
  {
    forall k :: from <= k < |c| ==> c[k] == 0
  }

  /** What section 5.1 of the Bulk-Only Transport specification asks of a wrapper
      beyond its size: a command length of 1 to 16, a LUN in the low four bits, no
      reserved flag bit set. */
  predicate Conforms(w: Wrapper)
  {
    && 1 <= w.cbLength <= 16
    && w.lun < 16
    && (w.flags == 0 || w.flags == DirectionIn)
  }

  /** The three wrappers scsi_meta.py sends: direction IN, LUN 0, the bytes of the CDB
      past its command length zero, and the data-phase length equal to what the CDB asks
      for. */
  predicate WellFormedRequest(w: Wrapper, length: nat)
  {
    && Conforms(w)
    && w.flags == DirectionIn
    && w.lun == 0
    && ZeroFrom(w.cdb, w.cbLength as nat)
    && w.dataTransferLength == length
  }

  // ---------------------------------------------------------------------------
  // The three commands

  /** INQUIRY with EVPD clear: opcode, EVPD, page 0, reserved, allocation length, control. */
  function StandardInquiryCdb(): (c: Cdb)
  {
    PadCdb([InquiryOpcode, 0x00, 0x00, 0x00, StandardInquiryLength, 0x00])
  }

  /** INQUIRY for vital product data page 0x80 (byte 1 = 0x01, byte 2 = 0x80). */
  function SerialInquiryCdb(): (c: Cdb)
  {
    PadCdb([InquiryOpcode, 0x01, SerialNumberPage, 0x00, SerialInquiryLength, 0x00])
  }

  /** READ CAPACITY(10): opcode, LUN, LBA, reserved, PMI, control, all zero but the
      opcode, then six bytes of padding. */
  function ReadCapacityCdb(): (c: Cdb)
  {
    PadCdb([ReadCapacityOpcode, 0x00, 0x00, 0x00, 0x00, 0x00, 0x00, 0x00, 0x00, 0x00])
  }

  function StandardInquiryWrapper(): (w: Wrapper)
    ensures WellFormedRequest(w, StandardInquiryLength as nat)
    ensures w.tag == 0xdeadbeef && w.cbLength == 6
    ensures w.cdb[..6] == [InquiryOpcode, 0x00, 0x00, 0x00, StandardInquiryLength, 0x00]
    ensures w.cdb[4] as int == w.dataTransferLength
  {
    Wrapper(0xdeadbeef, StandardInquiryLength as U32, DirectionIn, 0, 6, StandardInquiryCdb())
  }

  function SerialInquiryWrapper(): (w: Wrapper)
    ensures WellFormedRequest(w, SerialInquiryLength as nat)
    ensures w.tag == 0xdeadbeef && w.cbLength == 6
    ensures w.cdb[..6] == [InquiryOpcode, 0x01, SerialNumberPage, 0x00, SerialInquiryLength, 0x00]
    ensures w.cdb[4] as int == w.dataTransferLength
  {
    Wrapper(0xdeadbeef, SerialInquiryLength as U32, DirectionIn, 0, 6, SerialInquiryCdb())
  }

  function ReadCapacityWrapper(): (w: Wrapper)
    ensures WellFormedRequest(w, ReadCapacityLength as nat)
    ensures w.tag == 0xdeadbe01 && w.cbLength == 10
    ensures w.cdb[0] == ReadCapacityOpcode && ZeroFrom(w.cdb, 1)
  {
    Wrapper(0xdeadbe01, ReadCapacityLength as U32, DirectionIn, 0, 10, ReadCapacityCdb())
  }

  // ---------------------------------------------------------------------------
  // Encoding and decoding the wrapper

  /** The wire image of a wrapper: signature, tag and length little-endian, then flags,
      LUN, command length and the 16-byte command block. */
  function Encode(w: Wrapper): (b: seq<Byte>)
    ensures |b| == CbwLength
    ensures b[..4] == [0x55, 0x53, 0x42, 0x43]
  {
    Le32(CbwSignature) + Le32(w.tag) + Le32(w.dataTransferLength)
      + [w.flags, w.lun, w.cbLength] + w.cdb
  }

  /** Reads a wrapper back from 31 bytes whose first four are the signature. */
  function Decode(b: seq<Byte>): (r: Option<Wrapper>)
    ensures r.Some? <==> |b| == CbwLength && b[..4] == Le32(CbwSignature)
    ensures r.Some? ==> && Le32(r.value.tag) == b[4..8]
                        && Le32(r.value.dataTransferLength) == b[8..12]
                        && r.value.flags == b[12] && r.value.lun == b[13]
                        && r.value.cbLength == b[14] && r.value.cdb == b[15..]
  {
    if |b| != CbwLength || FromLe32(b[..4]) != CbwSignature then None
    else
      Le32OfFromLe32(b[..4]);
      Le32OfFromLe32(b[4..8]);
      Le32OfFromLe32(b[8..12]);
      Some(Wrapper(FromLe32(b[4..8]), FromLe32(b[8..12]), b[12], b[13], b[14], b[15..]))
  }

  /** Decoding an encoded wrapper gives every field back. */
  lemma DecodeEncode(w: Wrapper)
    ensures Decode(Encode(w)) == Some(w)
  {
    var b := Encode(w);
    assert b[4..8] == Le32(w.tag);
    assert b[8..12] == Le32(w.dataTransferLength);
    assert b[15..] == w.cdb;
  }

  /** A decodable byte string is the encoding of what it decodes to. */
  lemma EncodeDecode(b: seq<Byte>)
    requires Decode(b).Some?
    ensures Encode(Decode(b).value) == b
  {
    var w := Decode(b).value;
    assert b == b[..4] + b[4..8] + b[8..12] + [b[12], b[13], b[14]] + b[15..];
  }

  /** The `+=` sequence of scsi_meta.py: signature, tag, length, flags, LUN, command
      length, then `scsi_cmd[:16]`, followed by the script's length assertion. */
  method Pack(w: Wrapper) returns (cbw: seq<Byte>)
    ensures cbw == Encode(w)
    ensures |cbw| == CbwLength
  {
    cbw := Le32(CbwSignature);
    cbw := cbw + Le32(w.tag);
    cbw := cbw + Le32(w.dataTransferLength);
    cbw := cbw + [w.flags];
    cbw := cbw + [w.lun];
    cbw := cbw + [w.cbLength];
    cbw := cbw + w.cdb[..16];
    assert |cbw| == 31;
  }
}
