/** Decoding of the three data-phase payloads scsi_meta.py reads: standard INQUIRY data
    (section 6.4 of SPC-3), the Unit Serial Number page (section 7.6 of SPC-3) and the
    READ CAPACITY(10) parameter data of SBC. */
module ScsiData {
  import opened Wrappers
  import opened ByteCodec
  import opened PyStrings
  import CommandBlock

  /** The payload was too short for an index the script reads (Python's IndexError, or
      struct.error for an unpack of fewer than four bytes). */
  datatype ParseError = TooShort

  /** Python's `data[lo:hi]`: clipped to the buffer, never an error. */
  function Slice(data: seq<Byte>, lo: nat, hi: nat): (s: seq<Byte>)
    requires lo <= hi
    ensures |s| == (if hi <= |data| then hi - lo else if lo <= |data| then |data| - lo else 0)
    ensures forall k :: 0 <= k < |s| ==> s[k] == data[lo + k]
  {
    if |data| <= lo then [] else if |data| <= hi then data[lo..] else data[lo..hi]
  }

  // ---------------------------------------------------------------------------
  // Standard INQUIRY

  datatype InquiryRecord = InquiryRecord(version: Byte, vendor: string, product: string)

  /** Bytes 8..14, stripped, then with every control character removed. */
  function Vendor(data: seq<Byte>): string
  {
    RemoveControls(Strip(Ascii(Slice(data, 8, 15))))
  }

  /** Bytes 16..30, stripped. */
  function Product(data: seq<Byte>): string
  {
    Strip(Ascii(Slice(data, 16, 31)))
  }

  /** The record Inquiry1 builds. `data[2]` fails on fewer than three bytes; the two
      string slices never fail. */
  function ParseInquiry(data: seq<Byte>): (r: Result<InquiryRecord, ParseError>)
    ensures r.Err? <==> |data| < 3
    ensures r.Ok? ==> && r.value.version == data[2]
                      && |r.value.vendor| <= 7
                      && (forall k :: 0 <= k < |r.value.vendor| ==> !IsControl(r.value.vendor[k]))
                      && (forall c :: c in r.value.vendor ==> c in Ascii(Slice(data, 8, 15)))
                      && |r.value.product| <= 15
                      && (r.value.product == [] || (!IsSpace(r.value.product[0])
                            && !IsSpace(r.value.product[|r.value.product| - 1])))
    ensures r.Ok? ==> r.value.vendor == RemoveControls(Strip(Ascii(Slice(data, 8, 15))))
    ensures r.Ok? ==> r.value.product == Strip(Ascii(Slice(data, 16, 31)))
  {
    if |data| < 3 then Err(TooShort)
    else Ok(InquiryRecord(data[2], Vendor(data), Product(data)))
  }

  /** A field holding `id` followed by spaces up to `hi` strips to `id` when the two
      ends of `id` are not whitespace. */
  lemma StripPaddedField(data: seq<Byte>, lo: nat, hi: nat, id: seq<Byte>)
    requires lo + |id| <= hi <= |data| && 0 < |id|
    requires data[lo..lo + |id|] == id
    requires forall k :: lo + |id| <= k < hi ==> data[k] == 0x20
    requires !IsSpace(Ascii(id)[0]) && !IsSpace(Ascii(id)[|id| - 1])
    ensures Strip(Ascii(Slice(data, lo, hi))) == Ascii(id)
  {
    var sl := Slice(data, lo, hi);
    assert sl == id + data[lo + |id|..hi];
    AsciiAppend(id, data[lo + |id|..hi]);
    var pad := Ascii(data[lo + |id|..hi]);
    assert forall k :: 0 <= k < |pad| ==> IsSpace(pad[k]) by {
      forall k | 0 <= k < |pad| ensures IsSpace(pad[k]) {
        assert pad[k] as int == data[lo + |id| + k];
      }
    }
    StripOfPadded([], Ascii(id), pad);
    assert [] + Ascii(id) + pad == Ascii(sl);
  }

  /** An identification padded with spaces, as SPC-3 fills these fields, decodes to the
      identification itself; the eighth vendor byte (index 15) and the sixteenth product
      byte (index 31) are not read at all. */
  lemma InquiryOfPaddedIds(data: seq<Byte>, vendor: seq<Byte>, product: seq<Byte>)
    requires 31 <= |data|
    requires 0 < |vendor| <= 7 && 0 < |product| <= 15
    requires data[8..8 + |vendor|] == vendor && data[16..16 + |product|] == product
    requires forall k :: 8 + |vendor| <= k < 15 ==> data[k] == 0x20
    requires forall k :: 16 + |product| <= k < 31 ==> data[k] == 0x20
    requires !IsSpace(Ascii(vendor)[0]) && !IsSpace(Ascii(vendor)[|vendor| - 1])
    requires forall k :: 0 <= k < |vendor| ==> 0x20 <= vendor[k]
    requires !IsSpace(Ascii(product)[0]) && !IsSpace(Ascii(product)[|product| - 1])
    ensures var r := ParseInquiry(data);
            && r.Ok? && r.value.version == data[2]
            && r.value.vendor == Ascii(vendor) && r.value.product == Ascii(product)
  {
    StripPaddedField(data, 8, 15, vendor);
    StripPaddedField(data, 16, 31, product);
    assert forall k :: 0 <= k < |vendor| ==> !IsControl(Ascii(vendor)[k]);
  }

  /** A string made only of control characters disappears. */
  lemma {:induction false} RemoveControlsOfControls(s: string)
    requires forall k :: 0 <= k < |s| ==> IsControl(s[k])
    ensures RemoveControls(s) == []
  {
    if s != [] {
      RemoveControlsOfControls(s[1..]);
    }
  }

  /** Control characters are removed only after stripping, so a space that sits before a
      trailing NUL survives: vendor bytes "AB \0\0\0\0" give "AB ". */
  lemma VendorKeepsSpaceBeforeNul(data: seq<Byte>)
    requires 15 <= |data|
    requires data[8..15] == [0x41, 0x42, 0x20, 0, 0, 0, 0]
    ensures Vendor(data) == "AB "
  {
    assert Slice(data, 8, 15) == [0x41, 0x42, 0x20, 0, 0, 0, 0];
    AsciiOfVendorBytes();
    StripKeepsVendorText(['A', 'B', ' '], [0 as char, 0 as char, 0 as char, 0 as char]);
    ControlsOfVendorText(['A', 'B', ' '], [0 as char, 0 as char, 0 as char, 0 as char]);
  }

  /** Nothing of "AB " followed by NULs is whitespace at either end. */
  lemma StripKeepsVendorText(text: string, nuls: string)
    requires text == ['A', 'B', ' '] && nuls == [0 as char, 0 as char, 0 as char, 0 as char]
    ensures Strip(text + nuls) == text + nuls
  {
    var empty: string := [];
    var s := text + nuls;
    assert s[0] == 'A' && s[|s| - 1] == 0 as char;
    StripOfPadded(empty, s, empty);
    assert empty + s + empty == s;
  }

  /** Removing the controls from "AB " followed by NULs leaves "AB ". */
  lemma ControlsOfVendorText(text: string, nuls: string)
    requires text == ['A', 'B', ' '] && nuls == [0 as char, 0 as char, 0 as char, 0 as char]
    ensures RemoveControls(text + nuls) == text
  {
    RemoveControlsAppend(text, nuls);
    RemoveControlsOfControls(nuls);
    assert RemoveControls(text) == text;
    assert text + [] == text;
  }

  lemma AsciiOfVendorBytes()
    ensures Ascii([0x41, 0x42, 0x20, 0, 0, 0, 0]) == ['A', 'B', ' '] + [0 as char, 0 as char, 0 as char, 0 as char]
  {
    var s := Ascii([0x41, 0x42, 0x20, 0, 0, 0, 0]);
    assert s[0] == 'A' && s[1] == 'B' && s[2] == ' ';
  }

  // ---------------------------------------------------------------------------
  // Unit Serial Number page

  datatype SerialPage = SerialPage(removable: bool, serial: Option<string>)

  /** What Inquiry2 reads: `bool(data[1] & 0x80)`, `data[4]` (read, then only printed),
      and, only when byte 1 is the page code 0x80, the serial number: bytes 4 up to
      4 + page length, clipped to the buffer, stripped. */
  function ParseSerialPage(data: seq<Byte>): (r: Result<SerialPage, ParseError>)
    ensures r.Err? <==> |data| < 5
    ensures r.Ok? ==> r.value.removable == (data[1] >= 0x80)
    ensures r.Ok? ==> (r.value.serial.Some? <==> data[1] == CommandBlock.SerialNumberPage)
    ensures r.Ok? && r.value.serial.Some? ==>
              |r.value.serial.value| <= data[3] && |r.value.serial.value| <= |data| - 4
    ensures r.Ok? && r.value.serial.Some? ==>
              r.value.serial.value == Strip(Ascii(Slice(data, 4, 4 + data[3] as int)))
  {
    if |data| < 5 then Err(TooShort)
    else
      var removable := data[1] >= 0x80;   // data[1] & 0x80 != 0
      if data[1] == CommandBlock.SerialNumberPage then
        Ok(SerialPage(removable, Some(Strip(Ascii(Slice(data, 4, 4 + data[3] as int))))))
      else Ok(SerialPage(removable, None))
  }

  /** "Removable" is taken from the page-code byte, so it is "Yes" whenever a serial
      number is produced. */
  lemma SerialImpliesRemovable(data: seq<Byte>)
    requires ParseSerialPage(data).Ok? && ParseSerialPage(data).value.serial.Some?
    ensures ParseSerialPage(data).value.removable
  {
  }

  /** A page laid out as section 7.6 of SPC-3 describes (qualifier, page code 0x80,
      reserved, page length, serial number) decodes to the serial number it carries. */
  lemma SerialPageRoundTrip(qualifier: Byte, sn: seq<Byte>)
    requires 0 < |sn| <= CommandBlock.SerialInquiryLength as int - 4
    requires !IsSpace(Ascii(sn)[0]) && !IsSpace(Ascii(sn)[|sn| - 1])
    ensures ParseSerialPage([qualifier, 0x80, 0, |sn|] + sn)
              == Ok(SerialPage(true, Some(Ascii(sn))))
  {
    var header: seq<Byte> := [qualifier, 0x80, 0, |sn|];
    var data := header + sn;
    assert data[1] == 0x80 && data[3] == |sn| && |data| == 4 + |sn|;
    assert data[4..4 + |sn|] == sn;
    StripPaddedField(data, 4, 4 + |sn|, sn);
    assert ParseSerialPage(data) == Ok(SerialPage(true, Some(Strip(Ascii(Slice(data, 4, 4 + |sn|))))));
  }

  // ---------------------------------------------------------------------------
  // READ CAPACITY(10)

  datatype CapacityRecord = CapacityRecord(totalBlocks: nat, blockSize: nat, totalBytes: nat)

  /** `struct.unpack(">I", data2[0:4])[0] + 1` blocks of `struct.unpack(">I", data2[4:8])[0]`
      bytes; either unpack fails unless it gets four bytes. */
  function ParseReadCapacity(data: seq<Byte>): (r: Result<CapacityRecord, ParseError>)
    ensures r.Err? <==> |data| < 8
    ensures r.Ok? ==> && r.value.totalBlocks == FromBe32(data[0..4]) + 1
                      && r.value.blockSize == FromBe32(data[4..8])
    ensures r.Ok? ==> && 1 <= r.value.totalBlocks <= 0x1_0000_0000
                      && r.value.blockSize < 0x1_0000_0000
                      && r.value.totalBytes == r.value.totalBlocks * r.value.blockSize
  {
    if |data| < 8 then Err(TooShort)
    else
      var lastLba: U32 := FromBe32(data[0..4]);
      var size: U32 := FromBe32(data[4..8]);
      var blocks: nat := lastLba + 1;
      var bytes := blocks * size;
      assert 0 <= bytes by {
        assert 0 < blocks && 0 <= size;
      }
      Ok(CapacityRecord(blocks, size, bytes))
  }

  /** The device writes the last logical block address and the block length big-endian;
      the decoder gets back one more block than that address and the same length. */
  lemma ReadCapacityRoundTrip(lastLba: U32, blockLength: U32)
    ensures var r := ParseReadCapacity(Be32(lastLba) + Be32(blockLength));
            r.Ok? && r.value.totalBlocks == lastLba + 1 && r.value.blockSize == blockLength
  {
    var data := Be32(lastLba) + Be32(blockLength);
    assert data[0..4] == Be32(lastLba);
    assert data[4..8] == Be32(blockLength);
  }

  /** `00 00 FF FF 00 00 02 00`: 65536 blocks of 512 bytes, 32 MiB. */
  lemma ReadCapacityExample()
    ensures ParseReadCapacity([0x00, 0x00, 0xFF, 0xFF, 0x00, 0x00, 0x02, 0x00])
              == Ok(CapacityRecord(65536, 512, 33554432))
  {
  }
}
