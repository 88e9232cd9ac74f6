# storage_testing in Dafny

A model of the storage-inspection scripts of storage_testing, with proofs about it.

**scsi_meta.py** talks to a USB flash drive over the Mass Storage Bulk-Only Transport. It sends three SCSI commands:
- a standard INQUIRY;
- an INQUIRY for the Unit Serial Number page (0x80);
- READ CAPACITY(10).

Each command builds a 16-byte CDB and packs it into a 31-byte Command Block Wrapper (section 5.1 of the Bulk-Only Transport specification, Rev 1.0). It writes the wrapper to the OUT endpoint, reads the data phase from IN, and then reads a status block it never decodes. After a failed INQUIRY status read, it clears the halt on both endpoints.

The model has five parts:
- `CommandBlock`: the wrapper codec, and `Pack`, the `+=` sequence that builds a wrapper.
- `ScsiData`: the three payload decoders. These cover INQUIRY data (section 6.4 of SPC-3), the serial-number page (section 7.6 of SPC-3) and the big-endian READ CAPACITY(10) data.
- `BulkOnly`: the exchange. It runs against `BulkOnly.Device`, a class whose `trace` records every write, read and clear-halt call. Its `replies` field scripts what the device will answer.
- `ByteCodec`: the `struct` formats `<I` and `>I`.
- `PyStrings`: the string operations the scripts rely on, written out: `strip`, `split`, `join`, `lower`, `in`, `re.search(r'\d+')`, `re.sub(r'[\x00-\x1F]', '')` and `int()`.

**project/stats.py and pyudev_meta.py** walk pyudev's block devices. For each one they append a row to a global table.
- The row holds the device's properties, its partitions and its sector geometry.
- It also holds a temperature scanned from smartctl's output.
- pyudev_meta.py adds a free-space column.

`BlockDevices` holds what the two scripts share:
- the node filter;
- `get_partitions`;
- `get_sectors`;
- the size rule;
- the device search loop.

`Stats` and `PyudevMeta` hold each script's own temperature scan and row. Each table is a `Report` class whose `GetDeviceDetails` appends to `rows`.

**meta.py and drivedata.py** share one logic; drivedata.py only adds log lines. This logic lives in `DriveMetadata`:
- the temperature selection rule over psutil's sensor readings;
- the loop that builds one record per admitted partition.

The drivedata.py lines that match the meta.py lines cited below are these:
- 29-34: the nested loop;
- 36-37: the NVMe maximum;
- 51: the device filter;
- 55: the type lookup;
- 58-74: the append and the PermissionError skip.

Several things the scripts get from the system become inputs to the model:
- the answers of pyudev, `ioctl`/`lseek`, smartctl, psutil and the USB library;
- the clock;
- `os.path.realpath`.

Exceptions that the code catches become `Option`/`Result` values. Exceptions that escape become `Err`.

Where the code departs from the standards, the model follows the code:
- The INQUIRY vendor is read from bytes 8..14 and the product from bytes 16..30. SPC-3 defines 8 and 16 bytes.
- Control characters are removed from the vendor after it is stripped. So a space before a trailing NUL survives (`ScsiData.VendorKeepsSpaceBeforeNul`).
- The "Removable" answer is bit 7 of byte 1, which in the serial-number page is the page code. So it is "Yes" whenever a serial is produced.

## Model

| member | source | states |
|---|---|---|
| ByteCodec.Le32 | scsi_meta.py:70-72 | `struct.pack("<I", v)` is four bytes that read back, least significant first, as `v` |
| ByteCodec.Le32OfFromLe32 | scsi_meta.py:70-72 | any four bytes are the little-endian encoding of the value they denote, so the format is a bijection |
| ByteCodec.Be32 | scsi_meta.py:227-228 | the big-endian image of a 32-bit value reads back through `struct.unpack(">I")` as that value |
| ByteCodec.Be32OfFromBe32 | scsi_meta.py:227-228 | any four bytes re-encode to themselves after a big-endian read |
| CommandBlock.PadCdb | scsi_meta.py:67 | the padded command block is 16 bytes, starts with the command and is zero after it |
| CommandBlock.StandardInquiryWrapper | scsi_meta.py:51-67 | tag 0xdeadbeef, direction IN, LUN 0, command length 6, CDB bytes 0-5 exactly `12 00 00 00 24 00` (INQUIRY, EVPD clear, allocation length 36) and zero after them, and a transfer length equal to the allocation length in byte 4 |
| CommandBlock.SerialInquiryWrapper | scsi_meta.py:124-140 | tag 0xdeadbeef, direction IN, LUN 0, command length 6, CDB bytes 0-5 exactly `12 01 80 00 18 00` (INQUIRY, EVPD set, page 0x80, allocation length 24) and zero after them, and 24 bytes both as transfer and allocation length |
| CommandBlock.ReadCapacityWrapper | scsi_meta.py:197-211 | tag 0xdeadbe01, direction IN, LUN 0, command length 10, opcode 0x25 followed only by zeros, transfer length 8 |
| CommandBlock.Encode | scsi_meta.py:70-76 | every wrapper image is 31 bytes and begins with the signature bytes 55 53 42 43 ("USBC") |
| CommandBlock.Decode | scsi_meta.py:70-76 | a string decodes exactly when it is 31 bytes with the signature; tag and length come from bytes 4-7 and 8-11 little-endian, flags, LUN and command length from bytes 12-14, the command block from bytes 15-30 |
| CommandBlock.DecodeEncode | scsi_meta.py:70-76 | decoding the image of a wrapper gives every field back |
| CommandBlock.EncodeDecode | scsi_meta.py:143-149 | every decodable string is the image of what it decodes to |
| CommandBlock.Pack | scsi_meta.py:70-78 | the six `+=` steps and `scsi_cmd[:16]` build exactly the wrapper image, so the script's 31-byte assertion always holds |
| ScsiData.Slice | scsi_meta.py:96 | `data[lo:hi]` is clipped to the buffer: its length is fixed by `lo`, `hi` and the buffer size, and it holds the buffer's bytes from `lo` on |
| ScsiData.ParseInquiry | scsi_meta.py:95-111 | fails exactly on fewer than three bytes; otherwise the version is byte 2, the vendor is bytes 8..14 (clipped) decoded, stripped and cleared of control characters, so at most 7 characters, none a control, all taken from the field, and the product is bytes 16..30 (clipped) decoded and stripped, so at most 15 characters with no whitespace at either end |
| ScsiData.InquiryOfPaddedIds | scsi_meta.py:95-111 | vendor and product identifications padded with spaces decode to the identifications themselves, with the version from byte 2 |
| ScsiData.VendorKeepsSpaceBeforeNul | scsi_meta.py:96-111 | vendor bytes "AB \0\0\0\0" give "AB ": the NULs go, the space before them stays |
| ScsiData.ParseSerialPage | scsi_meta.py:168-174 | fails exactly on fewer than five bytes; removable is bit 7 of byte 1; a serial exists exactly when byte 1 is 0x80, and it is bytes 4 up to 4 + byte 3, clipped to the buffer, decoded and stripped, so no longer than byte 3 nor than the bytes after index 4 |
| ScsiData.SerialImpliesRemovable | scsi_meta.py:168-174 | whenever a serial is produced, "Removable" is true |
| ScsiData.SerialPageRoundTrip | scsi_meta.py:172-174 | a page laid out as SPC-3 section 7.6 describes gives back its serial number, and removable |
| ScsiData.ParseReadCapacity | scsi_meta.py:227-231 | fails exactly on fewer than eight bytes; otherwise the block count is the big-endian value of bytes 0-3 plus one, the block size the big-endian value of bytes 4-7, so 1 to 2^32 blocks of a 32-bit size, and the capacity is their product |
| ScsiData.ReadCapacityRoundTrip | scsi_meta.py:227-228 | a last block address and block length written big-endian decode to one more block than that address, of that length |
| ScsiData.ReadCapacityExample | scsi_meta.py:227-231 | `00 00 FF FF 00 00 02 00` gives 65536 blocks of 512 bytes, 33554432 bytes |
| BulkOnly.Received | scsi_meta.py:85 | a read of `n` bytes returns everything the device sent exactly when the device completed the transfer with at most `n` bytes; a stall or a longer answer (a libusb overflow) makes it raise, and nothing is ever truncated |
| BulkOnly.Device.constructor | scsi_meta.py:12-47 | the opened device with its two bulk endpoints, before any call |
| BulkOnly.Device.Write | scsi_meta.py:82 | appends one write event, consumes one answer, and succeeds exactly when that answer is a transfer |
| BulkOnly.Device.Read | scsi_meta.py:85 | appends one read event, consumes one answer, and returns what `Received` gives for that answer: the bytes sent, or None when the call raises on a stall or an over-long answer |
| BulkOnly.Device.ClearHalt | scsi_meta.py:109-110 | appends one clear-halt event, consumes one answer, and succeeds exactly when that answer is a transfer |
| BulkOnly.Script | scsi_meta.py:82-110 | the longest exchange is five calls, in the order write, data read, status read, clear-halt IN, clear-halt OUT |
| BulkOnly.Steps | scsi_meta.py:82-110 | an exchange makes one to five of those calls: it stops after a failed write or a data read that raises (a stall or more bytes than requested), after a data phase too short to decode, after a good status read or an unguarded one, or after a failed first clear-halt |
| BulkOnly.Outcome | scsi_meta.py:82-110 | a success had a good write and a data read of at most the requested length and returns that data phase whole, after a status read that did not raise or two good clear-halts with recovery; a short-data failure happens exactly when the transfers worked, the data phase fit the request and is shorter than the decoder needs; every other failure is a USB error |
| BulkOnly.Transact | scsi_meta.py:82-110 | the calls made are a prefix of: the wrapper image to OUT, a data read of the transfer length from IN, a status read from IN, a clear-halt on IN, a clear-halt on OUT; where the prefix ends and what comes back follow the device's answers |
| BulkOnly.OutcomeOk | scsi_meta.py:82-110 | a successful exchange made three calls, or five when an INQUIRY status read stalled and both halts were cleared, and it returns the data phase whole, at least the decoder's minimum and at most the requested length |
| BulkOnly.OverlongDataFails | scsi_meta.py:85 | a data phase longer than requested makes the read raise: the exchange fails with a USB error after at most two calls |
| BulkOnly.StatusNotDecoded | scsi_meta.py:104-105 | the bytes of a completed status read (one that fits the status length) never change the outcome |
| BulkOnly.StallRecovered | scsi_meta.py:102-110 | a stalled INQUIRY status read followed by two good clear-halts still yields the data phase; without recovery (READ CAPACITY) the same answers fail |
| BulkOnly.Inquiry1 | scsi_meta.py:49-120 | the standard INQUIRY exchange: 36 bytes requested, a 16-byte status read, and the record ParseInquiry gives for the data phase, or the failure of the exchange |
| BulkOnly.Inquiry2 | scsi_meta.py:122-193 | the serial-number exchange: 24 bytes requested; without page code 0x80 the record fails for the unbound `serial`; otherwise "Removable" (always "Yes") and the serial |
| BulkOnly.ReadCap | scsi_meta.py:195-246 | the READ CAPACITY exchange: 8 bytes requested, an unguarded 13-byte status read, the decoded capacity; a success made exactly three calls |
| PyStrings.Ascii | scsi_meta.py:96 | one character per byte, with the byte's code |
| PyStrings.Lower | meta.py:26 | the same length, each letter lowered, and no upper-case letter left |
| PyStrings.LowerIdempotent | meta.py:30 | lowering twice is lowering once |
| PyStrings.Strip | scsi_meta.py:96 | the result is the slice between the first and last non-whitespace characters: empty exactly when everything is whitespace, with no whitespace at either end |
| PyStrings.StripOfPadded | scsi_meta.py:99 | whitespace around a core that neither starts nor ends with whitespace is exactly what strip removes |
| PyStrings.StripIdempotent | scsi_meta.py:96 | stripping twice is stripping once |
| PyStrings.RemoveControls | scsi_meta.py:111 | no control character is left, nothing new appears, and text without controls is unchanged |
| PyStrings.RemoveControlsAppend | scsi_meta.py:111 | the removal distributes over concatenation |
| PyStrings.Split | project/stats.py:100 | at least one piece, no piece holds the separator, and joining the pieces with it gives the text back |
| PyStrings.SplitJoin | pyudev_meta.py:64 | splitting undoes joining when no piece holds the separator |
| PyStrings.SearchDigits | project/stats.py:102 | None exactly when there is no digit; otherwise the match starts at the first digit, holds only digits, and ends where the digits do |
| PyStrings.DecimalRoundTrip | project/stats.py:104 | `int(str(n)) == n` |
| PyStrings.LeadingNumberOf | project/stats.py:102-104 | the number read from a line is the one written after a digit-free prefix |
| BlockDevices.Property | project/stats.py:64-66 | `dev.get(key, default)`: the property when present, the default otherwise |
| BlockDevices.AllDevices | project/stats.py:90-93 | no more nodes than devices, and a node is kept exactly when some device has it and it starts with "/dev/sd" or "/dev/nvme" |
| BlockDevices.AllDevicesAppend | pyudev_meta.py:117-120 | the filter works device by device, so the enumeration order is kept |
| BlockDevices.Partitions | project/stats.py:38-41 | fails exactly when some partition has no block parent; otherwise a node is listed exactly when it belongs to a partition whose parent is the disk |
| BlockDevices.PartitionsAppend | pyudev_meta.py:29-32 | the comprehension goes device by device: the partitions of `a + b` are those of `a` followed by those of `b`, so the enumeration order is kept |
| BlockDevices.PartitionsOne | project/stats.py:38-41 | a single device contributes its node once exactly when it is a partition of the disk, and nothing otherwise |
| BlockDevices.PartitionString | project/stats.py:68 | the "Partitions" column is the partitions joined with the separator, or the placeholder when there are none |
| BlockDevices.FindDevice | project/stats.py:54-61 | None exactly when no device has the path as its node; otherwise the first that does |
| BlockDevices.GetSectors | project/stats.py:25-34 | None exactly when the probe fails or the sector size is 0; otherwise the sector size and the floor of byte length over sector size |
| BlockDevices.KnownSize | project/stats.py:70-71 | "Unknown" (None) exactly when the sector information is missing or either number is zero, otherwise the product of the two numbers |
| BlockDevices.KnownSizeBounds | project/stats.py:69-71 | a known size is positive, at most the device's byte length, and less than one sector short of it |
| BlockDevices.MentionsTemperatureSimplifies | project/stats.py:101 | the "Temperature Sensor 1" test is subsumed by the "Temperature" test |
| Stats.Reading | project/stats.py:100-107 | a number exactly when some line mentions "Temperature" and holds a digit, "Unknown" otherwise |
| Stats.ReadingFirst | project/stats.py:100-106 | the first such line decides, with its first run of digits |
| Stats.Temp | project/stats.py:97-110 | the only text answer is "Unknown", which a failed smartctl also gives |
| Stats.GetTemp | project/stats.py:99-110 | the early-return loop returns the reading of the lines of the output |
| Stats.ReadingOfTemperatureLine | project/stats.py:101-106 | "Temperature:   41 Celsius" after lines that do not qualify reads as 41 |
| Stats.ReadingOfNumberedLine | project/stats.py:102-104 | a line that starts with a number and then mentions "Temperature" reads as that number |
| Stats.ReadingOfAttributeLine | project/stats.py:102-104 | an ATA attribute line "194 Temperature_Celsius ..." reads as 194, the attribute number, not its raw value |
| Stats.DeviceRow | project/stats.py:64-80 | no row exactly when get_partitions raises; otherwise each column as the script fills it, partitions joined with ", " or "No partitions found", and the size "Unknown" exactly when the sector information is missing or either number is zero, otherwise sectors times sector size |
| Stats.Report.constructor | project/stats.py:20-23 | the table starts empty |
| Stats.Report.GetDeviceDetails | project/stats.py:45-86 | when no device has the real path as its node the table is unchanged; otherwise the first such device's row is appended when it can be built |
| PyudevMeta.Reading | pyudev_meta.py:126-135 | "Unknown" exactly when no line mentions "Temperature"; the only other text is "unknown" |
| PyudevMeta.ReadingFirst | pyudev_meta.py:126-131 | the first line that mentions "Temperature" decides: its number, or "unknown" when it has no digit |
| PyudevMeta.ReadingAgrees | pyudev_meta.py:126-132 | when every line that mentions "Temperature" holds a digit, the reading equals the one in project/stats.py |
| PyudevMeta.ReadingDiffers | pyudev_meta.py:128-135 | a first "Temperature" line without a number gives "unknown" here, while project/stats.py reads the next line's number |
| PyudevMeta.Temp | pyudev_meta.py:123-135 | a failed smartctl gives "unknown"; otherwise the reading of the output's lines |
| PyudevMeta.GetTemp | pyudev_meta.py:125-135 | the early-return loop returns exactly that |
| PyudevMeta.MountPoint | pyudev_meta.py:76-80 | None exactly when no entry has the device; otherwise the mount point of the first entry that does |
| PyudevMeta.FindMountPoint | pyudev_meta.py:76-80 | the loop with `break` returns that mount point |
| PyudevMeta.FreeSpace | pyudev_meta.py:82-86 | an error exactly when the mount point is non-empty and `disk_usage` has no answer for it; "Unknown" when there is no mount point or it is empty; otherwise the free bytes reported |
| PyudevMeta.DeviceRow | pyudev_meta.py:57-104 | no row exactly when get_partitions raises, the size is unknown (`round` of "Unknown") or `disk_usage` raises; otherwise each column, partitions joined with "," or "None", and a positive size |
| PyudevMeta.PartitionColumnRoundTrip | pyudev_meta.py:64 | splitting the "Partitions" column at "," gives the partitions back |
| PyudevMeta.Report.constructor | pyudev_meta.py:14 | the table starts empty |
| PyudevMeta.Report.GetDeviceDetails | pyudev_meta.py:36-112 | when the device is not found the table is unchanged; otherwise the first match's row is appended when it can be built |
| DriveMetadata.DriveTemperature | meta.py:17-40 | the selection rule: "N/A" when sensors are unsupported, and every number it gives is one of psutil's readings (FirstLabelWins, NoLabelMatch and ResultIsAReading pin the choice) |
| DriveMetadata.NvmeReadings | meta.py:26-27 | a reading is collected exactly when some visited entry of an NVMe sensor has it |
| DriveMetadata.FirstMatch | meta.py:30-31 | no reading before the returned position has a matching label, and the one at it (if any) does |
| DriveMetadata.Max | meta.py:35 | `max` returns a member of the list that no element exceeds |
| DriveMetadata.FirstLabelWins | meta.py:23-31 | the first reading whose lowered label contains the device is the answer |
| DriveMetadata.NoLabelMatch | meta.py:34-40 | without a matching label, the answer is the largest NVMe reading, or "N/A" when there is none |
| DriveMetadata.ResultIsAReading | meta.py:27-40 | every number returned is one of psutil's readings; "N/A" comes exactly when sensors are unsupported, or no label matches and no NVMe sensor reports |
| DriveMetadata.UpperCaseDeviceNeverMatches | meta.py:30 | a device string with an upper-case letter never matches a lowered label |
| DriveMetadata.GetDriveTemperature | meta.py:17-40 | the nested loop returns the selection rule's answer |
| DriveMetadata.ScanEntries | drivedata.py:30-34 | the inner loop extends `nvme_temps` over the sensor's entries and stops at the first matching label, having seen no match before it |
| DriveMetadata.MatchInside | meta.py:30-31 | a match inside the loop, after no earlier match, is the rule's answer |
| DriveMetadata.PartitionType | meta.py:63 | the mapped name for the seven file systems of the table, and "Unknown" exactly for the others |
| DriveMetadata.IsDrive | meta.py:53 | every device with a "/dev/sda" or "/dev/nvme" prefix is admitted, and every admitted device is at least 8 characters long |
| DriveMetadata.DriveFilterExamples | drivedata.py:51 | the substring filter admits "/dev/sda1" and "/mnt/dev/sda" and rejects "/dev/sdb" |
| DriveMetadata.Step | meta.py:53-83 | a partition raises exactly when it is admitted and its usage fails other than by PermissionError; it contributes nothing when it is filtered out or denied, otherwise its one record |
| DriveMetadata.Metadata | meta.py:49-85 | no more records than partitions, each for an admitted device |
| DriveMetadata.MetadataAppend | meta.py:49-85 | records are appended in partition order, and an error stops the scan |
| DriveMetadata.MetadataFails | meta.py:54-83 | the scan fails exactly when some admitted partition's usage fails other than by PermissionError |
| DriveMetadata.MetadataRecords | meta.py:69-83 | a successful table is the records before a partition, then that partition's own, then those after it |
| DriveMetadata.MeasuredRecorded | meta.py:69-80 | every admitted, measured partition has its record in the table |
| DriveMetadata.GetDriveMetadata | meta.py:43-85 | the loop with `continue` builds exactly that table, or returns the error that escapes |

## Left out

- USB set-up and tear-down (scsi_meta.py:12-47, 249-281): device lookup, kernel-driver handling, configuration, endpoint search, the final clear-halts and the interface release are pyusb calls. The device is one `BulkOnly.Device` handle.
- The `main` sections and the loops that drive the scripts: scsi_meta.py:249-281, project/stats.py:112-122, pyudev_meta.py:139-158 and the `__main__` blocks of meta.py and drivedata.py.
- Timeouts, `time.sleep` and the timing of the data phase: they are real time. A device that raises is one `Stall` answer, whatever the cause; an answer longer than the read asked for raises too (`BulkOnly.Received`).
- Decoding the Command Status Wrapper: the scripts only print the status bytes. `BulkOnly.StatusNotDecoded` states that they are ignored.
- Printing, logging, `log_event`, pandas, the Excel files, `save_to_excel`, `os.chown`/`pwd`, and psutil's CPU and memory figures are output plumbing.
- Float work is not modelled: gigabytes, `round`, the usage percentage and READ CAPACITY's GB string. Sizes stay byte counts. `PyudevMeta.DeviceRow` keeps the one effect of `round` that matters, the exception on "Unknown".
- `uuid.uuid5` (SHA-1 based) and the UUID columns.
- Inputs stand in for the system's answers:
  - pyudev's device list;
  - `ioctl(BLKSSZGET)` and `lseek`, as one `Geometry` or a failure;
  - smartctl's output, or its failure;
  - `psutil.disk_partitions`, `disk_usage` and `sensors_temperatures`;
  - `os.path.realpath`;
  - the formatted clock.
- `DriveMetadata.Metadata` reads one sensor snapshot for every partition, while the script calls `sensors_temperatures` once per partition.
- A device whose `device_node` is None is not represented: nodes are strings. In the scripts such a device makes the `startswith` filter raise.
- met.py is not part of this model: it repeats meta.py's type lookup around psutil calls and float rounding.
- The `Testing over raw commands` scripts are not part of this model.
- PyStrings.Ascii: `decode(errors='ignore')` is modelled for ASCII bytes only. A byte of 0x80 or more, which UTF-8 decoding would drop or combine, becomes one character.
- PyStrings.Lower, PyStrings.SearchDigits and PyStrings.Strip cover ASCII only. Python's Unicode-aware `lower`, `\d` and whitespace are not modelled.
- Stats.Temp states only the "Unknown" cases in its own contract. The reading of the lines is specified by `Stats.Reading` and its lemmas.
