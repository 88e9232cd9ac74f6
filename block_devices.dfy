/** The rules project/stats.py and pyudev_meta.py share: which block devices are
    scanned, how partitions are found, how a device is looked up, the sector count, the
    size rule and the smartctl line test. The system's answers (pyudev's device list,
    the ioctl and lseek results, smartctl's output) are inputs. */
module BlockDevices {
  import opened Wrappers
  import opened PyStrings

  /** A device of the "block" subsystem: its node, its udev properties, and the node of
      its nearest "block" ancestor (None when `find_parent("block")` finds none). */
  datatype BlockDevice = BlockDevice(node: string, properties: map<string, string>, parent: Option<string>)

  /** `dev.get(key, default)`. */
  function Property(d: BlockDevice, key: string, default: string): (v: string)
    ensures key in d.properties ==> v == d.properties[key]
    ensures key !in d.properties ==> v == default
  {
    if key in d.properties then d.properties[key] else default
  }

  // ---------------------------------------------------------------------------
  // get_all_devices

  /** The nodes get_all_devices keeps. */
  predicate IsScannedNode(node: string)
  {
    StartsWith(node, "/dev/sd") || StartsWith(node, "/dev/nvme")
  }

  /** get_all_devices: the nodes that start with "/dev/sd" or "/dev/nvme", in
      enumeration order. */
  function AllDevices(devices: seq<BlockDevice>): (nodes: seq<string>)
    ensures |nodes| <= |devices|
    ensures forall n :: n in nodes <==> exists k :: 0 <= k < |devices| && devices[k].node == n && IsScannedNode(n)
  {
    if devices == [] then []
    else
      var rest := AllDevices(devices[1..]);
      assert forall k :: 1 <= k < |devices| ==> devices[k] == devices[1..][k - 1];
      (if IsScannedNode(devices[0].node) then [devices[0].node] else []) + rest
  }

  /** The filter works device by device and keeps the enumeration order; with the
      membership clause of AllDevices this determines its result. */
  lemma {:induction false} AllDevicesAppend(a: seq<BlockDevice>, b: seq<BlockDevice>)
    ensures AllDevices(a + b) == AllDevices(a) + AllDevices(b)
    decreases |a|
  {
    if a != [] {
      assert (a + b)[1..] == a[1..] + b;
      AllDevicesAppend(a[1..], b);
    } else {
      assert a + b == b;
    }
  }

  // ---------------------------------------------------------------------------
  // get_partitions

  predicate IsPartition(d: BlockDevice)
  {
    "DEVTYPE" in d.properties && d.properties["DEVTYPE"] == "partition"
  }

  /** get_partitions: the nodes of the partitions whose parent node is `disk`, in
      enumeration order. A partition with no block parent makes the comprehension raise
      (None has no `device_node`): None. */
  function Partitions(devices: seq<BlockDevice>, disk: string): (r: Option<seq<string>>)
    ensures r.None? <==> exists k :: 0 <= k < |devices| && IsPartition(devices[k]) && devices[k].parent.None?
    ensures r.Some? ==> |r.value| <= |devices|
    ensures r.Some? ==> forall n :: n in r.value <==>
              exists k :: 0 <= k < |devices| && IsPartition(devices[k])
                          && devices[k].parent == Some(disk) && devices[k].node == n
  {
    if devices == [] then Some([])
    else
      var d := devices[0];
      var rest := Partitions(devices[1..], disk);
      assert forall k :: 1 <= k < |devices| ==> devices[k] == devices[1..][k - 1];
      if IsPartition(d) && d.parent.None? then None
      else if rest.None? then None
      else Some((if IsPartition(d) && d.parent == Some(disk) then [d.node] else []) + rest.value)
  }

  /** get_partitions goes device by device and keeps the enumeration order, one entry
      per matching partition: with the membership clause of Partitions this determines
      the list the "Partitions" column joins. */
  lemma {:induction false} PartitionsAppend(a: seq<BlockDevice>, b: seq<BlockDevice>, disk: string)
    requires Partitions(a, disk).Some? && Partitions(b, disk).Some?
    ensures Partitions(a + b, disk).Some?
    ensures Partitions(a + b, disk).value == Partitions(a, disk).value + Partitions(b, disk).value
    decreases |a|
  {
    if a == [] {
      assert a + b == b;
    } else {
      assert (a + b)[0] == a[0];
      assert (a + b)[1..] == a[1..] + b;
      PartitionsAppend(a[1..], b, disk);
      var d := a[0];
      var h := if IsPartition(d) && d.parent == Some(disk) then [d.node] else [];
      var x, y := Partitions(a[1..], disk).value, Partitions(b, disk).value;
      assert h + (x + y) == (h + x) + y;
    }
  }

  /** The partitions of a single device: its node exactly when it is a partition of
      `disk`, so every matching partition is listed once. */
  lemma PartitionsOne(d: BlockDevice, disk: string)
    requires !(IsPartition(d) && d.parent.None?)
    ensures Partitions([d], disk).Some?
    ensures Partitions([d], disk).value == if IsPartition(d) && d.parent == Some(disk) then [d.node] else []
  {
    assert [d][1..] == [];
  }

  /** The "Partitions" column: the partitions joined with `sep`, or `none` when there are
      none. */
  function PartitionString(parts: seq<string>, sep: string, none: string): (s: string)
    ensures parts == [] ==> s == none
    ensures parts != [] ==> s == Join(parts, sep)
  {
    if parts == [] then none else Join(parts, sep)
  }

  // ---------------------------------------------------------------------------
  // The device lookup of get_device_details

  /** Index `k` holds the first device whose node is `path`. */
  predicate FirstWithNode(devices: seq<BlockDevice>, path: string, k: nat)
  {
    k < |devices| && devices[k].node == path && forall j :: 0 <= j < k ==> devices[j].node != path
  }

  /** The `for dev_obj in ...: if dev_obj.device_node == device_path: break` loop, whose
      `else` branch (no break) returns early. */
  method FindDevice(devices: seq<BlockDevice>, path: string) returns (found: Option<nat>)
    ensures found.None? <==> forall k :: 0 <= k < |devices| ==> devices[k].node != path
    ensures found.Some? ==> FirstWithNode(devices, path, found.value)
  {
    var k := 0;
    while k < |devices|
      invariant 0 <= k <= |devices|
      invariant forall j :: 0 <= j < k ==> devices[j].node != path
    {
      if devices[k].node == path {
        return Some(k);
      }
      k := k + 1;
    }
    return None;
  }

  // ---------------------------------------------------------------------------
  // get_sectors and the size rule

  /** What opening the device reports: the BLKSSZGET ioctl's logical sector size (an
      unsigned 32-bit word) and the offset lseek reaches at the end. */
  datatype Geometry = Geometry(sectorSize: nat, byteLength: nat)

  datatype SectorInfo = SectorInfo(sectorSize: nat, totalSectors: nat)

  /** get_sectors: the sector size and `byte length // sector size`. Any failure, the
      division by a zero sector size included, gives `(None, None)`: None. */
  function GetSectors(probe: Option<Geometry>): (r: Option<SectorInfo>)
    ensures r.None? <==> probe.None? || probe.value.sectorSize == 0
    ensures r.Some? ==> && r.value.sectorSize == probe.value.sectorSize
                        && r.value.totalSectors * r.value.sectorSize <= probe.value.byteLength
                        && probe.value.byteLength < (r.value.totalSectors + 1) * r.value.sectorSize
  {
    if probe.None? || probe.value.sectorSize == 0 then None
    else
      var g := probe.value;
      var q := g.byteLength / g.sectorSize;
      assert g.byteLength == q * g.sectorSize + g.byteLength % g.sectorSize;
      Some(SectorInfo(g.sectorSize, q))
  }

  /** `total_sectors * sector_size if sector_size and total_sectors else "Unknown"`, in
      bytes (the division into gigabytes is float work): None when the sector
      information is missing or either number is zero. */
  function KnownSize(info: Option<SectorInfo>): (size: Option<nat>)
    ensures size.None? <==> info.None? || info.value.sectorSize == 0 || info.value.totalSectors == 0
    ensures size.Some? ==> size.value == info.value.totalSectors * info.value.sectorSize
  {
    if info.None? || info.value.sectorSize == 0 || info.value.totalSectors == 0 then None
    else Some(info.value.totalSectors * info.value.sectorSize)
  }

  /** A known size is never more than the device's byte length, and less than one sector
      short of it. */
  lemma KnownSizeBounds(probe: Option<Geometry>)
    requires KnownSize(GetSectors(probe)).Some?
    ensures var size := KnownSize(GetSectors(probe)).value;
            0 < size <= probe.value.byteLength < size + probe.value.sectorSize
  {
    var info := GetSectors(probe).value;
    assert 0 < info.totalSectors * info.sectorSize;
    assert (info.totalSectors + 1) * info.sectorSize == info.totalSectors * info.sectorSize + info.sectorSize;
  }

  // ---------------------------------------------------------------------------
  // The smartctl line test

  /** get_temp's `"Temperature" in line or "Temperature Sensor 1" in line`. */
  predicate MentionsTemperature(line: string)
  {
    Contains(line, "Temperature") || Contains(line, "Temperature Sensor 1")
  }

  /** The second alternative adds nothing: the test is `"Temperature" in line`. */
  lemma MentionsTemperatureSimplifies(line: string)
    ensures MentionsTemperature(line) <==> Contains(line, "Temperature")
  {
    if Contains(line, "Temperature Sensor 1") {
      ContainsPrefix(line, "Temperature Sensor 1", "Temperature");
    }
  }

  /** What get_temp returns: a reading in degrees, or a text such as "Unknown". */
  datatype Temperature = Degrees(value: nat) | Text(text: string)
}
