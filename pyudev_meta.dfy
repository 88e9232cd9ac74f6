/** pyudev_meta.py: the same scan as project/stats.py with a stricter temperature
    reading, a free-space column, and a row that is dropped whenever the size is
    unknown. */
module PyudevMeta {
  import opened Wrappers
  import opened PyStrings
  import opened BlockDevices
  import Stats

  // ---------------------------------------------------------------------------
  // get_temp

  /** The reading get_temp takes from smartctl's lines. The first line that mentions
      "Temperature" decides: its first number, or "unknown" when it holds no digit (the
      `None.group()` call raises and the handler answers). "Unknown" when no line
      mentions it. */
  function Reading(lines: seq<string>): (t: Temperature)
    ensures t.Text? ==> t.text == "Unknown" || t.text == "unknown"
    ensures t == Text("Unknown") <==> forall k :: 0 <= k < |lines| ==> !MentionsTemperature(lines[k])
  {
    if lines == [] then Text("Unknown")
    else
      assert forall k :: 1 <= k < |lines| ==> lines[k] == lines[1..][k - 1];
      if MentionsTemperature(lines[0]) then
        if HasDigit(lines[0]) then Degrees(LeadingNumber(lines[0])) else Text("unknown")
      else Reading(lines[1..])
  }

  /** The first line that mentions "Temperature" decides, whatever follows it. */
  lemma {:induction false} ReadingFirst(lines: seq<string>, k: nat)
    requires k < |lines| && MentionsTemperature(lines[k])
    requires forall j :: 0 <= j < k ==> !MentionsTemperature(lines[j])
    ensures HasDigit(lines[k]) ==> Reading(lines) == Degrees(LeadingNumber(lines[k]))
    ensures !HasDigit(lines[k]) ==> Reading(lines) == Text("unknown")
    decreases k
  {
    if k > 0 {
      assert forall j :: 0 <= j < k - 1 ==> lines[1..][j] == lines[j + 1];
      ReadingFirst(lines[1..], k - 1);
    }
  }

  /** Where every line that mentions "Temperature" holds a digit, the two scripts take
      the same reading. */
  lemma {:induction false} ReadingAgrees(lines: seq<string>)
    requires forall k :: 0 <= k < |lines| && MentionsTemperature(lines[k]) ==> HasDigit(lines[k])
    ensures Reading(lines) == Stats.Reading(lines)
  {
    if lines != [] {
      assert forall k :: 0 <= k < |lines[1..]| ==> lines[1..][k] == lines[k + 1];
      ReadingAgrees(lines[1..]);
    }
  }

  /** Where they differ: a first "Temperature" line without a number. stats.py goes on
      to the next line; this script answers "unknown". */
  lemma ReadingDiffers(n: nat)
    ensures var lines := ["Temperature: -", "Temperature: " + DecimalString(n)];
            Reading(lines) == Text("unknown") && Stats.Reading(lines) == Degrees(n)
  {
    var first := "Temperature: -";
    var second := "Temperature: " + DecimalString(n);
    var lines := [first, second];
    assert Contains(first, "Temperature") by {
      assert OccursAt(first, "Temperature", 0);
    }
    assert Contains(second, "Temperature") by {
      assert OccursAt(second, "Temperature", 0);
    }
    assert !HasDigit(first) by {
      forall k | 0 <= k < |first| ensures !IsDigit(first[k]) {
      }
    }
    ReadingFirst(lines, 0);
    assert !HasDigit("Temperature: ");
    LeadingNumberOf("Temperature: ", n, []);
    assert DecimalString(n) + [] == DecimalString(n);
    Stats.ReadingFirst(lines, 1);
  }

  /** What get_temp returns for smartctl's output; a failure to run smartctl gives
      "unknown". */
  function Temp(output: Option<string>): (t: Temperature)
    ensures output.None? ==> t == Text("unknown")
    ensures output.Some? ==> t == Reading(Split(output.value, '\n'))
  {
    if output.None? then Text("unknown") else Reading(Split(output.value, '\n'))
  }

  /** get_temp's loop over `output.split("\n")`, which returns at the first line that
      mentions "Temperature". */
  method GetTemp(output: Option<string>) returns (t: Temperature)
    ensures t == Temp(output)
  {
    if output.None? {
      return Text("unknown");
    }
    var lines := Split(output.value, '\n');
    for k := 0 to |lines|
      invariant Reading(lines) == Reading(lines[k..])
    {
      assert lines[k..][0] == lines[k] && lines[k..][1..] == lines[k + 1..];
      if Contains(lines[k], "Temperature") || Contains(lines[k], "Temperature Sensor 1") {
        var m := SearchDigits(lines[k]);
        if m.None? {
          return Text("unknown");
        }
        return Degrees(DecimalValue(m.value));
      }
    }
    assert lines[|lines|..] == [];
    return Text("Unknown");
  }

  // ---------------------------------------------------------------------------
  // The mount point and free space

  /** An entry of `psutil.disk_partitions(all=True)`. */
  datatype Mount = Mount(device: string, mountpoint: string)

  /** The mount point of the first entry whose device is `device`. */
  function MountPoint(mounts: seq<Mount>, device: string): (mp: Option<string>)
    ensures mp.None? <==> forall k :: 0 <= k < |mounts| ==> mounts[k].device != device
    ensures mp.Some? ==> exists k :: 0 <= k < |mounts| && mounts[k].device == device
                          && mounts[k].mountpoint == mp.value
                          && forall j :: 0 <= j < k ==> mounts[j].device != device
  {
    if mounts == [] then None
    else if mounts[0].device == device then Some(mounts[0].mountpoint)
    else
      var mp := MountPoint(mounts[1..], device);
      assert forall k :: 1 <= k < |mounts| ==> mounts[k] == mounts[1..][k - 1];
      assert mp.Some? ==> (exists k :: 1 <= k < |mounts| && mounts[k].device == device
                            && mounts[k].mountpoint == mp.value
                            && forall j :: 0 <= j < k ==> mounts[j].device != device) by {
        if mp.Some? {
          var k :| 0 <= k < |mounts[1..]| && mounts[1..][k].device == device
                   && mounts[1..][k].mountpoint == mp.value
                   && forall j :: 0 <= j < k ==> mounts[1..][j].device != device;
          assert forall j :: 1 <= j < k + 1 ==> mounts[j] == mounts[1..][j - 1];
          assert mounts[k + 1].device == device;
        }
      }
      mp
  }

  /** The `for partition in psutil.disk_partitions(all=True)` loop with its `break`. */
  method FindMountPoint(mounts: seq<Mount>, device: string) returns (mp: Option<string>)
    ensures mp == MountPoint(mounts, device)
  {
    var k := 0;
    while k < |mounts|
      invariant 0 <= k <= |mounts|
      invariant MountPoint(mounts, device) == MountPoint(mounts[k..], device)
    {
      assert mounts[k..][0] == mounts[k] && mounts[k..][1..] == mounts[k + 1..];
      if mounts[k].device == device {
        return Some(mounts[k].mountpoint);
      }
      k := k + 1;
    }
    return None;
  }

  /** The free-space column in bytes: "Unknown" (None) when no entry mounts the device
      or its mount point is the empty string; otherwise `disk_usage(mount_point).free`,
      which raises (Err) for a path `freeSpace` has no answer for. */
  function FreeSpace(mounts: seq<Mount>, device: string, freeSpace: map<string, nat>): (r: Result<Option<nat>, string>)
    ensures r.Err? <==> exists mp :: MountPoint(mounts, device) == Some(mp) && mp != [] && mp !in freeSpace
    ensures r.Ok? && r.value.Some? ==> exists mp :: MountPoint(mounts, device) == Some(mp) && mp in freeSpace && r.value.value == freeSpace[mp]
    ensures (MountPoint(mounts, device).None? || MountPoint(mounts, device) == Some([])) ==> r == Ok(None)
    ensures var mp := MountPoint(mounts, device);
            mp.Some? && mp.value != [] && mp.value in freeSpace ==>
              r.Ok? && r.value.Some? && r.value.value == freeSpace[mp.value]
  {
    var mp := MountPoint(mounts, device);
    if mp.None? || mp.value == [] then Ok(None)
    else if mp.value in freeSpace then Ok(Some(freeSpace[mp.value]))
    else Err(mp.value)
  }

  // ---------------------------------------------------------------------------
  // get_device_details

  /** One row of the table: "Device", "Time", "Model", "Serial Number", "Device Type",
      "Partitions", "Sector Size" with "Total Sectors", "Size" in bytes (always known:
      an unknown size raises before the row is built), "Free space" in bytes (None for
      "Unknown"), "Filesystem type" and "Temperature(Celsius)". */
  datatype Row = Row(
    device: string,
    time: string,
    model: string,
    serialNumber: string,
    deviceType: string,
    partitions: string,
    sectors: SectorInfo,
    size: nat,
    free: Option<nat>,
    filesystem: string,
    temperature: Temperature)

  /** What one call of get_device_details reads from the system: the formatted clock,
      `os.path.realpath(device)`, pyudev's block devices, what opening the device
      reports, smartctl's output, psutil's mount table and the free bytes
      `disk_usage` reports per mount point. */
  datatype Probe = Probe(
    timestamp: string,
    realPath: string,
    devices: seq<BlockDevice>,
    geometry: Option<Geometry>,
    smartctl: Option<string>,
    mounts: seq<Mount>,
    freeSpace: map<string, nat>)

  /** The row get_device_details builds once `dev` is found. None when get_partitions
      raises, when `round` is handed "Unknown" because the size is not known, or when
      `disk_usage` raises. */
  function DeviceRow(device: string, p: Probe, dev: BlockDevice): (r: Option<Row>)
    ensures r.None? <==> || Partitions(p.devices, device).None?
                         || KnownSize(GetSectors(p.geometry)).None?
                         || FreeSpace(p.mounts, device, p.freeSpace).Err?
    ensures r.Some? ==> var parts := Partitions(p.devices, device).value;
      && r.value.device == device && r.value.time == p.timestamp
      && r.value.model == Property(dev, "ID_MODEL", "Unknown")
      && r.value.serialNumber == Property(dev, "ID_SERIAL_SHORT", "Unknown")
      && r.value.deviceType == Property(dev, "DEVTYPE", "Unknown")
      && (parts == [] ==> r.value.partitions == "None")
      && (parts != [] ==> r.value.partitions == Join(parts, ","))
      && Some(r.value.sectors) == GetSectors(p.geometry)
      && r.value.size == r.value.sectors.totalSectors * r.value.sectors.sectorSize
      && 0 < r.value.size
      && Ok(r.value.free) == FreeSpace(p.mounts, device, p.freeSpace)
      && r.value.filesystem == Property(dev, "ID_FS_TYPE", "Unknown")
      && r.value.temperature == Temp(p.smartctl)
  {
    var parts := Partitions(p.devices, device);
    var sectors := GetSectors(p.geometry);
    var size := KnownSize(sectors);
    var free := FreeSpace(p.mounts, device, p.freeSpace);
    if parts.None? || size.None? || free.Err? then None
    else
      assert 0 < sectors.value.totalSectors * sectors.value.sectorSize;
      Some(Row(device, p.timestamp,
               Property(dev, "ID_MODEL", "Unknown"),
               Property(dev, "ID_SERIAL_SHORT", "Unknown"),
               Property(dev, "DEVTYPE", "Unknown"),
               PartitionString(parts.value, ",", "None"),
               sectors.value, size.value, free.value,
               Property(dev, "ID_FS_TYPE", "Unknown"),
               Temp(p.smartctl)))
  }

  /** The "Partitions" column gives the partition list back: splitting it at ","
      returns the partitions when there are any and none holds a comma. */
  lemma PartitionColumnRoundTrip(parts: seq<string>)
    requires parts != []
    requires forall k :: 0 <= k < |parts| ==> ',' !in parts[k]
    ensures Split(PartitionString(parts, ",", "None"), ',') == parts
  {
    SplitJoin(parts, ',');
  }

  function Rows(r: Option<Row>): seq<Row>
  {
    if r.Some? then [r.value] else []
  }

  /** The global DataFrame `df`, which get_device_details extends. */
  class Report {
    var rows: seq<Row>

    constructor ()
      ensures rows == []
    {
      rows := [];
    }

    /** get_device_details: nothing is appended when no listed device has the real path
        as its node; otherwise the first such device's row is appended, if it can be
        built. */
    method GetDeviceDetails(device: string, p: Probe)
      modifies this
      ensures (forall k :: 0 <= k < |p.devices| ==> p.devices[k].node != p.realPath) ==> rows == old(rows)
      ensures forall k: nat :: FirstWithNode(p.devices, p.realPath, k) ==>
                rows == old(rows) + Rows(DeviceRow(device, p, p.devices[k]))
    {
      var found := FindDevice(p.devices, p.realPath);
      if found.None? {
        return;
      }
      Stats.FirstWithNodeUnique(p.devices, p.realPath, found.value);
      var dev := p.devices[found.value];
      var parts := Partitions(p.devices, device);
      if parts.None? {
        return;
      }
      var sectors := GetSectors(p.geometry);
      var size := KnownSize(sectors);
      if size.None? {
        return;
      }
      var temperature := GetTemp(p.smartctl);
      var mp := FindMountPoint(p.mounts, device);
      var free: Option<nat> := None;
      if mp.Some? && mp.value != [] {
        if mp.value !in p.freeSpace {
          return;
        }
        free := Some(p.freeSpace[mp.value]);
      }
      assert 0 < sectors.value.totalSectors * sectors.value.sectorSize;
      var row := Row(device, p.timestamp,
                     Property(dev, "ID_MODEL", "Unknown"),
                     Property(dev, "ID_SERIAL_SHORT", "Unknown"),
                     Property(dev, "DEVTYPE", "Unknown"),
                     PartitionString(parts.value, ",", "None"),
                     sectors.value, size.value, free,
                     Property(dev, "ID_FS_TYPE", "Unknown"),
                     temperature);
      rows := rows + [row];
    }
  }
}
