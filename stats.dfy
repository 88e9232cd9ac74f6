/** project/stats.py: the smartctl temperature reading and the row get_device_details
    appends to the global table. */
module Stats {
  import opened Wrappers
  import opened PyStrings
  import opened BlockDevices

  // ---------------------------------------------------------------------------
  // get_temp

  /** A line get_temp takes a reading from: it mentions "Temperature" and holds a digit.
      A line that mentions it without a digit is passed over. */
  predicate Qualifies(line: string)
  {
    MentionsTemperature(line) && HasDigit(line)
  }

  /** The reading get_temp takes from smartctl's lines: the first number on the first
      qualifying line, or "Unknown" when no line qualifies. */
  function Reading(lines: seq<string>): (t: Temperature)
    ensures t.Text? ==> t.text == "Unknown"
    ensures t.Degrees? <==> exists k :: 0 <= k < |lines| && Qualifies(lines[k])
  {
    if lines == [] then Text("Unknown")
    else
      assert forall k :: 1 <= k < |lines| ==> lines[k] == lines[1..][k - 1];
      if Qualifies(lines[0]) then Degrees(LeadingNumber(lines[0]))
      else Reading(lines[1..])
  }

  /** The first qualifying line decides, whatever follows it. */
  lemma {:induction false} ReadingFirst(lines: seq<string>, k: nat)
    requires k < |lines| && Qualifies(lines[k])
    requires forall j :: 0 <= j < k ==> !Qualifies(lines[j])
    ensures Reading(lines) == Degrees(LeadingNumber(lines[k]))
    decreases k
  {
    if k > 0 {
      assert forall j :: 0 <= j < k - 1 ==> lines[1..][j] == lines[j + 1];
      ReadingFirst(lines[1..], k - 1);
    }
  }

  /** What get_temp returns for smartctl's output (None when smartctl cannot be run or
      exits with an error). */
  function Temp(output: Option<string>): (t: Temperature)
    ensures t.Text? ==> t == Text("Unknown")
    ensures output.None? ==> t == Text("Unknown")
  {
    if output.None? then Text("Unknown") else Reading(Split(output.value, '\n'))
  }

  /** get_temp's loop over `output.split("\n")`, which returns at the first qualifying
      line. */
  method GetTemp(output: Option<string>) returns (t: Temperature)
    ensures t == Temp(output)
  {
    if output.None? {
      return Text("Unknown");
    }
    var lines := Split(output.value, '\n');
    for k := 0 to |lines|
      invariant Reading(lines) == Reading(lines[k..])
    {
      assert lines[k..][0] == lines[k] && lines[k..][1..] == lines[k + 1..];
      if Contains(lines[k], "Temperature") || Contains(lines[k], "Temperature Sensor 1") {
        var m := SearchDigits(lines[k]);
        if m.Some? {
          return Degrees(DecimalValue(m.value));
        }
      }
    }
    assert lines[|lines|..] == [];
    return Text("Unknown");
  }

  /** A line such as "Temperature:   41 Celsius" reads as 41, wherever it stands after
      lines that do not qualify. */
  lemma ReadingOfTemperatureLine(before: seq<string>, n: nat, after: seq<string>)
    requires forall j :: 0 <= j < |before| ==> !Qualifies(before[j])
    ensures Reading(before + ["Temperature:   " + (DecimalString(n) + " Celsius")] + after) == Degrees(n)
  {
    var line := "Temperature:   " + (DecimalString(n) + " Celsius");
    assert !HasDigit("Temperature:   ");
    LeadingNumberOf("Temperature:   ", n, " Celsius");
    assert line[..11] == "Temperature";
    assert OccursAt(line, "Temperature", 0);
    Seam(before, line, after);
    ReadingFirst(before + [line] + after, |before|);
  }

  /** Where the element `x` sits in `before + [x] + after`. */
  lemma Seam<T>(before: seq<T>, x: T, after: seq<T>)
    ensures (before + [x] + after)[|before|] == x
    ensures forall j :: 0 <= j < |before| ==> (before + [x] + after)[j] == before[j]
  {
  }

  /** A line that begins with a number and mentions "Temperature" after it reads as
      that number. */
  lemma ReadingOfNumberedLine(n: nat, tail: string)
    requires tail == [] || !IsDigit(tail[0])
    requires Contains(tail, "Temperature")
    ensures Reading([DecimalString(n) + tail]) == Degrees(n)
  {
    var empty: string := [];
    var ds := DecimalString(n);
    var line := ds + tail;
    assert empty + (ds + tail) == line;
    assert ds + tail + empty == line;
    LeadingNumberOf(empty, n, tail);
    ContainsWithin(ds, tail, empty, "Temperature");
    assert Qualifies(line);
    ReadingFirst([line], 0);
  }

  /** An ATA attribute line begins with the attribute's number, so whatever columns
      follow, the raw value among them, the reading of "194 Temperature_Celsius ..." is
      the attribute number 194. */
  lemma ReadingOfAttributeLine(id: nat, columns: string)
    ensures Reading([DecimalString(id) + (" Temperature_Celsius" + columns)]) == Degrees(id)
  {
    AttributeNameMentionsTemperature(columns);
    ReadingOfNumberedLine(id, " Temperature_Celsius" + columns);
  }

  lemma AttributeNameMentionsTemperature(columns: string)
    ensures Contains(" Temperature_Celsius" + columns, "Temperature")
  {
    var word := "Temperature";
    assert " Temperature_Celsius" + columns == " " + word + ("_Celsius" + columns);
    assert Contains(word, word) by {
      assert OccursAt(word, word, 0);
    }
    ContainsWithin(" ", word, "_Celsius" + columns, word);
  }

  // ---------------------------------------------------------------------------
  // get_device_details

  /** One row of the table: the columns "Device", "Time", "Model", "Serial Number",
      "Device Type", "Partitions", "Sector Size" and "Total Sectors" (both None after a
      failed probe), "Size" in bytes (None for "Unknown"), "Filesystem type" and
      "Temperature". */
  datatype Row = Row(
    device: string,
    time: string,
    model: string,
    serialNumber: string,
    deviceType: string,
    partitions: string,
    sectors: Option<SectorInfo>,
    size: Option<nat>,
    filesystem: string,
    temperature: Temperature)

  /** What one call of get_device_details reads from the system: the formatted clock,
      `os.path.realpath(device)`, the block devices pyudev lists, what opening the device
      reports, and smartctl's output. */
  datatype Probe = Probe(
    timestamp: string,
    realPath: string,
    devices: seq<BlockDevice>,
    geometry: Option<Geometry>,
    smartctl: Option<string>)

  /** The row get_device_details builds for `device` once `dev` is found, or None when
      get_partitions raises (the outer `except` then drops the row). */
  function DeviceRow(device: string, p: Probe, dev: BlockDevice): (r: Option<Row>)
    ensures r.None? <==> Partitions(p.devices, device).None?
    ensures r.Some? ==> var parts := Partitions(p.devices, device).value;
      && r.value.device == device && r.value.time == p.timestamp
      && r.value.model == Property(dev, "ID_MODEL", "Unknown")
      && r.value.serialNumber == Property(dev, "ID_SERIAL_SHORT", "Unknown")
      && r.value.deviceType == Property(dev, "DEVTYPE", "Unknown")
      && (parts == [] ==> r.value.partitions == "No partitions found")
      && (parts != [] ==> r.value.partitions == Join(parts, ", "))
      && r.value.sectors == GetSectors(p.geometry)
      && r.value.size == KnownSize(GetSectors(p.geometry))
      && (r.value.size.None? <==> r.value.sectors.None? || r.value.sectors.value.sectorSize == 0
                                  || r.value.sectors.value.totalSectors == 0)
      && (r.value.size.Some? ==> r.value.size.value == r.value.sectors.value.totalSectors * r.value.sectors.value.sectorSize)
      && r.value.filesystem == Property(dev, "ID_FS_TYPE", "Unknown")
      && r.value.temperature == Temp(p.smartctl)
  {
    var parts := Partitions(p.devices, device);
    if parts.None? then None
    else
      var sectors := GetSectors(p.geometry);
      Some(Row(device, p.timestamp,
               Property(dev, "ID_MODEL", "Unknown"),
               Property(dev, "ID_SERIAL_SHORT", "Unknown"),
               Property(dev, "DEVTYPE", "Unknown"),
               PartitionString(parts.value, ", ", "No partitions found"),
               sectors, KnownSize(sectors),
               Property(dev, "ID_FS_TYPE", "Unknown"),
               Temp(p.smartctl)))
  }

  function Rows(r: Option<Row>): seq<Row>
  {
    if r.Some? then [r.value] else []
  }

  /** The global DataFrame `df`, which get_device_details extends. */
  class Report {
    var rows: seq<Row>

    constructor ()
      ensures rows == []
    {
      rows := [];
    }

    /** get_device_details: nothing is appended when no listed device has the real path
        as its node; otherwise the first such device's row is appended, if it can be
        built. */
    method GetDeviceDetails(device: string, p: Probe)
      modifies this
      ensures (forall k :: 0 <= k < |p.devices| ==> p.devices[k].node != p.realPath) ==> rows == old(rows)
      ensures forall k: nat :: FirstWithNode(p.devices, p.realPath, k) ==>
                rows == old(rows) + Rows(DeviceRow(device, p, p.devices[k]))
    {
      var found := FindDevice(p.devices, p.realPath);
      if found.None? {
        return;
      }
      var dev := p.devices[found.value];
      var parts := Partitions(p.devices, device);
      if parts.None? {
        return;
      }
      var sectors := GetSectors(p.geometry);
      var temperature := GetTemp(p.smartctl);
      var row := Row(device, p.timestamp,
                     Property(dev, "ID_MODEL", "Unknown"),
                     Property(dev, "ID_SERIAL_SHORT", "Unknown"),
                     Property(dev, "DEVTYPE", "Unknown"),
                     PartitionString(parts.value, ", ", "No partitions found"),
                     sectors, KnownSize(sectors),
                     Property(dev, "ID_FS_TYPE", "Unknown"),
                     temperature);
      rows := rows + [row];
      FirstWithNodeUnique(p.devices, p.realPath, found.value);
    }
  }

  /** There is only one first device with a given node. */
  lemma FirstWithNodeUnique(devices: seq<BlockDevice>, path: string, k: nat)
    requires FirstWithNode(devices, path, k)
    ensures forall j :: FirstWithNode(devices, path, j) ==> j == k
  {
  }
}
