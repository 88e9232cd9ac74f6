/** meta.py and drivedata.py, which share one logic (drivedata.py only adds timestamped
    log lines): the temperature chosen from psutil's sensor readings, and the drive
    records built from psutil's partition list. */
module DriveMetadata {
  import opened Wrappers
  import opened PyStrings

  // ---------------------------------------------------------------------------
  // get_drive_temperature

  /** One reading of `psutil.sensors_temperatures()`: its label (`label`) and its current value in
      whole degrees. */
  datatype Entry = Entry(labelText: string, current: int)

  /** A sensor group: its name and its readings, in psutil's order. */
  datatype Sensor = Sensor(name: string, entries: seq<Entry>)

  /** get_drive_temperature's answer: a reading, or "N/A". */
  datatype Reading = Celsius(value: int) | NotAvailable

  predicate IsNvmeSensor(name: string)
  {
    Contains(Lower(name), "nvme")
  }

  /** `device in entry.label.lower()` */
  predicate LabelMatches(device: string, e: Entry)
  {
    Contains(Lower(e.labelText), device)
  }

  /** A reading as the nested loop visits it, with whether its sensor is an NVMe one. */
  datatype Visit = Visit(nvme: bool, entry: Entry)

  function Visits(s: Sensor): (vs: seq<Visit>)
    ensures |vs| == |s.entries|
    ensures forall k :: 0 <= k < |vs| ==> vs[k] == Visit(IsNvmeSensor(s.name), s.entries[k])
  {
    seq(|s.entries|, k requires 0 <= k < |s.entries| => Visit(IsNvmeSensor(s.name), s.entries[k]))
  }

  /** The readings in the order the nested loop visits them. */
  function AllVisits(sensors: seq<Sensor>): (vs: seq<Visit>)
  {
    if sensors == [] then []
    else AllVisits(sensors[..|sensors| - 1]) + Visits(sensors[|sensors| - 1])
  }

  /** The readings of NVMe sensors, in visiting order: what `nvme_temps` collects. */
  function NvmeReadings(vs: seq<Visit>): (r: seq<int>)
    ensures |r| <= |vs|
    ensures forall t :: t in r <==> exists k :: 0 <= k < |vs| && vs[k].nvme && vs[k].entry.current == t
  {
    if vs == [] then []
    else
      var init := vs[..|vs| - 1];
      var last := vs[|vs| - 1];
      assert forall k :: 0 <= k < |init| ==> init[k] == vs[k];
      NvmeReadings(init) + (if last.nvme then [last.entry.current] else [])
  }

  /** The position of the first reading whose label matches, or the number of readings
      when none does. */
  function FirstMatch(device: string, vs: seq<Visit>): (k: nat)
    ensures k <= |vs|
    ensures forall j :: 0 <= j < k ==> !LabelMatches(device, vs[j].entry)
    ensures k < |vs| ==> LabelMatches(device, vs[k].entry)
  {
    if vs == [] || LabelMatches(device, vs[0].entry) then 0
    else
      assert forall j :: 1 <= j < |vs| ==> vs[j] == vs[1..][j - 1];
      1 + FirstMatch(device, vs[1..])
  }

  /** No reading in `vs` has a matching label. */
  predicate NoMatch(device: string, vs: seq<Visit>)
  {
    forall j :: 0 <= j < |vs| ==> !LabelMatches(device, vs[j].entry)
  }

  lemma NoMatchSnoc(device: string, vs: seq<Visit>, v: Visit)
    requires NoMatch(device, vs) && !LabelMatches(device, v.entry)
    ensures NoMatch(device, vs + [v])
  {
    assert forall j :: 0 <= j < |vs| ==> (vs + [v])[j] == vs[j];
  }

  /** Python's `max` of a non-empty list. */
  function Max(xs: seq<int>): (m: int)
    requires xs != []
    ensures m in xs
    ensures forall k :: 0 <= k < |xs| ==> xs[k] <= m
  {
    if |xs| == 1 then xs[0]
    else
      var rest := Max(xs[1..]);
      assert forall k :: 1 <= k < |xs| ==> xs[k] == xs[1..][k - 1];
      if xs[0] >= rest then xs[0] else rest
  }

  /** The selection rule of get_drive_temperature. `temps` is None when psutil has no
      `sensors_temperatures` (the AttributeError path). */
  function DriveTemperature(device: string, temps: Option<seq<Sensor>>): (r: Reading)
    ensures temps.None? ==> r.NotAvailable?
    ensures r.Celsius? ==> && temps.Some?
                           && exists k :: 0 <= k < |AllVisits(temps.value)|
                                          && AllVisits(temps.value)[k].entry.current == r.value
  {
    if temps.None? then NotAvailable
    else
      var vs := AllVisits(temps.value);
      var k := FirstMatch(device, vs);
      if k < |vs| then Celsius(vs[k].entry.current)
      else if NvmeReadings(vs) != [] then Celsius(Max(NvmeReadings(vs)))
      else NotAvailable
  }

  /** The first reading whose label contains the device wins, whatever follows. */
  lemma FirstLabelWins(device: string, sensors: seq<Sensor>, k: nat)
    requires k < |AllVisits(sensors)| && LabelMatches(device, AllVisits(sensors)[k].entry)
    requires forall j :: 0 <= j < k ==> !LabelMatches(device, AllVisits(sensors)[j].entry)
    ensures DriveTemperature(device, Some(sensors)) == Celsius(AllVisits(sensors)[k].entry.current)
  {
  }

  /** Without a matching label, the hottest NVMe reading, or "N/A" when there is none. */
  lemma NoLabelMatch(device: string, sensors: seq<Sensor>)
    requires NoMatch(device, AllVisits(sensors))
    ensures var nv := NvmeReadings(AllVisits(sensors));
            && (nv != [] ==> DriveTemperature(device, Some(sensors)) == Celsius(Max(nv)))
            && (nv == [] ==> DriveTemperature(device, Some(sensors)) == NotAvailable)
  {
  }

  /** Every number the rule returns is one of psutil's readings; "N/A" comes only when
      psutil has no sensors call, or no label matches and no NVMe sensor reports. */
  lemma ResultIsAReading(device: string, temps: Option<seq<Sensor>>)
    ensures var r := DriveTemperature(device, temps);
            && (r.Celsius? ==> exists k :: 0 <= k < |AllVisits(temps.value)| && AllVisits(temps.value)[k].entry.current == r.value)
            && (r.NotAvailable? <==> temps.None? || (NoMatch(device, AllVisits(temps.value)) && NvmeReadings(AllVisits(temps.value)) == []))
  {
    if temps.Some? {
      var vs := AllVisits(temps.value);
      var k := FirstMatch(device, vs);
      if k < |vs| {
        assert !NoMatch(device, vs);
      } else if NvmeReadings(vs) != [] {
        var m := Max(NvmeReadings(vs));
        assert m in NvmeReadings(vs);
      }
    }
  }

  /** Labels are lowercased and the device is not: a device with an upper-case letter
      never matches a label. */
  lemma UpperCaseDeviceNeverMatches(device: string, e: Entry, i: nat)
    requires i < |device| && 'A' <= device[i] <= 'Z'
    ensures !LabelMatches(device, e)
  {
  }

  /** get_drive_temperature's nested loop: `nvme_temps` collects the NVMe readings and the
      first matching label returns at once. The inner loop is ScanEntries. */
  method GetDriveTemperature(device: string, temps: Option<seq<Sensor>>) returns (r: Reading)
    ensures r == DriveTemperature(device, temps)
  {
    if temps.None? {
      return NotAvailable;
    }
    var sensors := temps.value;
    var nvmeTemps: seq<int> := [];
    for i := 0 to |sensors|
      invariant nvmeTemps == NvmeReadings(AllVisits(sensors[..i]))
      invariant NoMatch(device, AllVisits(sensors[..i]))
    {
      ghost var done := AllVisits(sensors[..i]);
      var found;
      nvmeTemps, found := ScanEntries(device, sensors[i], done, nvmeTemps);
      if found.Some? {
        ghost var j: nat :| j < |sensors[i].entries| && NoMatch(device, done + Visits(sensors[i])[..j])
                 && LabelMatches(device, sensors[i].entries[j])
                 && found.value == sensors[i].entries[j].current;
        MatchInside(device, sensors, i, j, done + Visits(sensors[i])[..j]);
        return Celsius(found.value);
      }
      assert sensors[..i + 1][..i] == sensors[..i];
    }
    assert sensors[..|sensors|] == sensors;
    NoLabelMatch(device, sensors);
    if nvmeTemps != [] {
      return Celsius(Max(nvmeTemps));
    }
    return NotAvailable;
  }

  /** The inner loop over one sensor's entries, after the readings `done` in which no
      label matched: it extends `nvme_temps` while the sensor's name contains "nvme", and
      stops at the first entry whose label contains the device. */
  method ScanEntries(device: string, s: Sensor, ghost done: seq<Visit>, nvmeIn: seq<int>)
    returns (nvmeTemps: seq<int>, found: Option<int>)
    requires nvmeIn == NvmeReadings(done) && NoMatch(device, done)
    ensures found.None? ==> nvmeTemps == NvmeReadings(done + Visits(s)) && NoMatch(device, done + Visits(s))
    ensures found.Some? ==> exists j: nat :: && j < |s.entries| && NoMatch(device, done + Visits(s)[..j])
                                        && LabelMatches(device, s.entries[j])
                                        && found.value == s.entries[j].current
  {
    nvmeTemps := nvmeIn;
    ghost var seen := done;
    for j := 0 to |s.entries|
      invariant seen == done + Visits(s)[..j]
      invariant nvmeTemps == NvmeReadings(seen)
      invariant NoMatch(device, seen)
    {
      var e := s.entries[j];
      ghost var v := Visit(IsNvmeSensor(s.name), e);
      assert Visits(s)[..j + 1] == Visits(s)[..j] + [v];
      if Contains(Lower(s.name), "nvme") {
        nvmeTemps := nvmeTemps + [e.current];
      }
      if Contains(Lower(e.labelText), device) {
        return nvmeTemps, Some(e.current);
      }
      NoMatchSnoc(device, seen, v);
      assert (seen + [v])[..|seen|] == seen;
      seen := seen + [v];
    }
    assert Visits(s)[..|s.entries|] == Visits(s);
    return nvmeTemps, None;
  }

  /** The step of the loop that returns: entry `j` of sensor `i` matches, after a prefix
      `seen` of readings none of which does. */
  lemma MatchInside(device: string, sensors: seq<Sensor>, i: nat, j: nat, seen: seq<Visit>)
    requires i < |sensors| && j < |sensors[i].entries|
    requires seen == AllVisits(sensors[..i]) + Visits(sensors[i])[..j]
    requires NoMatch(device, seen)
    requires LabelMatches(device, sensors[i].entries[j])
    ensures DriveTemperature(device, Some(sensors)) == Celsius(sensors[i].entries[j].current)
  {
    var vs := Visits(sensors[i]);
    var rest := vs[j..] + AllVisits(sensors[i + 1..]);
    AllVisitsSplit(sensors, i);
    SplitInner(AllVisits(sensors[..i]), vs, AllVisits(sensors[i + 1..]), j);
    assert rest[0] == vs[j];
    FirstMatchAfter(device, AllVisits(sensors), seen, rest);
  }

  /** Cutting the middle part of `a + b + c` at `j`. */
  lemma SplitInner<T>(a: seq<T>, b: seq<T>, c: seq<T>, j: nat)
    requires j <= |b|
    ensures a + b + c == (a + b[..j]) + (b[j..] + c)
  {
    assert b == b[..j] + b[j..];
  }

  /** The first match of `seen + rest` is the head of `rest` when nothing in `seen`
      matches and that head does. */
  lemma FirstMatchAfter(device: string, all: seq<Visit>, seen: seq<Visit>, rest: seq<Visit>)
    requires all == seen + rest && rest != []
    requires NoMatch(device, seen) && LabelMatches(device, rest[0].entry)
    ensures FirstMatch(device, all) == |seen|
  {
    assert all[|seen|] == rest[0];
    assert forall q :: 0 <= q < |seen| ==> all[q] == seen[q];
  }

  lemma AllVisitsSplit(sensors: seq<Sensor>, i: nat)
    requires i < |sensors|
    ensures AllVisits(sensors) == AllVisits(sensors[..i]) + Visits(sensors[i]) + AllVisits(sensors[i + 1..])
  {
    AllVisitsCut(sensors, i + 1);
    var pre := sensors[..i + 1];
    assert pre[..|pre| - 1] == sensors[..i] && pre[|pre| - 1] == sensors[i];
    assert AllVisits(pre) == AllVisits(sensors[..i]) + Visits(sensors[i]);
  }

  /** Cutting the sensor list at `n` cuts the visiting order there. */
  lemma {:induction false} AllVisitsCut(sensors: seq<Sensor>, n: nat)
    requires n <= |sensors|
    ensures AllVisits(sensors) == AllVisits(sensors[..n]) + AllVisits(sensors[n..])
    decreases |sensors|
  {
    if n == |sensors| {
      assert sensors[..n] == sensors;
      assert AllVisits(sensors[n..]) == [];
    } else {
      var init := sensors[..|sensors| - 1];
      var rest := sensors[n..];
      AllVisitsCut(init, n);
      assert init[..n] == sensors[..n];
      assert rest[..|rest| - 1] == init[n..];
      assert rest[|rest| - 1] == sensors[|sensors| - 1];
      var x, y, v := AllVisits(sensors[..n]), AllVisits(init[n..]), Visits(sensors[|sensors| - 1]);
      assert AllVisits(rest) == y + v;
      assert AllVisits(sensors) == x + y + v;
      assert x + y + v == x + (y + v);
    }
  }

  // ---------------------------------------------------------------------------
  // get_drive_metadata

  /** PARTITION_TYPE_MAP */
  const PartitionTypes: map<string, string> := map[
    "vfat" := "EFI System",
    "ext4" := "Linux Filesystem",
    "ntfs" := "Windows NTFS",
    "xfs" := "Linux XFS",
    "btrfs" := "Linux Btrfs",
    "swap" := "Linux Swap",
    "exfat" := "Extended FAT"]

  /** `PARTITION_TYPE_MAP.get(fstype, "Unknown")`: no mapped name is "Unknown", so the
      answer is "Unknown" exactly for the file systems the table does not name. */
  function PartitionType(fstype: string): (t: string)
    ensures fstype in PartitionTypes ==> t == PartitionTypes[fstype]
    ensures t == "Unknown" <==> fstype !in PartitionTypes
  {
    if fstype in PartitionTypes then PartitionTypes[fstype] else "Unknown"
  }

  /** An entry of `psutil.disk_partitions(all=True)`. */
  datatype Partition = Partition(device: string, mountpoint: string, fstype: string)

  /** What `psutil.disk_usage(mountpoint)` gives: the byte counts, a PermissionError,
      or another error, which get_drive_metadata does not catch. */
  datatype DiskUsage = Measured(total: nat, used: nat, free: nat) | Denied | Unavailable

  /** The device filter `"/dev/sda" in device or "/dev/nvme" in device`. */
  predicate IsDrive(device: string)
    ensures (StartsWith(device, "/dev/sda") || StartsWith(device, "/dev/nvme")) ==> IsDrive(device)
    ensures IsDrive(device) ==> 8 <= |device|
  {
    assert StartsWith(device, "/dev/sda") ==> OccursAt(device, "/dev/sda", 0);
    assert StartsWith(device, "/dev/nvme") ==> OccursAt(device, "/dev/nvme", 0);
    Contains(device, "/dev/sda") || Contains(device, "/dev/nvme")
  }

  /** The filter is a substring test, not a prefix test: it admits partitions of "sda"
      and turns away every other SCSI disk. */
  lemma DriveFilterExamples()
    ensures IsDrive("/dev/sda1")
    ensures !IsDrive("/dev/sdb")
    ensures IsDrive("/mnt/dev/sda")
  {
    assert OccursAt("/dev/sda1", "/dev/sda", 0);
    assert OccursAt("/mnt/dev/sda", "/dev/sda", 4);
    assert "/dev/sdb"[0..8][7] == 'b';
    assert forall i :: 0 < i <= |"/dev/sdb"| ==> !OccursAt("/dev/sdb", "/dev/sda", i);
    assert forall i :: 0 <= i <= |"/dev/sdb"| ==> !OccursAt("/dev/sdb", "/dev/nvme", i);
  }

  /** One record: "Device", "Mount Point", "File System", "Partition Type", the three
      sizes in bytes and "Temperature". */
  datatype DriveRecord = DriveRecord(
    device: string,
    mountPoint: string,
    fileSystem: string,
    partitionType: string,
    total: nat,
    used: nat,
    free: nat,
    temperature: Reading)

  /** What one partition contributes: nothing when it is filtered out or its usage raises
      PermissionError, a record when its usage is measured, an error otherwise. */
  function Step(p: Partition, usage: string -> DiskUsage, temps: Option<seq<Sensor>>): (r: Result<seq<DriveRecord>, string>)
    ensures r.Err? <==> IsDrive(p.device) && usage(p.mountpoint).Unavailable?
    ensures r.Ok? ==> |r.value| <= 1
    ensures r.Ok? && r.value != [] ==>
              var u := usage(p.mountpoint);
              && IsDrive(p.device) && u.Measured?
              && r.value == [DriveRecord(p.device, p.mountpoint, p.fstype, PartitionType(p.fstype),
                                         u.total, u.used, u.free, DriveTemperature(p.device, temps))]
    ensures r.Ok? && r.value == [] <==> !IsDrive(p.device) || usage(p.mountpoint).Denied?
  {
    if !IsDrive(p.device) then Ok([])
    else
      match usage(p.mountpoint)
      case Denied => Ok([])
      case Unavailable => Err(p.mountpoint)
      case Measured(total, used, free) =>
        Ok([DriveRecord(p.device, p.mountpoint, p.fstype, PartitionType(p.fstype),
                        total, used, free, DriveTemperature(p.device, temps))])
  }

  /** get_drive_metadata's result: the records of the admitted partitions, in partition
      order, or the first error that escapes the loop. */
  function Metadata(parts: seq<Partition>, usage: string -> DiskUsage, temps: Option<seq<Sensor>>): (r: Result<seq<DriveRecord>, string>)
    ensures r.Ok? ==> |r.value| <= |parts|
    ensures r.Ok? ==> forall k :: 0 <= k < |r.value| ==> IsDrive(r.value[k].device)
  {
    if parts == [] then Ok([])
    else
      var before := Metadata(parts[..|parts| - 1], usage, temps);
      var last := Step(parts[|parts| - 1], usage, temps);
      if before.Err? then before
      else if last.Err? then last
      else Ok(before.value + last.value)
  }

  /** The table is built partition by partition: the records of `a + b` are those of
      `a` followed by those of `b`, and an error in `a` stops the scan. */
  lemma {:induction false} MetadataAppend(a: seq<Partition>, b: seq<Partition>, usage: string -> DiskUsage, temps: Option<seq<Sensor>>)
    ensures Metadata(a, usage, temps).Err? ==>
              Metadata(a + b, usage, temps).Err? && Metadata(a + b, usage, temps).error == Metadata(a, usage, temps).error
    ensures Metadata(a, usage, temps).Ok? && Metadata(b, usage, temps).Ok? ==>
              && Metadata(a + b, usage, temps).Ok?
              && Metadata(a + b, usage, temps).value == Metadata(a, usage, temps).value + Metadata(b, usage, temps).value
    decreases |b|
  {
    if b == [] {
      assert a + b == a;
      if Metadata(a, usage, temps).Ok? {
        assert Metadata(a, usage, temps).value + [] == Metadata(a, usage, temps).value;
      }
    } else {
      var ab := a + b;
      assert ab[..|ab| - 1] == a + b[..|b| - 1];
      assert ab[|ab| - 1] == b[|b| - 1];
      MetadataAppend(a, b[..|b| - 1], usage, temps);
      if Metadata(a, usage, temps).Ok? && Metadata(b, usage, temps).Ok? {
        var x := Metadata(a, usage, temps).value;
        var y := Metadata(b[..|b| - 1], usage, temps).value;
        var z := Step(b[|b| - 1], usage, temps).value;
        assert x + (y + z) == x + y + z;
      }
    }
  }

  /** The scan fails exactly when some admitted partition's usage fails with an error
      other than PermissionError. */
  lemma {:induction false} MetadataFails(parts: seq<Partition>, usage: string -> DiskUsage, temps: Option<seq<Sensor>>)
    ensures Metadata(parts, usage, temps).Err? <==>
              exists k :: 0 <= k < |parts| && IsDrive(parts[k].device) && usage(parts[k].mountpoint).Unavailable?
    decreases |parts|
  {
    if parts != [] {
      var init := parts[..|parts| - 1];
      MetadataFails(init, usage, temps);
      assert forall k :: 0 <= k < |init| ==> init[k] == parts[k];
    }
  }

  /** When the scan succeeds, the table is the records before partition `k`, then the
      records `k` itself contributes (none when it is filtered out or PermissionError
      skips it), then the records after it. */
  lemma MetadataRecords(parts: seq<Partition>, usage: string -> DiskUsage, temps: Option<seq<Sensor>>, k: nat)
    requires k < |parts| && Metadata(parts, usage, temps).Ok?
    ensures && Metadata(parts[..k], usage, temps).Ok?
            && Step(parts[k], usage, temps).Ok?
            && Metadata(parts[k + 1..], usage, temps).Ok?
            && Metadata(parts, usage, temps).value ==
                 Metadata(parts[..k], usage, temps).value + Step(parts[k], usage, temps).value
                 + Metadata(parts[k + 1..], usage, temps).value
  {
    MetadataPartsOk(parts, usage, temps, k);
    assert parts == parts[..k] + [parts[k]] + parts[k + 1..];
    MetadataAround(parts[..k], parts[k], parts[k + 1..], usage, temps);
  }

  /** The records of `a + [p] + b` are those of `a`, then of `p`, then of `b`. */
  lemma MetadataAround(a: seq<Partition>, p: Partition, b: seq<Partition>, usage: string -> DiskUsage, temps: Option<seq<Sensor>>)
    requires Metadata(a, usage, temps).Ok? && Step(p, usage, temps).Ok? && Metadata(b, usage, temps).Ok?
    ensures Metadata(a + [p] + b, usage, temps).Ok?
    ensures Metadata(a + [p] + b, usage, temps).value ==
              Metadata(a, usage, temps).value + Step(p, usage, temps).value + Metadata(b, usage, temps).value
  {
    var head := a + [p];
    assert head[..|head| - 1] == a && head[|head| - 1] == p;
    MetadataAppend(head, b, usage, temps);
  }

  /** An admitted partition whose usage is measured has its record in the table. */
  lemma MeasuredRecorded(parts: seq<Partition>, usage: string -> DiskUsage, temps: Option<seq<Sensor>>, k: nat)
    requires k < |parts| && Metadata(parts, usage, temps).Ok?
    requires IsDrive(parts[k].device) && usage(parts[k].mountpoint).Measured?
    ensures Step(parts[k], usage, temps).Ok? && |Step(parts[k], usage, temps).value| == 1
    ensures Step(parts[k], usage, temps).value[0] in Metadata(parts, usage, temps).value
  {
    MetadataRecords(parts, usage, temps, k);
    var x := Metadata(parts[..k], usage, temps).value;
    var y := Step(parts[k], usage, temps).value;
    var z := Metadata(parts[k + 1..], usage, temps).value;
    assert (x + y + z)[|x|] == y[0];
  }

  /** A scan that succeeds succeeds on every prefix, every suffix and every step. */
  lemma MetadataPartsOk(parts: seq<Partition>, usage: string -> DiskUsage, temps: Option<seq<Sensor>>, k: nat)
    requires k < |parts| && Metadata(parts, usage, temps).Ok?
    ensures Metadata(parts[..k], usage, temps).Ok?
    ensures Step(parts[k], usage, temps).Ok?
    ensures Metadata(parts[k + 1..], usage, temps).Ok?
  {
    MetadataFails(parts, usage, temps);
    MetadataFails(parts[..k], usage, temps);
    MetadataFails(parts[k + 1..], usage, temps);
    assert forall q :: 0 <= q < k ==> parts[..k][q] == parts[q];
    assert forall q :: k + 1 <= q < |parts| ==> parts[k + 1..][q - k - 1] == parts[q];
  }

  /** One more partition: its records follow those of the prefix, or its error ends the
      scan. */
  lemma MetadataNext(parts: seq<Partition>, usage: string -> DiskUsage, temps: Option<seq<Sensor>>, k: nat)
    requires k < |parts| && Metadata(parts[..k], usage, temps).Ok?
    ensures Step(parts[k], usage, temps).Err? ==>
              && Metadata(parts[..k + 1], usage, temps).Err?
              && Metadata(parts[..k + 1], usage, temps).error == Step(parts[k], usage, temps).error
    ensures Step(parts[k], usage, temps).Ok? ==>
              && Metadata(parts[..k + 1], usage, temps).Ok?
              && Metadata(parts[..k + 1], usage, temps).value
                   == Metadata(parts[..k], usage, temps).value + Step(parts[k], usage, temps).value
  {
    var head := parts[..k + 1];
    assert head[..|head| - 1] == parts[..k] && head[|head| - 1] == parts[k];
  }

  /** An error at partition `k` after a clean prefix is the error of the whole scan. */
  lemma MetadataStops(parts: seq<Partition>, usage: string -> DiskUsage, temps: Option<seq<Sensor>>, k: nat)
    requires k < |parts| && Metadata(parts[..k], usage, temps).Ok? && Step(parts[k], usage, temps).Err?
    ensures Metadata(parts, usage, temps).Err?
    ensures Metadata(parts, usage, temps).error == Step(parts[k], usage, temps).error
  {
    MetadataNext(parts, usage, temps, k);
    MetadataAppend(parts[..k + 1], parts[k + 1..], usage, temps);
    assert parts[..k + 1] + parts[k + 1..] == parts;
  }

  /** get_drive_metadata's loop: a filtered-out partition is passed over, PermissionError
      skips one with `continue`, any other error propagates. */
  method GetDriveMetadata(parts: seq<Partition>, usage: string -> DiskUsage, temps: Option<seq<Sensor>>)
    returns (r: Result<seq<DriveRecord>, string>)
    ensures r == Metadata(parts, usage, temps)
  {
    var drives: seq<DriveRecord> := [];
    for k := 0 to |parts|
      invariant Metadata(parts[..k], usage, temps).Ok? && Metadata(parts[..k], usage, temps).value == drives
    {
      var partition := parts[k];
      MetadataNext(parts, usage, temps, k);
      assert drives + [] == drives;
      if Contains(partition.device, "/dev/sda") || Contains(partition.device, "/dev/nvme") {
        var u := usage(partition.mountpoint);
        if u.Denied? {
          continue;
        }
        if u.Unavailable? {
          MetadataStops(parts, usage, temps, k);
          return Err(partition.mountpoint);
        }
        var temperature := GetDriveTemperature(partition.device, temps);
        drives := drives + [DriveRecord(partition.device, partition.mountpoint, partition.fstype,
                                        PartitionType(partition.fstype),
                                        u.total, u.used, u.free, temperature)];
      }
    }
    assert parts[..|parts|] == parts;
    return Ok(drives);
  }
}
