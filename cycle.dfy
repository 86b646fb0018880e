/** One pass of the `while True` loop in `stats_logger`, written the way the
    source runs it: `log_msg` is filled section by section, the mount list is
    built by appending, the disk map and the per-interface map are filled key
    by key. Each method is proved equal to its specification in module Record. */
module StatsLogger {
  import opened PyValues
  import opened Text
  import opened Host
  import opened Record
  import RecordProperties

  /** The nested `disk_usage_dict(mount)`: asks for the mount's usage and
      fills the entry field by field, or records the failure status when the
      provider raises `OSError`. */
  method DiskUsageDict(mount: string, usage: string -> DiskResult, asBytes: bool, toGb: int -> real)
    returns (diskUsage: map<string, PyValue>)
    ensures diskUsage == DiskEntry(usage(mount), asBytes, toGb)
  {
    diskUsage := map[];
    var disk := usage(mount);
    match disk {
      case Usage(total, used, free, percent) =>
        diskUsage := diskUsage["total" := if asBytes then PInt(total) else PFloat(toGb(total))];
        diskUsage := diskUsage["percent" := PFloat(percent)];
        diskUsage := diskUsage["used" := if asBytes then PInt(used) else PFloat(toGb(used))];
        diskUsage := diskUsage["free" := if asBytes then PInt(free) else PFloat(toGb(free))];
        diskUsage := diskUsage["status" := PStr(StatusOk)];
      case OsError =>
        diskUsage := diskUsage["status" := PStr(MissingMountStatus)];
    }
  }

  /** Builds the list of mounts to report on: every discovered mount point
      when `--diskpaths` is "all", otherwise each comma-separated piece,
      stripped. */
  method ResolveMounts(diskPaths: string, partitions: seq<Partition>) returns (mounts: seq<string>)
    ensures mounts == Mounts(diskPaths, partitions)
  {
    mounts := [];
    if diskPaths == AllDiskPaths {
      for i := 0 to |partitions|
        invariant |mounts| == i
        invariant forall j :: 0 <= j < i ==> mounts[j] == partitions[j].mountpoint
      {
        mounts := mounts + [partitions[i].mountpoint];
      }
    } else {
      var paths := Split(diskPaths, ',');
      for i := 0 to |paths|
        invariant |mounts| == i
        invariant forall j :: 0 <= j < i ==> mounts[j] == Strip(paths[j])
      {
        mounts := mounts + [Strip(paths[i])];
      }
    }
  }

  /** Fills the disk map, one `disk_usage_dict` per mount. */
  method BuildDiskSection(mounts: seq<string>, usage: string -> DiskResult, asBytes: bool, toGb: int -> real)
    returns (disk: map<string, PyValue>)
    ensures disk == DiskSection(mounts, usage, asBytes, toGb)
  {
    disk := map[];
    for i := 0 to |mounts|
      invariant forall m :: m in disk <==> m in mounts[..i]
      invariant forall m :: m in disk ==> disk[m] == PDict(DiskEntry(usage(m), asBytes, toGb))
    {
      var entry := DiskUsageDict(mounts[i], usage, asBytes, toGb);
      disk := disk[mounts[i] := PDict(entry)];
    }
    assert mounts[..|mounts|] == mounts;
  }

  /** Fills the interfaces map from the per-NIC counters, one interface at a
      time, in whatever order the provider's dict yields them. */
  method BuildInterfaces(perNic: map<string, NetIo>) returns (interfaces: map<string, PyValue>)
    ensures interfaces == PerNicInterfaces(perNic)
  {
    interfaces := map[];
    var pending := perNic.Keys;
    while pending != {}
      invariant pending <= perNic.Keys
      invariant interfaces.Keys == perNic.Keys - pending
      invariant forall k :: k in interfaces ==> interfaces[k] == PDict(AsDict(perNic[k]))
      decreases pending
    {
      var name :| name in pending;
      interfaces := interfaces[name := PDict(AsDict(perNic[name]))];
      pending := pending - {name};
    }
  }

  /** One sampling cycle: the record `log_msg` and the line handed to the
      logger. `toGb` is the source's `to_gb`, `render` Python's `str()` of a
      dict. */
  method Cycle(c: Config, h: Readings, toGb: int -> real, render: PyValue -> string)
    returns (logMsg: map<string, PyValue>, line: string)
    ensures logMsg == LogMsg(c, h, toGb)
    ensures line == Message(c.prefix, render(PDict(logMsg)))
    ensures line == IntendedMessage(c.prefix, render(PDict(logMsg)))
  {
    logMsg := map[];

    if c.cpu {
      var cpuPct := if c.combinedCpu then [PFloat(h.cpuCombined)] else FloatList(h.cpuPerCpu);
      logMsg := logMsg["cpu" := PDict(map["utilization_pct" := PList(cpuPct), "status" := PStr(StatusOk)])];
    }
    assert logMsg == AddCpu(c, h, map[]);
    ghost var afterCpu := logMsg;

    if c.memory {
      var memory := h.memory;
      logMsg := logMsg["memory" := PDict(map[
        "total" := if c.asBytes then PInt(memory.total) else PFloat(toGb(memory.total)),
        "available" := if c.asBytes then PInt(memory.available) else PFloat(toGb(memory.available)),
        "percent" := PFloat(memory.percent),
        "used" := if c.asBytes then PInt(memory.used) else PFloat(toGb(memory.used)),
        "free" := if c.asBytes then PInt(memory.free) else PFloat(toGb(memory.free)),
        "status" := PStr(StatusOk)])];
    }
    assert logMsg == AddMemory(c, h, toGb, afterCpu);
    ghost var afterMemory := logMsg;

    if c.disk {
      var mounts := ResolveMounts(c.diskPaths, h.partitions);
      var disk := BuildDiskSection(mounts, h.diskUsage, c.asBytes, toGb);
      logMsg := logMsg["disk" := PDict(disk)];
    }
    assert logMsg == AddDisk(c, h, toGb, afterMemory);
    ghost var afterDisk := logMsg;

    if c.network {
      var interfaces: map<string, PyValue>;
      if c.perNic {
        interfaces := BuildInterfaces(h.netPerNic);
      } else {
        interfaces := map[AllNicKey := PDict(AsDict(h.netTotal))];
      }
      logMsg := logMsg["network" := PDict(map["interfaces" := PDict(interfaces), "status" := PStr(StatusOk)])];
    }
    assert logMsg == AddNetwork(c, h, afterDisk);

    var report := render(PDict(logMsg));
    if PrefixGuard(Some(c.prefix)) {
      report := c.prefix + " " + report;
    }
    line := Strip(report);
    RecordProperties.MessageMatchesIntended(c.prefix, render(PDict(logMsg)));
  }
}
