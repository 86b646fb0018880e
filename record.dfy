/** What one sampling cycle of `stats_logger` produces, stated as functions of
    the configuration and the provider's answers: the sections of the record,
    the mount list, and the emitted log line. The cycle's method is proved
    equal to these functions; the lemmas state the rules the record obeys.

    `toGb` stands for the source's `to_gb` (bytes to GB, rounded to two
    decimals) and `render` for Python's `str()` of the record; both are left
    uninterpreted, so every fact here holds whatever they compute. */
module Record {
  import opened PyValues
  import opened Text
  import opened Host

  const StatusOk := "OK"
  const MissingMountStatus := "Provided mount path does not exist ..."
  const AllNicKey := "allnic"
  const SectionNames: set<string> := {"cpu", "memory", "disk", "network"}

  /** One byte count in the configured unit: the raw `int` with `--asbytes`,
      otherwise `to_gb` of it as a float. */
  function ByteField(bytes: nat, asBytes: bool, toGb: int -> real): PyValue
  {
    if asBytes then PInt(bytes) else PFloat(toGb(bytes))
  }

  // ---- CPU ----

  /** The `utilization_pct` list: the combined reading wrapped in a list, or
      the per-CPU list as returned. */
  function CpuReadings(combined: bool, h: Readings): seq<PyValue>
  {
    if combined then [PFloat(h.cpuCombined)] else FloatList(h.cpuPerCpu)
  }

  function CpuSection(combined: bool, h: Readings): map<string, PyValue>
  {
    map["utilization_pct" := PList(CpuReadings(combined, h)), "status" := PStr(StatusOk)]
  }

  // ---- memory ----

  function MemorySection(m: VirtualMemory, asBytes: bool, toGb: int -> real): map<string, PyValue>
  {
    map["total" := ByteField(m.total, asBytes, toGb),
        "available" := ByteField(m.available, asBytes, toGb),
        "percent" := PFloat(m.percent),
        "used" := ByteField(m.used, asBytes, toGb),
        "free" := ByteField(m.free, asBytes, toGb),
        "status" := PStr(StatusOk)]
  }

  // ---- disk ----

  /** The mounts to report on: the discovered mount points when `--diskpaths`
      is exactly "all", otherwise the comma-separated pieces, each stripped. */
  function Mounts(diskPaths: string, partitions: seq<Partition>): seq<string>
  {
    if diskPaths == AllDiskPaths
    then seq(|partitions|, i requires 0 <= i < |partitions| => partitions[i].mountpoint)
    else var pieces := Split(diskPaths, ',');
      seq(|pieces|, i requires 0 <= i < |pieces| => Strip(pieces[i]))
  }

  /** What the nested `disk_usage_dict(mount)` returns for one answer of
      `disk_usage`. */
  function DiskEntry(res: DiskResult, asBytes: bool, toGb: int -> real): map<string, PyValue>
  {
    match res
    case Usage(total, used, free, percent) =>
      map["total" := ByteField(total, asBytes, toGb), "percent" := PFloat(percent),
          "used" := ByteField(used, asBytes, toGb), "free" := ByteField(free, asBytes, toGb),
          "status" := PStr(StatusOk)]
    case OsError =>
      map["status" := PStr(MissingMountStatus)]
  }

  function DiskSection(mounts: seq<string>, usage: string -> DiskResult, asBytes: bool,
                       toGb: int -> real): map<string, PyValue>
  {
    map m | m in mounts :: PDict(DiskEntry(usage(m), asBytes, toGb))
  }

  // ---- network ----

  function PerNicInterfaces(perNic: map<string, NetIo>): map<string, PyValue>
  {
    map k | k in perNic :: PDict(AsDict(perNic[k]))
  }

  /** The `interfaces` mapping: the aggregate under `allnic`, or one entry
      per reported interface. */
  function Interfaces(perNic: bool, h: Readings): map<string, PyValue>
  {
    if perNic then PerNicInterfaces(h.netPerNic)
    else map[AllNicKey := PDict(AsDict(h.netTotal))]
  }

  function NetworkSection(perNic: bool, h: Readings): map<string, PyValue>
  {
    map["interfaces" := PDict(Interfaces(perNic, h)), "status" := PStr(StatusOk)]
  }

  // ---- the whole record ----

  /** The record after the CPU step of the loop body. */
  function AddCpu(c: Config, h: Readings, r: map<string, PyValue>): map<string, PyValue>
  {
    if c.cpu then r["cpu" := PDict(CpuSection(c.combinedCpu, h))] else r
  }

  /** The record after the memory step. */
  function AddMemory(c: Config, h: Readings, toGb: int -> real, r: map<string, PyValue>): map<string, PyValue>
  {
    if c.memory then r["memory" := PDict(MemorySection(h.memory, c.asBytes, toGb))] else r
  }

  /** The record after the disk step. */
  function AddDisk(c: Config, h: Readings, toGb: int -> real, r: map<string, PyValue>): map<string, PyValue>
  {
    if c.disk
    then r["disk" := PDict(DiskSection(Mounts(c.diskPaths, h.partitions), h.diskUsage, c.asBytes, toGb))]
    else r
  }

  /** The record after the network step. */
  function AddNetwork(c: Config, h: Readings, r: map<string, PyValue>): map<string, PyValue>
  {
    if c.network then r["network" := PDict(NetworkSection(c.perNic, h))] else r
  }

  /** `log_msg` after one pass of the loop body, which starts from `{}`. */
  function LogMsg(c: Config, h: Readings, toGb: int -> real): map<string, PyValue>
  {
    AddNetwork(c, h, AddDisk(c, h, toGb, AddMemory(c, h, toGb, AddCpu(c, h, map[]))))
  }

  // ---- the log line ----

  /** The guard in front of the prefix, as written: `prefix is not None or
      prefix != ""`. */
  function PrefixGuard(prefix: Option<string>): bool
  {
    prefix.Some? || prefix != Some("")
  }

  /** The guard the authors evidently meant: a prefix that is present and
      not empty. */
  function IntendedPrefixGuard(prefix: Option<string>): bool
  {
    prefix.Some? && prefix.value != ""
  }

  /** The logged line as written: the prefix and a space are put in front
      when the guard holds, then the line is stripped. */
  function Message(prefix: string, rendering: string): string
  {
    var report := if PrefixGuard(Some(prefix)) then prefix + " " + rendering else rendering;
    Strip(report)
  }

  /** The logged line with the intended guard. */
  function IntendedMessage(prefix: string, rendering: string): string
  {
    var report := if IntendedPrefixGuard(Some(prefix)) then prefix + " " + rendering else rendering;
    Strip(report)
  }
}
