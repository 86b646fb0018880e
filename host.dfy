/** The inputs of one sampling cycle: the command-line configuration and the
    answers the operating-system statistics provider (psutil) gives to the
    calls the cycle makes. Each answer is a value here, so one cycle is a
    deterministic function of these inputs. */
module Host {
  import opened PyValues

  /** The flags `stats_logger` reads inside its loop. */
  datatype Config = Config(
    cpu: bool,
    combinedCpu: bool,
    memory: bool,
    disk: bool,
    diskPaths: string,
    network: bool,
    perNic: bool,
    prefix: string,
    asBytes: bool)

  /** The `--diskpaths` value that asks for partition discovery. */
  const AllDiskPaths := "all"

  /** Command-line defaults: every section off, all partitions, empty prefix,
      sizes in GB. */
  const DefaultConfig := Config(
    cpu := false, combinedCpu := false, memory := false, disk := false,
    diskPaths := AllDiskPaths, network := false, perNic := false,
    prefix := "", asBytes := false)

  /** The fields of `virtual_memory()` that the cycle reports. */
  datatype VirtualMemory = VirtualMemory(total: nat, available: nat, percent: real, used: nat, free: nat)

  /** `disk_usage(path)`: the usage figures, or the `OSError` it raises. */
  datatype DiskResult =
    | Usage(total: nat, used: nat, free: nat, percent: real)
    | OsError

  /** One entry of `disk_partitions(all=False)`. */
  datatype Partition = Partition(device: string, mountpoint: string, fstype: string, opts: string)

  /** `net_io_counters()` for one interface or for all of them together. */
  datatype NetIo = NetIo(
    bytesSent: nat, bytesRecv: nat, packetsSent: nat, packetsRecv: nat,
    errIn: nat, errOut: nat, dropIn: nat, dropOut: nat)

  /** What the statistics provider answers during one cycle:
      `cpu_percent(percpu=False)` and `cpu_percent(percpu=True)`,
      `virtual_memory()`, `disk_usage` for every path, `disk_partitions()`,
      and `net_io_counters(pernic=False)` and `net_io_counters(pernic=True)`. */
  datatype Readings = Readings(
    cpuCombined: real,
    cpuPerCpu: seq<real>,
    memory: VirtualMemory,
    diskUsage: string -> DiskResult,
    partitions: seq<Partition>,
    netTotal: NetIo,
    netPerNic: map<string, NetIo>)

  /** Python's `dict(counters._asdict())`: the counters under their field names. */
  function AsDict(n: NetIo): (d: map<string, PyValue>)
    ensures d.Keys == {"bytes_sent", "bytes_recv", "packets_sent", "packets_recv",
                       "errin", "errout", "dropin", "dropout"}
  {
    map["bytes_sent" := PInt(n.bytesSent), "bytes_recv" := PInt(n.bytesRecv),
        "packets_sent" := PInt(n.packetsSent), "packets_recv" := PInt(n.packetsRecv),
        "errin" := PInt(n.errIn), "errout" := PInt(n.errOut),
        "dropin" := PInt(n.dropIn), "dropout" := PInt(n.dropOut)]
  }

  /** `AsDict` loses nothing: the counters can be read back from the dict. */
  lemma AsDictFaithful(n: NetIo)
    ensures var d := AsDict(n);
      NetIo(d["bytes_sent"].i, d["bytes_recv"].i, d["packets_sent"].i, d["packets_recv"].i,
            d["errin"].i, d["errout"].i, d["dropin"].i, d["dropout"].i) == n
  {
  }
}
