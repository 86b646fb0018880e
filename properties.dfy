/** The rules the record and the log line of one cycle obey, proved about
    the functions of module Record for every configuration, every answer of
    the statistics provider, and every `to_gb` and rendering. */
module RecordProperties {
  import opened PyValues
  import opened Text
  import opened Host
  import opened Record

  /** Each section is present exactly when its flag is set, and the record
      holds nothing else. */
  lemma SectionsMatchFlags(c: Config, h: Readings, toGb: int -> real)
    ensures var r := LogMsg(c, h, toGb);
      && r.Keys <= SectionNames
      && ("cpu" in r <==> c.cpu)
      && ("memory" in r <==> c.memory)
      && ("disk" in r <==> c.disk)
      && ("network" in r <==> c.network)
  {
  }

  /** The CPU reading is always a list: the combined reading wrapped as a
      one-element list, or the per-CPU readings exactly as returned. */
  lemma CpuIsAlwaysList(c: Config, h: Readings, toGb: int -> real)
    requires c.cpu
    ensures var r := LogMsg(c, h, toGb);
      && "cpu" in r && r["cpu"].PDict?
      && r["cpu"].entries.Keys == {"utilization_pct", "status"}
      && r["cpu"].entries["status"] == PStr(StatusOk)
      && r["cpu"].entries["utilization_pct"].PList?
      && var pcts := r["cpu"].entries["utilization_pct"].items;
      && (c.combinedCpu ==> pcts == [PFloat(h.cpuCombined)])
      && (!c.combinedCpu ==>
            |pcts| == |h.cpuPerCpu| && forall i :: 0 <= i < |pcts| ==> pcts[i] == PFloat(h.cpuPerCpu[i]))
  {
  }

  /** An explicit `--diskpaths` gives one mount per comma-separated piece
      (one more than the commas), in order, each the piece stripped of
      surrounding whitespace; the pieces joined by commas are the option. */
  lemma ExplicitMounts(diskPaths: string, partitions: seq<Partition>)
    requires diskPaths != AllDiskPaths
    ensures var mounts := Mounts(diskPaths, partitions);
      var pieces := Split(diskPaths, ',');
      && |mounts| == Count(diskPaths, ',') + 1 == |pieces|
      && Join(pieces, ',') == diskPaths
      && (forall i :: 0 <= i < |mounts| ==> mounts[i] == Strip(pieces[i]) && ',' !in pieces[i])
      && (forall i :: 0 <= i < |mounts| && pieces[i] == "" ==> mounts[i] == "")
  {
    SplitLength(diskPaths, ',');
    JoinSplit(diskPaths, ',');
  }

  /** With `--diskpaths all` the mounts are the discovered mount points, in
      the order the provider lists the partitions. */
  lemma DiscoveredMounts(partitions: seq<Partition>)
    ensures var mounts := Mounts(AllDiskPaths, partitions);
      && |mounts| == |partitions|
      && forall i :: 0 <= i < |mounts| ==> mounts[i] == partitions[i].mountpoint
  {
  }

  /** A successful mount entry holds exactly the four figures and status
      "OK"; a failed one holds only the failure status. */
  lemma DiskEntryShape(res: DiskResult, asBytes: bool, toGb: int -> real)
    ensures var e := DiskEntry(res, asBytes, toGb);
      && (res.Usage? ==> e.Keys == {"total", "percent", "used", "free", "status"}
                         && e["status"] == PStr(StatusOk))
      && (res.OsError? ==> e == map["status" := PStr(MissingMountStatus)])
  {
  }

  /** The disk map has exactly one key per resolved mount, and the entry of
      each mount is computed from that mount's own `disk_usage` answer. */
  lemma DiskKeysAreMounts(mounts: seq<string>, usage: string -> DiskResult, asBytes: bool,
                          toGb: int -> real)
    ensures var d := DiskSection(mounts, usage, asBytes, toGb);
      && (forall m :: m in d <==> m in mounts)
      && (forall m :: m in d ==> d[m] == PDict(DiskEntry(usage(m), asBytes, toGb)))
  {
  }

  /** A mount whose `disk_usage` raises gets the failure status and leaves
      every other entry and the set of keys as they would otherwise be. */
  lemma FailureIsIsolated(mounts: seq<string>, usage: string -> DiskResult, bad: string,
                          asBytes: bool, toGb: int -> real)
    ensures var failing := (m: string) => if m == bad then OsError else usage(m);
      var before := DiskSection(mounts, usage, asBytes, toGb);
      var after := DiskSection(mounts, failing, asBytes, toGb);
      && after.Keys == before.Keys
      && (bad in mounts ==> after[bad] == PDict(map["status" := PStr(MissingMountStatus)]))
      && (forall m :: m in mounts && m != bad ==> after[m] == before[m])
  {
  }

  /** With `--asbytes` every byte figure is the provider's number unchanged,
      otherwise `to_gb` of it; percentages are never converted. */
  lemma UnitsFollowAsBytes(c: Config, h: Readings, toGb: int -> real, mount: string)
    ensures var mem := MemorySection(h.memory, c.asBytes, toGb);
      && (c.asBytes ==>
            && mem["total"] == PInt(h.memory.total) && mem["available"] == PInt(h.memory.available)
            && mem["used"] == PInt(h.memory.used) && mem["free"] == PInt(h.memory.free))
      && (!c.asBytes ==>
            && mem["total"] == PFloat(toGb(h.memory.total))
            && mem["available"] == PFloat(toGb(h.memory.available))
            && mem["used"] == PFloat(toGb(h.memory.used))
            && mem["free"] == PFloat(toGb(h.memory.free)))
      && mem["percent"] == PFloat(h.memory.percent)
      && mem.Keys == {"total", "available", "percent", "used", "free", "status"}
    ensures var res := h.diskUsage(mount);
      var e := DiskEntry(res, c.asBytes, toGb);
      res.Usage? ==>
        && (c.asBytes ==>
              e["total"] == PInt(res.total) && e["used"] == PInt(res.used) && e["free"] == PInt(res.free))
        && (!c.asBytes ==>
              && e["total"] == PFloat(toGb(res.total))
              && e["used"] == PFloat(toGb(res.used))
              && e["free"] == PFloat(toGb(res.free)))
        && e["percent"] == PFloat(res.percent)
  {
  }

  /** The network interfaces always form a mapping: one `allnic` key holding
      the aggregate counters without `--pernic`, one key per reported
      interface with it. */
  lemma NetworkIsAlwaysMapping(c: Config, h: Readings, toGb: int -> real)
    requires c.network
    ensures var r := LogMsg(c, h, toGb);
      && "network" in r && r["network"] == PDict(NetworkSection(c.perNic, h))
      && var n := NetworkSection(c.perNic, h);
      && n.Keys == {"interfaces", "status"} && n["status"] == PStr(StatusOk)
      && n["interfaces"].PDict?
      && var ifs := n["interfaces"].entries;
      && (!c.perNic ==> ifs == map[AllNicKey := PDict(AsDict(h.netTotal))])
      && (c.perNic ==>
            ifs.Keys == h.netPerNic.Keys && forall k :: k in ifs ==> ifs[k] == PDict(AsDict(h.netPerNic[k])))
  {
  }

  /** The prefix and a space are always put in front before stripping. */
  lemma MessageAlwaysPrefixed(prefix: string, rendering: string)
    ensures Message(prefix, rendering) == Strip(prefix + " " + rendering)
  {
  }

  /** With the default empty prefix the line is the stripped rendering. */
  lemma DefaultPrefixMessage(rendering: string)
    ensures Message(DefaultConfig.prefix, rendering) == Strip(rendering)
  {
    assert "" + " " + rendering == [' '] + rendering;
    StripSpaceCons(' ', rendering);
  }

  /** The guard as written holds for every prefix, the missing and the
      empty one included. */
  lemma PrefixGuardAlwaysHolds(prefix: Option<string>)
    ensures PrefixGuard(prefix)
    ensures PrefixGuard(Some("")) && !IntendedPrefixGuard(Some(""))
  {
  }

  /** The intended rule: a non-empty prefix and a space go in front, an empty
      prefix adds nothing. */
  lemma IntendedMessageRule(prefix: string, rendering: string)
    ensures prefix == "" ==> IntendedMessage(prefix, rendering) == Strip(rendering)
    ensures prefix != "" ==> IntendedMessage(prefix, rendering) == Strip(prefix + " " + rendering)
  {
  }

  /** Because the line is stripped, the tautological guard makes no
      difference: the line as written is the intended one. */
  lemma MessageMatchesIntended(prefix: string, rendering: string)
    ensures Message(prefix, rendering) == IntendedMessage(prefix, rendering)
  {
    if prefix == "" {
      DefaultPrefixMessage(rendering);
    }
  }

  /** With every default the record is empty and the line is the stripped
      rendering of the empty dict. */
  lemma DefaultCycle(h: Readings, toGb: int -> real, render: PyValue -> string)
    ensures LogMsg(DefaultConfig, h, toGb) == map[]
    ensures Message(DefaultConfig.prefix, render(PDict(map[]))) == Strip(render(PDict(map[])))
  {
    DefaultPrefixMessage(render(PDict(map[])));
  }
}
