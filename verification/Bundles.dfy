/** `DiagnosticCollector`: the registry of diagnostic bundles and the files it keeps. */
module Bundles {
  import opened Basics
  import opened Digits

  const MAXIMUM_BUNDLES: nat := 5

  datatype BundleInfo = BundleInfo(id: string, filename: string, size: nat, createdAt: nat)

  /** How `tar` ended, and whether a failing `tar` left a file behind. */
  datatype Archiving = Failed(left: bool) | Archived

  /** What the world does to one `CreateBundle` call: the clock, the success of each foreign operation,
      and the names that cannot be removed while it runs. */
  datatype Attempt = Attempt(
    timestamp: nat, prepared: bool, stagingMade: bool, stagingSecured: bool, collected: bool,
    tar: Archiving, sized: bool, size: nat, stuck: set<string>)

  /** The collector's state together with the entries of its root directory. */
  datatype Registry = Registry(pid: nat, sequence: nat, bundles: seq<BundleInfo>, disk: set<string>)

  function Id(timestamp: nat, pid: nat, serial: nat): string {
    Decimal(timestamp) + "-" + Decimal(pid) + "-" + Decimal(serial)
  }

  function StagingName(id: string): string {
    "staging-" + id
  }

  function ArchiveName(id: string): string {
    "edgescope-diagnostic-" + id + ".tar.gz"
  }

  // ----- what the operations compute -----

  function Removed(disk: set<string>, name: string, stuck: set<string>): set<string> {
    if name in stuck then disk else disk - {name}
  }

  function Evicted(r: Registry, stuck: set<string>): (e: Registry)
    decreases |r.bundles|
  {
    if |r.bundles| <= MAXIMUM_BUNDLES then r
    else
      Evicted(r.(disk := Removed(r.disk, r.bundles[0].filename, stuck), bundles := r.bundles[1..]), stuck)
  }

  function Created(r: Registry, a: Attempt): (result: (Registry, Option<BundleInfo>)) {
    if !a.prepared then (r, None)
    else
      var serial := (r.sequence + 1) % WORD;
      var id := Id(a.timestamp, r.pid, serial);
      var next := r.(sequence := serial);
      if StagingName(id) in r.disk || !a.stagingMade then (next, None)
      else
        var staged := r.disk + {StagingName(id)};
        if !a.stagingSecured then (next.(disk := Removed(staged, StagingName(id), a.stuck)), None)
        else
          var tarred := a.collected && a.tar.Archived?;
          var written := if tarred || (a.collected && a.tar.left) then staged + {ArchiveName(id)} else staged;
          var swept := Removed(written, StagingName(id), a.stuck);
          if !tarred || !a.sized then (next.(disk := Removed(swept, ArchiveName(id), a.stuck)), None)
          else
            var info := BundleInfo(id, ArchiveName(id), a.size, a.timestamp);
            (Evicted(next.(disk := swept, bundles := r.bundles + [info]), a.stuck), Some(info))
  }

  function Lookup(bundles: seq<BundleInfo>, id: string): (r: Option<BundleInfo>) {
    if bundles == [] then None else if bundles[0].id == id then Some(bundles[0]) else Lookup(bundles[1..], id)
  }

  function Swept(disk: set<string>, bundles: seq<BundleInfo>, stuck: set<string>): set<string> {
    if bundles == [] then disk else Swept(Removed(disk, bundles[0].filename, stuck), bundles[1..], stuck)
  }

  // ----- the class -----

  class DiagnosticCollector {
    const pid: nat
    var bundles: seq<BundleInfo>
    var sequence: nat
    var disk: set<string>

    constructor (pid: nat, disk: set<string>)
      ensures this.pid == pid
      ensures State() == Registry(pid, 0, [], disk)
    {
      this.pid := pid;
      this.disk := disk;
      bundles := [];
      sequence := 0;
    }

    function State(): Registry
      reads this
    {
      Registry(pid, sequence, bundles, disk)
    }

    method Remove(name: string, stuck: set<string>)
      modifies this`disk
      ensures disk == Removed(old(disk), name, stuck)
    {
      if name !in stuck {
        disk := disk - {name};
      }
    }

    method RemoveOldBundles(stuck: set<string>)
      modifies this`disk, this`bundles
      ensures State() == Evicted(old(State()), stuck)
    {
      while |bundles| > MAXIMUM_BUNDLES
        invariant sequence == old(sequence)
        invariant Evicted(State(), stuck) == Evicted(old(State()), stuck)
        decreases |bundles|
      {
        Remove(bundles[0].filename, stuck);
        bundles := bundles[1..];
      }
    }

    method CreateBundle(a: Attempt) returns (bundle: Option<BundleInfo>)
      modifies this
      ensures (State(), bundle) == Created(old(State()), a)
    {
      if !a.prepared {
        return None;
      }
      sequence := (sequence + 1) % WORD;
      var id := Id(a.timestamp, pid, sequence);
      var staging, archive := StagingName(id), ArchiveName(id);
      if staging in disk || !a.stagingMade {
        return None;
      }
      disk := disk + {staging};
      if !a.stagingSecured {
        Remove(staging, a.stuck);
        return None;
      }
      var success := a.collected;
      if success {
        if a.tar.Archived? || a.tar.left {
          disk := disk + {archive};
        }
        success := a.tar.Archived?;
      }
      Remove(staging, a.stuck);
      if !success {
        Remove(archive, a.stuck);
        return None;
      }
      if !a.sized {
        Remove(archive, a.stuck);
        return None;
      }
      var info := BundleInfo(id, archive, a.size, a.timestamp);
      bundles := bundles + [info];
      RemoveOldBundles(a.stuck);
      return Some(info);
    }

    method GetBundlePath(id: string) returns (r: Option<BundleInfo>)
      ensures r == Lookup(bundles, id)
    {
      var i := 0;
      assert bundles[0..] == bundles;
      while i < |bundles|
        invariant 0 <= i <= |bundles|
        invariant Lookup(bundles, id) == Lookup(bundles[i..], id)
      {
        if bundles[i].id == id {
          return Some(bundles[i]);
        }
        assert bundles[i..][1..] == bundles[i + 1..];
        i := i + 1;
      }
      return None;
    }

    /** The destructor. */
    method Close(stuck: set<string>)
      modifies this`disk
      ensures disk == Swept(old(disk), bundles, stuck)
    {
      var i := 0;
      assert bundles[0..] == bundles;
      while i < |bundles|
        invariant 0 <= i <= |bundles|
        invariant Swept(old(disk), bundles, stuck) == Swept(disk, bundles[i..], stuck)
      {
        assert bundles[i..][1..] == bundles[i + 1..];
        Remove(bundles[i].filename, stuck);
        i := i + 1;
      }
    }
  }
}
