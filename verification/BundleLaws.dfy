/** What any run of `CreateBundle` calls leaves in the registry and on disk. */
module BundleLaws {
  import opened Basics
  import opened Digits
  import opened Bundles

  // ----- identifiers -----

  function AfterLastDash(s: string): (r: string) {
    if s == [] || s[|s| - 1] == '-' then [] else AfterLastDash(s[..|s| - 1]) + [s[|s| - 1]]
  }

  lemma {:induction false} AfterLastDashOfConcat(a: string, b: string)
    requires '-' !in b
    ensures AfterLastDash(a + "-" + b) == b
  {
    var s := a + "-" + b;
    if b == [] {
      assert s[|s| - 1] == '-';
    } else {
      var front := b[..|b| - 1];
      AfterLastDashOfConcat(a, front);
      assert s[..|s| - 1] == a + "-" + front;
    }
  }

  /** The sequence number that an identifier ends in. */
  function Serial(id: string): (n: nat) {
    var s := AfterLastDash(id);
    if AllDigits(s, 10) then Value(s, 10) else 0
  }

  lemma SerialOfId(timestamp: nat, pid: nat, serial: nat)
    ensures Serial(Id(timestamp, pid, serial)) == serial
  {
    hide Decimal, AllDigits;
    DecimalHasNo(serial, '-');
    AfterLastDashOfConcat(Decimal(timestamp) + "-" + Decimal(pid), Decimal(serial));
    ValueUndoesPrint(serial, 10);
    DecimalIs(serial);
  }

  lemma DecimalIs(n: nat)
    ensures Decimal(n) == Print(n, 10)
  {
  }

  /** Identifiers are never reused, whatever the clock does. */
  lemma IdsAreInjective(t: nat, u: nat, pid: nat, m: nat, n: nat)
    requires Id(t, pid, m) == Id(u, pid, n)
    ensures m == n
  {
    SerialOfId(t, pid, m);
    SerialOfId(u, pid, n);
  }

  lemma ArchiveNamesAreInjective(a: string, b: string)
    requires ArchiveName(a) == ArchiveName(b)
    ensures a == b
  {
    var n := |"edgescope-diagnostic-"|;
    assert |a| == |b|;
    assert ArchiveName(a)[n..n + |a|] == a;
    assert ArchiveName(b)[n..n + |b|] == b;
  }

  lemma StagingIsNoArchive(a: string, b: string)
    ensures StagingName(a) != ArchiveName(b)
  {
    assert StagingName(a)[0] == 's' && ArchiveName(b)[0] == 'e';
  }

  // ----- invariants -----

  /** The retained bundles carry identifiers issued by this agent, in increasing order. */
  ghost predicate Valid(r: Registry) {
    && |r.bundles| <= MAXIMUM_BUNDLES
    && r.sequence < WORD
    && Issued(r.pid, r.sequence, r.bundles)
  }

  predicate Genuine(pid: nat, b: BundleInfo) {
    b.id == Id(b.createdAt, pid, Serial(b.id)) && b.filename == ArchiveName(b.id)
  }

  ghost predicate Issued(pid: nat, upTo: nat, bundles: seq<BundleInfo>) {
    && (forall i :: 0 <= i < |bundles| ==> Genuine(pid, bundles[i]) && 1 <= Serial(bundles[i].id) <= upTo)
    && (forall i, j :: 0 <= i < j < |bundles| ==> Serial(bundles[i].id) < Serial(bundles[j].id))
  }

  function Archives(bundles: seq<BundleInfo>): set<string> {
    set i | 0 <= i < |bundles| :: bundles[i].filename
  }

  /** No entry that was there before the agent started has a name that the agent will use. */
  ghost predicate Foreign(pid: nat, disk: set<string>) {
    forall t: nat, n: nat :: StagingName(Id(t, pid, n)) !in disk && ArchiveName(Id(t, pid, n)) !in disk
  }

  /** A name that the agent has used. */
  ghost predicate Used(pid: nat, upTo: nat, name: string) {
    exists t: nat, n: nat :: n <= upTo && (name == StagingName(Id(t, pid, n)) || name == ArchiveName(Id(t, pid, n)))
  }

  /** Beside what was there before, the directory holds the retained archives and what is `left` of earlier calls. */
  ghost predicate Holds(r: Registry, foreign: set<string>, left: set<string>) {
    && Foreign(r.pid, foreign)
    && r.disk == foreign + Archives(r.bundles) + left
    && left !! Archives(r.bundles)
    && forall name :: name in left ==> Used(r.pid, r.sequence, name)
  }

  /** The directory holds the retained archives and nothing else of the agent's. */
  ghost predicate Clean(r: Registry, foreign: set<string>) {
    Holds(r, foreign, {})
  }

  lemma DistinctArchives(pid: nat, upTo: nat, bundles: seq<BundleInfo>, i: nat, j: nat)
    requires Issued(pid, upTo, bundles) && i < j < |bundles|
    ensures bundles[i].filename != bundles[j].filename && bundles[i].id != bundles[j].id
  {
    assert Genuine(pid, bundles[i]) && Genuine(pid, bundles[j]);
    assert Serial(bundles[i].id) < Serial(bundles[j].id);
    if bundles[i].filename == bundles[j].filename {
      ArchiveNamesAreInjective(bundles[i].id, bundles[j].id);
    }
  }

  lemma NewNamesAreFresh(r: Registry, foreign: set<string>, left: set<string>, timestamp: nat, serial: nat)
    requires Valid(r) && Holds(r, foreign, left) && serial > r.sequence
    ensures StagingName(Id(timestamp, r.pid, serial)) !in r.disk
    ensures ArchiveName(Id(timestamp, r.pid, serial)) !in r.disk
  {
    hide Id, Serial, ArchiveName, StagingName, Used;
    var id := Id(timestamp, r.pid, serial);
    assert StagingName(id) !in foreign && ArchiveName(id) !in foreign;
    forall i | 0 <= i < |r.bundles|
      ensures r.bundles[i].filename != StagingName(id) && r.bundles[i].filename != ArchiveName(id)
    {
      var b := r.bundles[i];
      assert Genuine(r.pid, b);
      StagingIsNoArchive(id, b.id);
      if b.filename == ArchiveName(id) {
        ArchiveNamesAreInjective(b.id, id);
        SerialOfId(timestamp, r.pid, serial);
      }
    }
    forall name | name in left ensures name != StagingName(id) && name != ArchiveName(id) {
      UsedIsNotNew(r.pid, r.sequence, name, timestamp, serial);
    }
  }

  lemma UsedIsNotNew(pid: nat, upTo: nat, name: string, timestamp: nat, serial: nat)
    requires Used(pid, upTo, name) && serial > upTo
    ensures name != StagingName(Id(timestamp, pid, serial)) && name != ArchiveName(Id(timestamp, pid, serial))
  {
    hide Id, ArchiveName, StagingName;
    var t: nat, n: nat :| n <= upTo && (name == StagingName(Id(t, pid, n)) || name == ArchiveName(Id(t, pid, n)));
    var earlier, id := Id(t, pid, n), Id(timestamp, pid, serial);
    if earlier == id {
      IdsAreInjective(t, timestamp, pid, n, serial);
    }
    StagingIsNoArchive(earlier, id);
    StagingIsNoArchive(id, earlier);
    if ArchiveName(earlier) == ArchiveName(id) {
      ArchiveNamesAreInjective(earlier, id);
    }
    if StagingName(earlier) == StagingName(id) {
      StagingNamesAreInjective(earlier, id);
    }
  }

  lemma StagingNamesAreInjective(a: string, b: string)
    requires StagingName(a) == StagingName(b)
    ensures a == b
  {
    assert StagingName(a)[8..] == a && StagingName(b)[8..] == b;
  }

  // ----- eviction -----

  lemma {:induction false} EvictedKeepsLast(r: Registry, stuck: set<string>)
    ensures var e := Evicted(r, stuck);
      && e.bundles == Last(r.bundles, MAXIMUM_BUNDLES)
      && e.pid == r.pid && e.sequence == r.sequence
    decreases |r.bundles|
  {
    if |r.bundles| > MAXIMUM_BUNDLES {
      var disk := Removed(r.disk, r.bundles[0].filename, stuck);
      EvictedKeepsLast(r.(disk := disk, bundles := r.bundles[1..]), stuck);
    }
  }

  lemma IssuedTail(pid: nat, upTo: nat, bundles: seq<BundleInfo>)
    requires Issued(pid, upTo, bundles) && bundles != []
    ensures Issued(pid, upTo, bundles[1..])
    ensures Archives(bundles[1..]) == Archives(bundles) - {bundles[0].filename}
  {
    hide Serial, Genuine;
    var rest := bundles[1..];
    forall j | 1 <= j < |bundles| ensures bundles[j].filename != bundles[0].filename {
      DistinctArchives(pid, upTo, bundles, 0, j);
    }
    forall name | name in Archives(bundles) && name != bundles[0].filename ensures name in Archives(rest) {
      var i :| 0 <= i < |bundles| && bundles[i].filename == name;
      assert rest[i - 1].filename == name;
    }
    forall name | name in Archives(rest) ensures name in Archives(bundles) && name != bundles[0].filename {
      var i :| 0 <= i < |rest| && rest[i].filename == name;
      assert bundles[i + 1].filename == name;
    }
  }

  /** Evicted archives that cannot be removed are left. */
  lemma {:induction false} EvictedLeaves(r: Registry, foreign: set<string>, left: set<string>, stuck: set<string>)
    returns (after: set<string>)
    requires Issued(r.pid, r.sequence, r.bundles) && Holds(r, foreign, left)
    ensures var e := Evicted(r, stuck);
      Holds(e, foreign, after) && Issued(e.pid, e.sequence, e.bundles) && |e.bundles| <= MAXIMUM_BUNDLES
    ensures after <= left + stuck
    decreases |r.bundles|
  {
    hide Archives, Issued, Genuine, Foreign, Used;
    after := left;
    if |r.bundles| > MAXIMUM_BUNDLES {
      var first := r.bundles[0];
      IssuedTail(r.pid, r.sequence, r.bundles);
      FirstIsOurs(r.pid, r.sequence, r.bundles, foreign);
      var next := r.(disk := Removed(r.disk, first.filename, stuck), bundles := r.bundles[1..]);
      var more := if first.filename in stuck then left + {first.filename} else left;
      assert next.disk == foreign + Archives(next.bundles) + more;
      after := EvictedLeaves(next, foreign, more, stuck);
    }
  }

  lemma FirstIsOurs(pid: nat, upTo: nat, bundles: seq<BundleInfo>, foreign: set<string>)
    requires Issued(pid, upTo, bundles) && Foreign(pid, foreign) && bundles != []
    ensures bundles[0].filename !in foreign && Used(pid, upTo, bundles[0].filename)
    ensures bundles[0].filename in Archives(bundles)
  {
    hide Serial, Id, ArchiveName;
    assert Genuine(pid, bundles[0]);
  }

  // ----- one call -----

  lemma IssuedOneMore(pid: nat, sequence: nat, bundles: seq<BundleInfo>, timestamp: nat, size: nat)
    requires Issued(pid, sequence, bundles)
    ensures var id := Id(timestamp, pid, sequence + 1);
      var info := BundleInfo(id, ArchiveName(id), size, timestamp);
      && Issued(pid, sequence + 1, bundles + [info])
      && Archives(bundles + [info]) == Archives(bundles) + {info.filename}
  {
    hide Id, ArchiveName, Serial;
    SerialOfId(timestamp, pid, sequence + 1);
    var id := Id(timestamp, pid, sequence + 1);
    var info := BundleInfo(id, ArchiveName(id), size, timestamp);
    var all := bundles + [info];
    forall i | 0 <= i < |all| ensures Genuine(pid, all[i]) && 1 <= Serial(all[i].id) <= sequence + 1 {
      if i < |bundles| {
        assert Genuine(pid, bundles[i]);
      }
    }
    forall name | name in Archives(bundles) ensures name in Archives(all) {
      var i :| 0 <= i < |bundles| && bundles[i].filename == name;
      assert all[i].filename == name;
    }
    assert all[|bundles|].filename == info.filename;
  }

  lemma IssuedUpTo(pid: nat, m: nat, n: nat, bundles: seq<BundleInfo>)
    requires Issued(pid, m, bundles) && m <= n
    ensures Issued(pid, n, bundles)
  {
    hide Serial, Genuine;
  }

  lemma UsedUpTo(pid: nat, m: nat, n: nat, left: set<string>)
    requires m <= n && forall name :: name in left ==> Used(pid, m, name)
    ensures forall name :: name in left ==> Used(pid, n, name)
  {
    hide Id, ArchiveName, StagingName;
  }

  /** One call, whichever way it ends: beside the retained archives, only names that could not be removed are
      left. */
  lemma CreatedLeaves(r: Registry, a: Attempt, foreign: set<string>, left: set<string>)
    returns (after: set<string>)
    requires Valid(r) && Holds(r, foreign, left) && r.sequence + 1 < WORD
    ensures var s := Created(r, a).0;
      Valid(s) && Holds(s, foreign, after) && s.pid == r.pid && r.sequence <= s.sequence <= r.sequence + 1
    ensures after <= left + a.stuck
  {
    hide Archives, Issued, Genuine, Foreign, Id, ArchiveName, StagingName, Evicted, Used;
    var serial := r.sequence + 1;
    assert serial % WORD == serial;
    var id := Id(a.timestamp, r.pid, serial);
    var staging, archive := StagingName(id), ArchiveName(id);
    NewNamesAreFresh(r, foreign, left, a.timestamp, serial);
    StagingIsNoArchive(id, id);
    IssuedUpTo(r.pid, r.sequence, serial, r.bundles);
    UsedUpTo(r.pid, r.sequence, serial, left);
    NewIsUsed(r.pid, a.timestamp, serial);
    IssuedOneMore(r.pid, r.sequence, r.bundles, a.timestamp, a.size);
    after := left;
    if a.prepared && a.stagingMade {
      after := left + if staging in a.stuck then {staging} else {};
      if a.stagingSecured {
        var tarred := a.collected && a.tar.Archived?;
        if tarred && a.sized {
          var info := BundleInfo(id, archive, a.size, a.timestamp);
          var full := Registry(r.pid, serial, r.bundles + [info], r.disk + {archive} + (after - left));
          assert full.disk == foreign + Archives(full.bundles) + after;
          after := EvictedLeaves(full, foreign, after, a.stuck);
          EvictedKeepsLast(full, a.stuck);
          assert Removed(r.disk + {staging} + {archive}, staging, a.stuck) == full.disk;
        } else if (tarred || (a.collected && a.tar.left)) && archive in a.stuck {
          after := after + {archive};
        }
      }
    }
  }

  lemma NewIsUsed(pid: nat, timestamp: nat, serial: nat)
    ensures Used(pid, serial, StagingName(Id(timestamp, pid, serial)))
    ensures Used(pid, serial, ArchiveName(Id(timestamp, pid, serial)))
  {
    hide Id, ArchiveName, StagingName;
  }

  /** Exactly when a call reports a bundle, what the bundle is called, and what the call does to the registry: a
      call whose directory cannot be prepared does nothing, and every other one uses up a number. */
  lemma CreatedExactlyWhen(r: Registry, a: Attempt)
    requires |r.bundles| <= 5
    ensures var (s, bundle) := Created(r, a);
      var id := Decimal(a.timestamp) + "-" + Decimal(r.pid) + "-" + Decimal((r.sequence + 1) % WORD);
      && (bundle.Some? <==>
            && a.prepared && a.stagingMade && a.stagingSecured && a.collected && a.tar.Archived? && a.sized
            && "staging-" + id !in r.disk)
      && (bundle.Some? ==>
            bundle.value == BundleInfo(id, "edgescope-diagnostic-" + id + ".tar.gz", a.size, a.timestamp))
      && s.pid == r.pid
      && s.sequence == (if a.prepared then (r.sequence + 1) % WORD else r.sequence)
      && s.bundles == Last(r.bundles + (if bundle.Some? then [bundle.value] else []), 5)
      && (!a.prepared ==> s.disk == r.disk)
  {
    CreatedAppends(r, a);
    hide Evicted, Decimal;
    var serial := (r.sequence + 1) % WORD;
    var id := Id(a.timestamp, r.pid, serial);
    var info := BundleInfo(id, ArchiveName(id), a.size, a.timestamp);
    forall disk: set<string>
      ensures Evicted(Registry(r.pid, serial, r.bundles + [info], disk), a.stuck).sequence == serial
      ensures Evicted(Registry(r.pid, serial, r.bundles + [info], disk), a.stuck).pid == r.pid
    {
      EvictedKeepsLast(Registry(r.pid, serial, r.bundles + [info], disk), a.stuck);
    }
  }

  // ----- whole runs -----

  function Run(r: Registry, attempts: seq<Attempt>): Registry
    decreases |attempts|
  {
    if attempts == [] then r else Run(Created(r, attempts[0]).0, attempts[1..])
  }

  /** The bundles that the calls of a run report to their callers, in order. */
  function Successes(r: Registry, attempts: seq<Attempt>): seq<BundleInfo>
    decreases |attempts|
  {
    if attempts == [] then []
    else
      var (s, bundle) := Created(r, attempts[0]);
      (if bundle.Some? then [bundle.value] else []) + Successes(s, attempts[1..])
  }

  lemma CreatedAppends(r: Registry, a: Attempt)
    requires |r.bundles| <= MAXIMUM_BUNDLES
    ensures var (s, bundle) := Created(r, a);
      && s.bundles == Last(r.bundles + (if bundle.Some? then [bundle.value] else []), MAXIMUM_BUNDLES)
      && |s.bundles| <= MAXIMUM_BUNDLES
  {
    hide Evicted, Id, StagingName, ArchiveName;
    var serial := (r.sequence + 1) % WORD;
    var id := Id(a.timestamp, r.pid, serial);
    var info := BundleInfo(id, ArchiveName(id), a.size, a.timestamp);
    forall disk: set<string>
      ensures Evicted(Registry(r.pid, serial, r.bundles + [info], disk), a.stuck).bundles ==
        Last(r.bundles + [info], MAXIMUM_BUNDLES)
    {
      EvictedKeepsLast(Registry(r.pid, serial, r.bundles + [info], disk), a.stuck);
    }
    assert r.bundles + [] == r.bundles;
  }

  /** The registry is the last five successes, in order, however calls and removals fail. */
  lemma {:induction false} RegistryIsTheLastFive(r: Registry, attempts: seq<Attempt>)
    requires |r.bundles| <= 5
    ensures Run(r, attempts).bundles == Last(r.bundles + Successes(r, attempts), 5)
    decreases |attempts|
  {
    hide Created;
    if attempts == [] {
      assert r.bundles + [] == r.bundles;
    } else {
      var (s, bundle) := Created(r, attempts[0]);
      CreatedAppends(r, attempts[0]);
      RegistryIsTheLastFive(s, attempts[1..]);
      var first, later := if bundle.Some? then [bundle.value] else [], Successes(s, attempts[1..]);
      LastOfLast(r.bundles + first, later, 5);
      assert r.bundles + first + later == r.bundles + (first + later);
    }
  }

  function AllStuck(attempts: seq<Attempt>): (names: set<string>) {
    if attempts == [] then {} else attempts[0].stuck + AllStuck(attempts[1..])
  }

  /** After any run, the directory holds what was there before, the retained archives, and beside them only names
      that could not be removed when they should have been. */
  lemma {:induction false} OnlyStuckNamesAreLeft(
    r: Registry, attempts: seq<Attempt>, foreign: set<string>, left: set<string>) returns (after: set<string>)
    requires Valid(r) && Holds(r, foreign, left) && r.sequence + |attempts| < WORD
    ensures var s := Run(r, attempts); Valid(s) && Holds(s, foreign, after)
    ensures after <= left + AllStuck(attempts)
    decreases |attempts|
  {
    hide Created, Valid, Holds;
    after := left;
    if attempts != [] {
      after := CreatedLeaves(r, attempts[0], foreign, left);
      after := OnlyStuckNamesAreLeft(Created(r, attempts[0]).0, attempts[1..], foreign, after);
    }
  }

  /** As long as files can be removed, the directory holds exactly the retained archives after any run:
      no staging directory, no partial archive, no evicted bundle. */
  lemma DiskIsTheRegistry(r: Registry, attempts: seq<Attempt>, foreign: set<string>)
    requires Valid(r) && Clean(r, foreign) && AllStuck(attempts) == {}
    requires r.sequence + |attempts| < WORD
    ensures var s := Run(r, attempts); Valid(s) && Clean(s, foreign)
  {
    hide Run, Valid, Holds;
    var after := OnlyStuckNamesAreLeft(r, attempts, foreign, {});
    assert after == {};
  }

  lemma NoStagingRemains(r: Registry, foreign: set<string>, timestamp: nat, serial: nat)
    requires Valid(r) && Clean(r, foreign)
    ensures StagingName(Id(timestamp, r.pid, serial)) !in r.disk
  {
    hide Id, Serial, ArchiveName, StagingName, Used;
    var name := StagingName(Id(timestamp, r.pid, serial));
    assert name !in foreign;
    forall i | 0 <= i < |r.bundles| ensures r.bundles[i].filename != name {
      assert Genuine(r.pid, r.bundles[i]);
      StagingIsNoArchive(Id(timestamp, r.pid, serial), r.bundles[i].id);
    }
  }

  // ----- looking a bundle up -----

  /** The first match is the only one: a lookup finds exactly the retained bundle of that identifier. */
  lemma {:induction false} LookupFindsExactly(pid: nat, upTo: nat, bundles: seq<BundleInfo>, id: string)
    requires Issued(pid, upTo, bundles)
    ensures Lookup(bundles, id).Some? <==> exists i :: 0 <= i < |bundles| && bundles[i].id == id
    ensures forall i :: 0 <= i < |bundles| && bundles[i].id == id ==> Lookup(bundles, id) == Some(bundles[i])
  {
    hide Serial, Genuine;
    if bundles != [] {
      IssuedTail(pid, upTo, bundles);
      LookupFindsExactly(pid, upTo, bundles[1..], id);
      forall j | 1 <= j < |bundles| ensures bundles[j].id != bundles[0].id && bundles[j] == bundles[1..][j - 1] {
        DistinctArchives(pid, upTo, bundles, 0, j);
      }
      if bundles[0].id != id && exists i :: 0 <= i < |bundles[1..]| && bundles[1..][i].id == id {
        var i :| 0 <= i < |bundles[1..]| && bundles[1..][i].id == id;
        assert bundles[i + 1].id == id;
      }
    }
  }

  lemma {:induction false} SuccessesAreIssued(r: Registry, attempts: seq<Attempt>, before: seq<BundleInfo>)
    requires r.sequence + |attempts| < WORD
    requires Issued(r.pid, r.sequence, before)
    ensures Issued(r.pid, r.sequence + |attempts|, before + Successes(r, attempts))
    decreases |attempts|
  {
    hide Issued, Evicted, Id, ArchiveName, StagingName;
    if attempts == [] {
      assert before + [] == before;
    } else {
      var (s, bundle) := Created(r, attempts[0]);
      CreatedNumbers(r, attempts[0]);
      IssuedOneMore(r.pid, r.sequence, before, attempts[0].timestamp, attempts[0].size);
      hide Created;
      IssuedUpTo(r.pid, r.sequence, s.sequence, before);
      var first := if bundle.Some? then [bundle.value] else [];
      var later := Successes(s, attempts[1..]);
      assert before + [] == before;
      SuccessesAreIssued(s, attempts[1..], before + first);
      IssuedUpTo(r.pid, s.sequence + |attempts| - 1, r.sequence + |attempts|, before + first + later);
      assert before + first + later == before + (first + later);
    }
  }

  lemma CreatedNumbers(r: Registry, a: Attempt)
    requires r.sequence + 1 < WORD
    ensures var (s, bundle) := Created(r, a);
      && s.pid == r.pid
      && r.sequence <= s.sequence <= r.sequence + 1
      && (bundle.Some? ==>
            var id := Id(a.timestamp, r.pid, r.sequence + 1);
            s.sequence == r.sequence + 1 && bundle.value == BundleInfo(id, ArchiveName(id), a.size, a.timestamp))
  {
    hide Evicted, Id, ArchiveName, StagingName;
    var serial := r.sequence + 1;
    assert serial % WORD == serial;
    var id := Id(a.timestamp, r.pid, serial);
    var info := BundleInfo(id, ArchiveName(id), a.size, a.timestamp);
    forall disk: set<string>
      ensures Evicted(Registry(r.pid, serial, r.bundles + [info], disk), a.stuck).pid == r.pid
      ensures Evicted(Registry(r.pid, serial, r.bundles + [info], disk), a.stuck).sequence == serial
    {
      EvictedKeepsLast(Registry(r.pid, serial, r.bundles + [info], disk), a.stuck);
    }
  }

  /** After any run of a fresh agent, the bundle of the k-th success is found by its identifier exactly
      when it is one of the last five; an evicted identifier never finds another bundle. */
  lemma LookupAfterRun(pid: nat, disk: set<string>, attempts: seq<Attempt>, k: nat)
    requires |attempts| < WORD
    requires k < |Successes(Registry(pid, 0, [], disk), attempts)|
    ensures var r := Registry(pid, 0, [], disk);
      var issued := Successes(r, attempts);
      Lookup(Run(r, attempts).bundles, issued[k].id) ==
      if k + 5 >= |issued| then Some(issued[k]) else None
  {
    hide Issued, Created, Id, Run, Successes, Lookup;
    var r := Registry(pid, 0, [], disk);
    var issued := Successes(r, attempts);
    NothingIssued(pid);
    SuccessesAreIssued(r, attempts, []);
    RegistryIsTheLastFive(r, attempts);
    assert [] + issued == issued;
    var kept := Last(issued, 5);
    var from := |issued| - |kept|;
    LastOfIssued(pid, |attempts|, issued, from);
    assert kept == issued[from..];
    LookupFindsExactly(pid, |attempts|, kept, issued[k].id);
    if k >= from {
      assert kept[k - from] == issued[k];
    } else {
      forall i | 0 <= i < |kept| ensures kept[i].id != issued[k].id {
        DistinctArchives(pid, |attempts|, issued, k, i + from);
      }
    }
  }

  lemma NothingIssued(pid: nat)
    ensures Issued(pid, 0, [])
  {
  }

  lemma LastOfIssued(pid: nat, upTo: nat, bundles: seq<BundleInfo>, from: nat)
    requires Issued(pid, upTo, bundles) && from <= |bundles|
    ensures Issued(pid, upTo, bundles[from..])
  {
    hide Serial, Genuine;
  }

  // ----- shutdown -----

  /** When the agent ends, the directory is as it was before it started. */
  lemma {:induction false} CloseRestoresDisk(r: Registry, foreign: set<string>)
    requires Issued(r.pid, r.sequence, r.bundles) && Clean(r, foreign)
    ensures Swept(r.disk, r.bundles, {}) == foreign
    decreases |r.bundles|
  {
    hide Issued, Genuine, Foreign;
    if r.bundles == [] {
      assert Archives([]) == {};
    } else {
      IssuedTail(r.pid, r.sequence, r.bundles);
      FirstIsOurs(r.pid, r.sequence, r.bundles, foreign);
      hide Archives;
      var next := r.(disk := r.disk - {r.bundles[0].filename}, bundles := r.bundles[1..]);
      assert Holds(next, foreign, {}) by {
        assert next.disk == foreign + Archives(next.bundles) + {};
      }
      CloseRestoresDisk(next, foreign);
    }
  }
}
