/** The `/__ht/` health check of the dashboard (`health_check`).

    Redis, the clock and the OS are capabilities passed in: `marker(key)` is
    what reading the scheduler key yields (already turned into an age
    relative to now), `alive(pid)` says whether `os.kill(pid, 0)` succeeds,
    and `ttl(key)` is the remaining heartbeat lifetime Redis reports. The
    check's observable effects (reads and probes, in order) are returned with
    the verdict so that what it does NOT touch can be stated. */
module Health {

  import opened Optional
  import opened Text
  import opened Records

  const SchedulerKeyPrefix: string := "scheduler_last_run"

  /** The scheduler writes its marker every 5 seconds; older than this is stale. */
  const StaleAfterMicros: int := 15_000_000

  /** What reading the scheduler key gives: nothing, a value `strptime`
      rejects, or a timestamp, given as its age `now - timestamp` in
      microseconds (negative when the timestamp lies in the future). */
  datatype Marker = Absent | Unparsable | Stamped(ageMicros: int)

  /** The outcome of one request: the two 503 reasons, the 200 answer, and
      the two uncaught exceptions (an unparsable marker; a local worker name
      without a numeric pid field). */
  datatype Verdict =
    | Healthy
    | SchedulerNotRunning
    | NoWorkers
    | MalformedWorkerName(name: string)
    | MalformedSchedulerMarker

  /** What the check does to the outside world, in order. */
  datatype Effect = ReadMarker(key: string) | ProbeProcess(pid: int) | ReadTtl(key: string)

  datatype Report = Report(verdict: Verdict, effects: seq<Effect>)

  /** The host's short name: the longest dot-free prefix of the hostname,
      which is the whole hostname when it has no dot. */
  function ShortName(hostname: string): (short: string)
    ensures short <= hostname
    ensures '.' !in short
    ensures '.' in hostname ==> |short| < |hostname| && hostname[|short|] == '.'
    ensures '.' !in hostname ==> short == hostname
  {
    var p := Partition(hostname, '.');
    assert hostname == p.head + (p.sep + p.tail);
    p.head
  }

  /** The Redis key of this host's scheduler marker; it splits on its dots
      into exactly the fixed prefix and the short name. */
  function SchedulerKey(hostname: string): (key: string)
    ensures Split(key, '.') == [SchedulerKeyPrefix, ShortName(hostname)]
  {
    var short := ShortName(hostname);
    var key := SchedulerKeyPrefix + "." + short;
    assert '.' !in SchedulerKeyPrefix;
    assert Join([SchedulerKeyPrefix, short], '.') == key;
    SplitJoin([SchedulerKeyPrefix, short], '.');
    key
  }

  /** The marker exists, parses, and is at most 15 seconds old. */
  predicate SchedulerRunning(m: Marker) {
    m.Stamped? && m.ageMicros <= StaleAfterMicros
  }

  /** The worker runs on this host: the first dot-separated field of its name is the short name. */
  predicate IsOwn(short: string, w: Worker) {
    Split(w.name, '.')[0] == short
  }

  /** `int(name.split('.')[1])`, or None where that raises. */
  function PidOf(name: string): Option<int> {
    var fields := Split(name, '.');
    if |fields| < 2 then None else ParseInt(fields[1])
  }

  /** A local worker whose name makes the check raise. */
  predicate Malformed(short: string, w: Worker) {
    IsOwn(short, w) && PidOf(w.name).None?
  }

  /** A local worker whose process exists and whose heartbeat has not expired. */
  predicate Contributes(short: string, w: Worker, alive: int -> bool, ttl: string -> int) {
    && IsOwn(short, w)
    && PidOf(w.name).Some?
    && alive(PidOf(w.name).value)
    && ttl(w.key) > 0
  }

  /** The indices, among the first `n`, of the elements satisfying `p`. */
  ghost function Indices<T>(xs: seq<T>, p: T -> bool, n: nat): set<nat>
    requires n <= |xs|
  {
    set i: nat | i < n && p(xs[i])
  }

  /** Looking at one more element adds its index exactly when it satisfies `p`. */
  lemma IndicesStep<T>(xs: seq<T>, p: T -> bool, n: nat)
    requires n < |xs|
    ensures |Indices(xs, p, n + 1)| == |Indices(xs, p, n)| + if p(xs[n]) then 1 else 0
  {
    var before := Indices(xs, p, n);
    if p(xs[n]) {
      assert Indices(xs, p, n + 1) == before + {n};
    } else {
      assert Indices(xs, p, n + 1) == before;
    }
  }

  /** Which of the first `n` elements satisfy `p` depends only on those `n`. */
  lemma IndicesOfPrefix<T>(xs: seq<T>, p: T -> bool, n: nat)
    requires n <= |xs|
    ensures Indices(xs[..n], p, n) == Indices(xs, p, n)
  {
    assert forall i :: 0 <= i < n ==> xs[..n][i] == xs[i];
  }

  /** The workers, among the first `n`, that the check counts. */
  ghost function Contributors(short: string, ws: seq<Worker>, alive: int -> bool, ttl: string -> int, n: nat): set<nat>
    requires n <= |ws|
  {
    Indices(ws, w => Contributes(short, w, alive, ttl), n)
  }

  /** An effect the loop body may cause for worker `w`: a probe of its own
      pid when it is local, and a read of its TTL when, besides, its process
      exists. */
  predicate CausedBy(short: string, w: Worker, alive: int -> bool, e: Effect) {
    match e
    case ReadMarker(_) => false
    case ProbeProcess(pid) => IsOwn(short, w) && PidOf(w.name) == Some(pid)
    case ReadTtl(key) =>
      IsOwn(short, w) && PidOf(w.name).Some? && alive(PidOf(w.name).value) && w.key == key
  }

  /** An effect of the worker loop that some listed worker accounts for. */
  ghost predicate Justified(short: string, ws: seq<Worker>, alive: int -> bool, e: Effect) {
    exists i :: 0 <= i < |ws| && CausedBy(short, ws[i], alive, e)
  }

  /** State of the worker loop: the count so far, or the exception raised. */
  datatype Scan = Counted(count: nat, effects: seq<Effect>) | Raised(name: string, effects: seq<Effect>)

  /** One iteration of the worker loop, from a state that has not raised:
      it raises exactly on a malformed local worker, adds one to the count
      exactly for a contributing worker, and only appends effects that
      worker causes, among them every probe `health_check` makes for it. */
  function Visit(short: string, w: Worker, alive: int -> bool, ttl: string -> int, count: nat, effects: seq<Effect>): (r: Scan)
    ensures r.Raised? <==> Malformed(short, w)
    ensures r.Raised? ==> r.name == w.name && r.effects == effects
    ensures r.Counted? ==> r.count == if Contributes(short, w, alive, ttl) then count + 1 else count
  {
    var fields := Split(w.name, '.');
    if fields[0] != short then Counted(count, effects)
    else if |fields| < 2 then Raised(w.name, effects)
    else
      match ParseInt(fields[1])
      case None => Raised(w.name, effects)
      case Some(pid) =>
        if !alive(pid) then Counted(count, effects + [ProbeProcess(pid)])
        else
          var seen := effects + [ProbeProcess(pid), ReadTtl(w.key)];
          if ttl(w.key) > 0 then Counted(count + 1, seen) else Counted(count, seen)
  }

  /** The effects one iteration appends are caused by its worker, and
      include every probe `health_check` makes for a local worker. */
  lemma VisitEffects(short: string, w: Worker, alive: int -> bool, ttl: string -> int, count: nat, effects: seq<Effect>)
    ensures var r := Visit(short, w, alive, ttl, count, effects);
      r.Counted? ==>
        && effects <= r.effects
        && (forall k :: |effects| <= k < |r.effects| ==> CausedBy(short, w, alive, r.effects[k]))
        && (IsOwn(short, w) ==>
              && ProbeProcess(PidOf(w.name).value) in r.effects
              && (alive(PidOf(w.name).value) ==> ReadTtl(w.key) in r.effects))
  {
  }

  /** The worker loop over `ws`, in order: it completes exactly when no
      local worker is malformed, and otherwise raises on the first malformed
      one. */
  function ScanWorkers(short: string, ws: seq<Worker>, alive: int -> bool, ttl: string -> int): (r: Scan)
    ensures r.Counted? <==> forall i :: 0 <= i < |ws| ==> !Malformed(short, ws[i])
    ensures r.Raised? ==>
      exists i :: 0 <= i < |ws| && ws[i].name == r.name && Malformed(short, ws[i])
        && forall j :: 0 <= j < i ==> !Malformed(short, ws[j])
    decreases |ws|
  {
    if ws == [] then Counted(0, [])
    else
      var n := |ws| - 1;
      var prev := ScanWorkers(short, ws[..n], alive, ttl);
      if prev.Raised? then prev
      else Visit(short, ws[n], alive, ttl, prev.count, prev.effects)
  }

  /** Every effect of the loop is caused by a listed worker: workers on other
      hosts are never probed, and only live local workers have their TTL read. */
  lemma {:induction false} ScanEffectsJustified(short: string, ws: seq<Worker>, alive: int -> bool, ttl: string -> int)
    ensures forall k :: 0 <= k < |ScanWorkers(short, ws, alive, ttl).effects| ==>
      Justified(short, ws, alive, ScanWorkers(short, ws, alive, ttl).effects[k])
    decreases |ws|
  {
    if ws != [] {
      var n := |ws| - 1;
      var prev := ScanWorkers(short, ws[..n], alive, ttl);
      ScanEffectsJustified(short, ws[..n], alive, ttl);
      assert forall k :: 0 <= k < |prev.effects| ==> Justified(short, ws[..n], alive, prev.effects[k]);
      var r := ScanWorkers(short, ws, alive, ttl);
      if prev.Counted? {
        VisitEffects(short, ws[n], alive, ttl, prev.count, prev.effects);
      }
      forall k | 0 <= k < |r.effects|
        ensures Justified(short, ws, alive, r.effects[k])
      {
        if k < |prev.effects| {
          assert r.effects[k] == prev.effects[k];
          assert Justified(short, ws[..n], alive, prev.effects[k]);
          var i :| 0 <= i < n && CausedBy(short, ws[..n][i], alive, prev.effects[k]);
          assert CausedBy(short, ws[i], alive, r.effects[k]);
        } else {
          assert CausedBy(short, ws[n], alive, r.effects[k]);
        }
      }
    }
  }

  /** A loop that completes has probed every local worker's process and read
      the TTL of every local worker whose process exists. */
  lemma {:induction false} ScanProbesEveryLocalWorker(short: string, ws: seq<Worker>, alive: int -> bool, ttl: string -> int)
    ensures var r := ScanWorkers(short, ws, alive, ttl);
      r.Counted? ==> forall i :: 0 <= i < |ws| && IsOwn(short, ws[i]) ==>
        && ProbeProcess(PidOf(ws[i].name).value) in r.effects
        && (alive(PidOf(ws[i].name).value) ==> ReadTtl(ws[i].key) in r.effects)
    decreases |ws|
  {
    if ws != [] {
      var n := |ws| - 1;
      var prev := ScanWorkers(short, ws[..n], alive, ttl);
      ScanProbesEveryLocalWorker(short, ws[..n], alive, ttl);
      if prev.Counted? {
        VisitEffects(short, ws[n], alive, ttl, prev.count, prev.effects);
        var r := ScanWorkers(short, ws, alive, ttl);
        if r.Counted? {
          forall i | 0 <= i < |ws| && IsOwn(short, ws[i])
            ensures ProbeProcess(PidOf(ws[i].name).value) in r.effects
            ensures alive(PidOf(ws[i].name).value) ==> ReadTtl(ws[i].key) in r.effects
          {
            if i < n {
              assert ws[..n][i] == ws[i];
              assert !Malformed(short, ws[i]);
            }
          }
        }
      }
    }
  }

  /** When the loop completes, its count is exactly the number of contributing workers. */
  lemma {:induction false} ScanCountsContributors(short: string, ws: seq<Worker>, alive: int -> bool, ttl: string -> int)
    ensures ScanWorkers(short, ws, alive, ttl).Counted? ==>
      ScanWorkers(short, ws, alive, ttl).count == |Contributors(short, ws, alive, ttl, |ws|)|
    decreases |ws|
  {
    if ws != [] {
      var n := |ws| - 1;
      ScanCountsContributors(short, ws[..n], alive, ttl);
      IndicesOfPrefix(ws, w => Contributes(short, w, alive, ttl), n);
      IndicesStep(ws, w => Contributes(short, w, alive, ttl), n);
    }
  }

  /** `health_check`. The scheduler marker is read first, and a missing,
      unparsable or stale marker (older than 15 seconds; exactly 15 passes)
      ends the check there, before any worker is looked at. */
  function HealthCheck(hostname: string, marker: string -> Marker, ws: seq<Worker>, alive: int -> bool, ttl: string -> int): (r: Report)
    ensures |r.effects| >= 1 && r.effects[0] == ReadMarker(SchedulerKey(hostname))
    ensures r.verdict == SchedulerNotRunning <==>
      || marker(SchedulerKey(hostname)).Absent?
      || (marker(SchedulerKey(hostname)).Stamped? && marker(SchedulerKey(hostname)).ageMicros > StaleAfterMicros)
    ensures r.verdict == MalformedSchedulerMarker <==> marker(SchedulerKey(hostname)).Unparsable?
    ensures !SchedulerRunning(marker(SchedulerKey(hostname))) ==> r.effects == [ReadMarker(SchedulerKey(hostname))]
  {
    var short := ShortName(hostname);
    var key := SchedulerKey(hostname);
    var read := [ReadMarker(key)];
    match marker(key)
    case Absent => Report(SchedulerNotRunning, read)
    case Unparsable => Report(MalformedSchedulerMarker, read)
    case Stamped(age) =>
      if age > StaleAfterMicros then Report(SchedulerNotRunning, read)
      else
        match ScanWorkers(short, ws, alive, ttl)
        case Raised(name, effects) => Report(MalformedWorkerName(name), read + effects)
        case Counted(count, effects) => Report(if count <= 0 then NoWorkers else Healthy, read + effects)
  }

  /** No local worker name makes the check raise. */
  ghost predicate NamesWellFormed(short: string, ws: seq<Worker>) {
    forall i :: 0 <= i < |ws| ==> !Malformed(short, ws[i])
  }

  /** Some worker is counted by the loop. */
  ghost predicate SomeContributor(short: string, ws: seq<Worker>, alive: int -> bool, ttl: string -> int) {
    exists i :: 0 <= i < |ws| && Contributes(short, ws[i], alive, ttl)
  }

  /** A completed loop counts some worker exactly when some worker contributes. */
  lemma {:induction false} ScanCountPositive(short: string, ws: seq<Worker>, alive: int -> bool, ttl: string -> int)
    requires ScanWorkers(short, ws, alive, ttl).Counted?
    ensures ScanWorkers(short, ws, alive, ttl).count > 0 <==> SomeContributor(short, ws, alive, ttl)
  {
    ScanCountsContributors(short, ws, alive, ttl);
    var counted := Contributors(short, ws, alive, ttl, |ws|);
    if ScanWorkers(short, ws, alive, ttl).count > 0 {
      var i :| i in counted;
      assert Contributes(short, ws[i], alive, ttl);
    }
    if i :| 0 <= i < |ws| && Contributes(short, ws[i], alive, ttl) {
      assert i in counted;
    }
  }

  /** The check answers "It's working" exactly when the scheduler marker is
      fresh, no local worker name is malformed, and at least one local worker
      has a live process and an unexpired heartbeat. */
  lemma HealthyIff(hostname: string, marker: string -> Marker, ws: seq<Worker>, alive: int -> bool, ttl: string -> int)
    ensures HealthCheck(hostname, marker, ws, alive, ttl).verdict == Healthy <==>
      && SchedulerRunning(marker(SchedulerKey(hostname)))
      && NamesWellFormed(ShortName(hostname), ws)
      && SomeContributor(ShortName(hostname), ws, alive, ttl)
  {
    var short := ShortName(hostname);
    if SchedulerRunning(marker(SchedulerKey(hostname))) && NamesWellFormed(short, ws) {
      ScanCountPositive(short, ws, alive, ttl);
    }
  }

  /** The check answers "No workers are running" exactly when the scheduler
      marker is fresh, no local worker name is malformed, and no worker
      contributes; in particular when every heartbeat has expired. */
  lemma NoWorkersIff(hostname: string, marker: string -> Marker, ws: seq<Worker>, alive: int -> bool, ttl: string -> int)
    ensures HealthCheck(hostname, marker, ws, alive, ttl).verdict == NoWorkers <==>
      && SchedulerRunning(marker(SchedulerKey(hostname)))
      && NamesWellFormed(ShortName(hostname), ws)
      && !SomeContributor(ShortName(hostname), ws, alive, ttl)
  {
    var short := ShortName(hostname);
    if SchedulerRunning(marker(SchedulerKey(hostname))) && NamesWellFormed(short, ws) {
      ScanCountPositive(short, ws, alive, ttl);
    }
  }

  /** The check raises on a worker name only after a fresh scheduler marker,
      and then on the first local worker whose name has no numeric pid field. */
  lemma MalformedNameIsFirst(hostname: string, marker: string -> Marker, ws: seq<Worker>, alive: int -> bool, ttl: string -> int)
    ensures var v := HealthCheck(hostname, marker, ws, alive, ttl).verdict;
      v.MalformedWorkerName? <==> SchedulerRunning(marker(SchedulerKey(hostname))) && !NamesWellFormed(ShortName(hostname), ws)
    ensures var v := HealthCheck(hostname, marker, ws, alive, ttl).verdict;
      v.MalformedWorkerName? ==>
        exists i :: 0 <= i < |ws| && ws[i].name == v.name && Malformed(ShortName(hostname), ws[i])
          && forall j :: 0 <= j < i ==> !Malformed(ShortName(hostname), ws[j])
  {
  }

  /** Everything the check does after reading the marker is caused by a
      listed local worker: workers on other hosts are never probed. */
  lemma OnlyLocalWorkersProbed(hostname: string, marker: string -> Marker, ws: seq<Worker>, alive: int -> bool, ttl: string -> int)
    ensures var r := HealthCheck(hostname, marker, ws, alive, ttl);
      forall k :: 1 <= k < |r.effects| ==> Justified(ShortName(hostname), ws, alive, r.effects[k])
  {
    var short := ShortName(hostname);
    var r := HealthCheck(hostname, marker, ws, alive, ttl);
    if SchedulerRunning(marker(SchedulerKey(hostname))) {
      var scan := ScanWorkers(short, ws, alive, ttl);
      ScanEffectsJustified(short, ws, alive, ttl);
      assert r.effects == [ReadMarker(SchedulerKey(hostname))] + scan.effects;
      forall k | 1 <= k < |r.effects|
        ensures Justified(short, ws, alive, r.effects[k])
      {
        assert r.effects[k] == scan.effects[k - 1];
      }
    }
  }

  /** When the check gets to a verdict on the workers, it has probed every
      local worker's process and read the heartbeat TTL of each one whose
      process exists. */
  lemma EveryLocalWorkerProbed(hostname: string, marker: string -> Marker, ws: seq<Worker>, alive: int -> bool, ttl: string -> int)
    ensures var r := HealthCheck(hostname, marker, ws, alive, ttl);
      r.verdict == Healthy || r.verdict == NoWorkers ==>
        forall i :: 0 <= i < |ws| && IsOwn(ShortName(hostname), ws[i]) ==>
          && ProbeProcess(PidOf(ws[i].name).value) in r.effects
          && (alive(PidOf(ws[i].name).value) ==> ReadTtl(ws[i].key) in r.effects)
  {
    var short := ShortName(hostname);
    if SchedulerRunning(marker(SchedulerKey(hostname))) {
      ScanProbesEveryLocalWorker(short, ws, alive, ttl);
    }
  }

  /** rq names a worker `<shortname>.<pid>`; such a name is recognised as
      local to its host and yields back its pid. */
  lemma DefaultWorkerName(hostname: string, pid: nat, key: string, queues: seq<string>)
    ensures var w := Worker(ShortName(hostname) + "." + ShowNat(pid), key, queues);
      IsOwn(ShortName(hostname), w) && PidOf(w.name) == Some(pid as int)
  {
    var short := ShortName(hostname);
    var digits := ShowNat(pid);
    assert '.' !in digits;
    assert Join([short, digits], '.') == short + "." + digits;
    SplitJoin([short, digits], '.');
    ParseShowInt(pid);
  }

  /** A fresh marker and one rq-named local worker whose process exists and
      whose heartbeat is unexpired: the check answers "It's working". */
  lemma OneLiveWorkerIsHealthy(hostname: string, marker: string -> Marker, pid: nat, key: string, queues: seq<string>, alive: int -> bool, ttl: string -> int)
    requires SchedulerRunning(marker(SchedulerKey(hostname)))
    requires alive(pid) && ttl(key) > 0
    ensures HealthCheck(hostname, marker, [Worker(ShortName(hostname) + "." + ShowNat(pid), key, queues)], alive, ttl).verdict == Healthy
  {
    var w := Worker(ShortName(hostname) + "." + ShowNat(pid), key, queues);
    DefaultWorkerName(hostname, pid, key, queues);
    HealthyIff(hostname, marker, [w], alive, ttl);
    assert Contributes(ShortName(hostname), [w][0], alive, ttl);
  }

  /** Listing more workers never turns "It's working" into a 503, and it
      stays "It's working" unless an added local worker has a malformed name. */
  lemma AppendingWorkersKeepsHealthy(hostname: string, marker: string -> Marker, ws: seq<Worker>, more: seq<Worker>, alive: int -> bool, ttl: string -> int)
    requires HealthCheck(hostname, marker, ws, alive, ttl).verdict == Healthy
    ensures var v := HealthCheck(hostname, marker, ws + more, alive, ttl).verdict;
      v == Healthy || v.MalformedWorkerName?
    ensures NamesWellFormed(ShortName(hostname), more) ==>
      HealthCheck(hostname, marker, ws + more, alive, ttl).verdict == Healthy
  {
    var short := ShortName(hostname);
    HealthyIff(hostname, marker, ws, alive, ttl);
    HealthyIff(hostname, marker, ws + more, alive, ttl);
    NoWorkersIff(hostname, marker, ws + more, alive, ttl);
    MalformedNameIsFirst(hostname, marker, ws + more, alive, ttl);
    var i :| 0 <= i < |ws| && Contributes(short, ws[i], alive, ttl);
    assert (ws + more)[i] == ws[i];
    if NamesWellFormed(short, more) {
      forall j | 0 <= j < |ws + more|
        ensures !Malformed(short, (ws + more)[j])
      {
        if j < |ws| {
          assert (ws + more)[j] == ws[j];
        } else {
          assert (ws + more)[j] == more[j - |ws|];
        }
      }
    }
  }

  /** On host `h`, `h.1` is a well-formed local worker name and `h` is a malformed one. */
  lemma ExampleNames()
    ensures ShortName("h") == "h" && SchedulerKey("h") == "scheduler_last_run.h"
    ensures ShortName("h") + "." + ShowNat(1) == "h.1"
    ensures IsOwn("h", Worker("h.1", "k1", [])) && PidOf("h.1") == Some(1)
    ensures Malformed("h", Worker("h", "k2", []))
  {
    assert ShowNat(1) == "1";
    DefaultWorkerName("h", 1, "k1", []);
    assert Split("h", '.') == ["h"];
  }

  /** On host `h` with a fresh marker, the live worker `h.1` alone makes the check healthy. */
  lemma ExampleHealthy(marker: string -> Marker, alive: int -> bool, ttl: string -> int)
    requires SchedulerRunning(marker("scheduler_last_run.h"))
    requires alive(1) && ttl("k1") > 0
    ensures HealthCheck("h", marker, [Worker("h.1", "k1", [])], alive, ttl).verdict == Healthy
  {
    ExampleNames();
    assert SchedulerRunning(marker(SchedulerKey("h")));
    OneLiveWorkerIsHealthy("h", marker, 1, "k1", [], alive, ttl);
  }

  /** On host `h` with a fresh marker, listing a worker named `h` after `h.1` makes the check raise on it. */
  lemma ExampleRaises(marker: string -> Marker, alive: int -> bool, ttl: string -> int)
    requires SchedulerRunning(marker("scheduler_last_run.h"))
    ensures HealthCheck("h", marker, [Worker("h.1", "k1", []), Worker("h", "k2", [])], alive, ttl).verdict
      == MalformedWorkerName("h")
  {
    ExampleNames();
    assert SchedulerRunning(marker(SchedulerKey("h")));
    var both := [Worker("h.1", "k1", []), Worker("h", "k2", [])];
    assert !NamesWellFormed("h", both) by {
      assert Malformed("h", both[1]);
    }
    MalformedNameIsFirst("h", marker, both, alive, ttl);
    var v := HealthCheck("h", marker, both, alive, ttl).verdict;
    var i :| 0 <= i < |both| && both[i].name == v.name && Malformed("h", both[i]);
    assert i != 0 by {
      assert !Malformed("h", both[0]);
    }
  }

  /** The "appending never hurts" reading fails for names: adding a local
      worker whose name has no pid field makes a healthy host's check raise. */
  lemma AppendingMalformedNameRaises(marker: string -> Marker, alive: int -> bool, ttl: string -> int)
    requires SchedulerRunning(marker("scheduler_last_run.h"))
    requires alive(1) && ttl("k1") > 0
    ensures HealthCheck("h", marker, [Worker("h.1", "k1", [])], alive, ttl).verdict == Healthy
    ensures HealthCheck("h", marker, [Worker("h.1", "k1", []), Worker("h", "k2", [])], alive, ttl).verdict
      == MalformedWorkerName("h")
  {
    ExampleHealthy(marker, alive, ttl);
    ExampleRaises(marker, alive, ttl);
  }
}
