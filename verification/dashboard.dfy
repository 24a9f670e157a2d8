/** The queue overview of the dashboard's index page, and the queue lookup
    the queue pages use. */
module Dashboard {

  import opened Optional
  import opened Records

  /** rq's sink for jobs that raised; it is shown apart, not in the table. */
  const FailedQueueName: string := "failed"

  /** A row of the queue table: how many workers serve the queue, and the queue. */
  datatype Row = Row(workers: nat, queue: Queue)

  /** The names of the listed queues. */
  function QueueNames(queues: seq<Queue>): set<string> {
    set q | q in queues :: q.name
  }

  /** `q` is the last listed queue named `name`. */
  ghost predicate LastNamed(queues: seq<Queue>, name: string, q: Queue) {
    exists i :: 0 <= i < |queues| && queues[i] == q && q.name == name
      && forall j :: i < j < |queues| ==> queues[j].name != name
  }

  /** The queue name of every (worker, served queue) pair, workers in order. */
  ghost function Served(workers: seq<Worker>): seq<string>
    decreases |workers|
  {
    if workers == [] then []
    else Served(workers[..|workers| - 1]) + workers[|workers| - 1].queues
  }

  /** The table `index` starts from: one row per listed queue name except
      "failed", holding the last listed queue of that name, with no workers yet. */
  method QueueTable(queues: seq<Queue>) returns (rows: map<string, Row>)
    ensures rows.Keys == QueueNames(queues) - {FailedQueueName}
    ensures forall name :: name in rows ==> LastNamed(queues, name, rows[name].queue)
    ensures forall name :: name in rows ==> rows[name].workers == 0
  {
    rows := map[];
    var i := 0;
    while i < |queues|
      invariant 0 <= i <= |queues|
      invariant rows.Keys == QueueNames(queues[..i])
      invariant forall name :: name in rows ==> rows[name].workers == 0 && LastNamed(queues[..i], name, rows[name].queue)
    {
      var q := queues[i];
      assert queues[..i + 1] == queues[..i] + [q];
      forall name | name in rows && name != q.name
        ensures LastNamed(queues[..i + 1], name, rows[name].queue)
      {
        var k :| 0 <= k < i && queues[..i][k] == rows[name].queue && rows[name].queue.name == name
          && forall j :: k < j < i ==> queues[..i][j].name != name;
        assert queues[..i + 1][k] == rows[name].queue;
      }
      assert LastNamed(queues[..i + 1], q.name, q) by {
        assert queues[..i + 1][i] == q;
      }
      rows := rows[q.name := Row(0, q)];
      i := i + 1;
    }
    assert queues[..i] == queues;
    rows := rows - {FailedQueueName};
  }

  /** The inner loop of `index` for one worker: every queue it serves that
      has a row gains one count per occurrence; nothing else changes. */
  method CountServed(rows: map<string, Row>, served: seq<string>) returns (counted: map<string, Row>)
    ensures counted.Keys == rows.Keys
    ensures forall name :: name in rows ==> counted[name].queue == rows[name].queue
    ensures forall name :: name in rows ==> counted[name].workers == rows[name].workers + multiset(served)[name]
  {
    counted := rows;
    var j := 0;
    while j < |served|
      invariant 0 <= j <= |served|
      invariant counted.Keys == rows.Keys
      invariant forall name :: name in rows ==> counted[name].queue == rows[name].queue
      invariant forall name :: name in rows ==> counted[name].workers == rows[name].workers + multiset(served[..j])[name]
    {
      assert served[..j + 1] == served[..j] + [served[j]];
      if served[j] in counted {
        var row := counted[served[j]];
        counted := counted[served[j] := row.(workers := row.workers + 1)];
      }
      j := j + 1;
    }
    assert served[..j] == served;
  }

  /** The queue table of `index`: one row per listed queue name except
      "failed", holding the last listed queue of that name and counting the
      (worker, served queue) pairs that name it; served queues that are not
      listed are ignored. */
  method CountQueueWorkers(queues: seq<Queue>, workers: seq<Worker>) returns (rows: map<string, Row>)
    ensures rows.Keys == QueueNames(queues) - {FailedQueueName}
    ensures forall name :: name in rows ==> LastNamed(queues, name, rows[name].queue)
    ensures forall name :: name in rows ==> rows[name].workers == multiset(Served(workers))[name]
  {
    var table := QueueTable(queues);
    rows := table;
    var k := 0;
    while k < |workers|
      invariant 0 <= k <= |workers|
      invariant rows.Keys == table.Keys
      invariant forall name :: name in rows ==> rows[name].queue == table[name].queue
      invariant forall name :: name in rows ==> rows[name].workers == multiset(Served(workers[..k]))[name]
    {
      ServedStep(workers, k);
      rows := CountServed(rows, workers[k].queues);
      k := k + 1;
    }
    assert workers[..k] == workers;
  }

  /** One more worker adds its served queues at the end of the pairs. */
  lemma ServedStep(workers: seq<Worker>, k: nat)
    requires k < |workers|
    ensures Served(workers[..k + 1]) == Served(workers[..k]) + workers[k].queues
  {
    assert workers[..k + 1][..k] == workers[..k];
  }

  /** `get_queue_by_name`: the first listed queue with that name, or None
      exactly when no listed queue has it. */
  method GetQueueByName(queues: seq<Queue>, name: string) returns (r: Option<Queue>)
    ensures r.None? <==> forall i :: 0 <= i < |queues| ==> queues[i].name != name
    ensures r.Some? ==>
      exists i :: 0 <= i < |queues| && queues[i] == r.value && r.value.name == name
        && forall j :: 0 <= j < i ==> queues[j].name != name
  {
    r := None;
    var i := 0;
    while i < |queues|
      invariant 0 <= i <= |queues|
      invariant forall j :: 0 <= j < i ==> queues[j].name != name
    {
      if queues[i].name == name {
        r := Some(queues[i]);
        break;
      }
      i := i + 1;
    }
  }
}
