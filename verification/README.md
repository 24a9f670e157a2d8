# rq-mantis health check and queue overview, in Dafny

rq-mantis is a small Flask dashboard for the rq job queue. Apart from HTTP
plumbing, its logic lives in `rq_mantis/app.py`, and three pieces of it are
modelled here as pure Dafny over plain values:

- **`health_check`** (the `/__ht/` route). It derives the host's short name
  and reads the Redis key `scheduler_last_run.<shortname>`. It fails with
  "Scheduler not running" when that key is missing or more than 15 seconds
  old. Otherwise it counts the workers that run on this host, whose process
  exists and whose heartbeat TTL is positive. It fails with "No workers are
  running" when that count is zero, and answers "It's working" otherwise.
- **The queue table of `index`**. It maps each listed queue name except
  `failed` to its queue and to the number of (worker, served queue) pairs
  that name it.
- **`get_queue_by_name`**. It does a first-match linear search.

Layout:

- `optional.dfy`: `Optional.Option`, which stands for Python's `None`-or-value.
- `text.dfy`: the Python string primitives the check relies on. These are
  `str.partition` and `str.split` with a one-character separator, their
  inverse `join`, and `int()` on a decimal literal with its inverse `str()`.
- `records.dfy`: the `Worker` and `Queue` records read from Redis.
- `health.dfy`: the health check.
- `dashboard.dfy`: the queue table and the queue lookup.

Redis, the clock and the operating system are passed in as capabilities. Each
one is a total function chosen by the caller:

- `marker(key)` is what `GET key` yields. It is already turned into
  `Absent`, `Unparsable`, or `Stamped(age)`, where `age` is `now - timestamp`
  in whole microseconds. So `total_seconds() > 15` becomes
  `age > 15_000_000`, and an age of exactly 15 s passes.
- `alive(pid)` holds when `os.kill(pid, 0)` raises no `OSError`.
- `ttl(key)` is the heartbeat TTL Redis reports.

The check's verdict is a `Verdict`. Besides the two 503 reasons and the 200
answer, it has the two exceptions the route does not catch:
`MalformedSchedulerMarker`, for a value `strptime` rejects, and
`MalformedWorkerName`, for a local worker name without a second dot field or
with a non-numeric one. `health_check` catches only `OSError`, so an
`IndexError` or `ValueError` from the name escapes the loop.

Every marker read, TTL read and pid probe is also returned, in order, as an
`Effect` trace (the Redis reads inside `rq.Worker.all()` are not traced). This
lets the model state what the check does *not* touch. When the scheduler
check fails, the trace is only the marker read. Workers on other hosts are
never probed.

Behaviour of `rq_mantis/app.py` worth knowing, all of which the model keeps:

- A missing scheduler key fails the check with "Scheduler not running".
- A dead process or an expired heartbeat only means that worker is not
  counted.
- Queue coverage plays no part in the health check.
- A malformed local worker name escapes as an uncaught exception, which is
  the `MalformedWorkerName` verdict here.
- The queue table counts every (worker, served queue) pair, whatever the
  worker's heartbeat.

## Model

| member | source | states |
|---|---|---|
| Text.Partition | rq_mantis/app.py:38 | `hostname.partition('.')`: head + separator + tail rebuild the input, the head has no dot, and the separator is empty exactly when there is no dot (then the head is everything) |
| Text.SplitFieldCount | rq_mantis/app.py:51-55 | `name.split('.')` has one field more than the name has dots |
| Text.SplitFieldsFree | rq_mantis/app.py:51-55 | no field of `name.split('.')` contains a dot |
| Text.JoinSplit | rq_mantis/app.py:51-55 | joining the fields of `split('.')` with dots gives back the name |
| Text.SplitJoin | rq_mantis/app.py:51-55 | splitting dot-free fields joined by dots gives back exactly those fields |
| Text.SecondFieldExists | rq_mantis/app.py:55 | `split('.')[1]` exists (no `IndexError`) exactly when the name contains a dot |
| Text.FirstFieldIsPartitionHead | rq_mantis/app.py:38-51 | the worker's first dot field and the hostname's partition head are the same notion: `split('.')[0]` equals `partition('.')[0]` |
| Text.ParseInt | rq_mantis/app.py:55 | `int()` succeeds exactly on an optionally signed run of decimal digits, and the value carries the literal's sign |
| Text.ParseLeadingZero | rq_mantis/app.py:55 | a leading zero does not change the value `int()` gives a run of digits |
| Text.ParseSigned | rq_mantis/app.py:55 | a `+` sign keeps the value of a run of digits and a `-` sign negates it; with `Text.ParseLeadingZero` and `Text.ParseShowInt` this fixes the value of every accepted literal |
| Text.ParseShowInt | rq_mantis/app.py:55 | `int(str(n)) == n` for every integer |
| Health.ShortName | rq_mantis/app.py:37-38 | the short name is the longest dot-free prefix of the hostname: the text before the first dot, or the whole hostname when there is none |
| Health.SchedulerKey | rq_mantis/app.py:39 | the scheduler key splits on its dots into exactly `scheduler_last_run` and the short name |
| Health.HealthCheck | rq_mantis/app.py:40-47 | the marker read comes first; the verdict is "Scheduler not running" exactly when the key is absent or older than 15 s (15 s exactly passes); an unparsable marker raises; when the scheduler check fails, nothing but the marker read happens, so no pid is probed and no TTL is read |
| Health.Visit | rq_mantis/app.py:50-60 | one loop iteration raises exactly on a malformed local name, and adds one to the count exactly for a local worker with a live process and a positive TTL |
| Health.ScanWorkers | rq_mantis/app.py:49-57 | the worker loop completes exactly when no local worker name is malformed, and otherwise raises on the first malformed one |
| Health.ScanCountsContributors | rq_mantis/app.py:49-60 | a completed loop's count equals the number of workers that are local, have a live pid and have a positive TTL |
| Health.ScanEffectsJustified | rq_mantis/app.py:49-59 | every probe in the loop is of a local worker's own pid, and every TTL read is of a local worker whose process exists |
| Health.ScanProbesEveryLocalWorker | rq_mantis/app.py:49-59 | a completed loop has probed every local worker's pid and read the TTL of every one whose process exists |
| Health.ScanCountPositive | rq_mantis/app.py:59-62 | a completed loop's count is positive exactly when some worker contributes |
| Health.HealthyIff | rq_mantis/app.py:62-65 | "It's working" exactly when the marker is fresh, no local name is malformed, and at least one local worker has a live process and a positive TTL |
| Health.NoWorkersIff | rq_mantis/app.py:62-64 | "No workers are running" exactly when the marker is fresh, no local name is malformed, and no worker contributes; this covers every heartbeat having expired |
| Health.MalformedNameIsFirst | rq_mantis/app.py:54-57 | the check raises on a worker name exactly when the marker is fresh and some local name is malformed, and then it names the first such worker |
| Health.OnlyLocalWorkersProbed | rq_mantis/app.py:49-57 | after the marker read, every effect of the check is caused by a listed local worker, so workers on other hosts are never probed |
| Health.EveryLocalWorkerProbed | rq_mantis/app.py:49-60 | when the verdict is about the workers, every local worker's pid has been probed and every live one's TTL has been read |
| Health.DefaultWorkerName | rq_mantis/app.py:38-55 | a worker named `<shortname>.<pid>`, the form rq gives its workers, is recognised as local and yields back its pid |
| Health.OneLiveWorkerIsHealthy | rq_mantis/app.py:34-65 | with a fresh marker, one such worker whose process exists and whose TTL is positive makes the check answer "It's working" |
| Health.AppendingWorkersKeepsHealthy | rq_mantis/app.py:49-65 | listing more workers never turns "It's working" into a 503, and it stays "It's working" unless an added local worker's name is malformed |
| Health.AppendingMalformedNameRaises | rq_mantis/app.py:51-57 | on host `h`, a healthy list `[h.1]` extended with a worker named `h` makes the check raise on `h` |
| Dashboard.QueueTable | rq_mantis/app.py:73-78 | the table's keys are the listed queue names minus "failed", each row holds the last listed queue of that name, and every count starts at 0 |
| Dashboard.CountServed | rq_mantis/app.py:85-87 | one worker's pass adds to each existing row the number of times the worker serves that queue; it adds no keys and leaves the queues alone |
| Dashboard.CountQueueWorkers | rq_mantis/app.py:73-87 | the keys are exactly the listed names minus "failed"; each count is the number of (worker, served queue) pairs naming that queue, 0 if none; served queues that are not listed are ignored |
| Dashboard.GetQueueByName | rq_mantis/app.py:92-100 | a returned queue has the requested name and is the first listed queue with it; None is returned exactly when no listed queue has the name |

## Left out

- Flask routing, templates, redirects and the confirm-form routes (`rq_mantis/app.py:68-70`, `89`, `103-160`). These are presentation.
- The Redis connection hooks (`rq_mantis/app.py:18-31`). Redis reads are the `marker` and `ttl` capabilities.
- The rq library calls (`Worker.all`, `Queue.all`, `get_failed_queue`, `requeue_job`, `cancel_job`, `empty`, `remove`). This foreign code is not part of this model. The worker and queue lists are inputs.
- `os.kill`. It is the uninterpreted `alive` capability. So is the unused `process_exists` in `rq_mantis/utils.py`. An `OverflowError` that `os.kill` raises for a pid outside the C range is not modelled.
- `datetime.strptime`, `datetime.now()` and the float `total_seconds()`. These are clock and float concerns. The marker arrives as `Unparsable` or as an integer age in microseconds.
- Redis read errors. A connection or timeout error from `redis_conn.get` (`rq_mantis/app.py:40`) or `redis_conn.ttl` (`rq_mantis/app.py:59`) escapes the route as an uncaught exception; `marker` and `ttl` are total functions, so the model has no verdict for it.
- Redis returning `None` for a missing TTL. `None > 0` is false in Python 2, so this is any non-positive `ttl` value.
- `rq_mantis/cmd.py`, `rq_mantis/settings.py` and `setup.py`. They are configuration and packaging.
- Text.ParseInt: the whitespace around the digits that Python's `int()` tolerates is not accepted, and neither are non-ASCII digits. rq's own worker names contain neither.
