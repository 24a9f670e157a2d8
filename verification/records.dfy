/** The records the dashboard reads from Redis through the rq library. */
module Records {

  /** An rq worker: its name (`<shortname>.<pid>` when rq chose it), the Redis
      key holding its heartbeat, and the names of the queues it serves. */
  datatype Worker = Worker(name: string, key: string, queues: seq<string>)

  /** An rq queue: its name and the number of jobs waiting in it. Only the
      name is read by the logic modelled here; the count is what the index
      template shows, and it tells apart two listed queues of the same name. */
  datatype Queue = Queue(name: string, pending: nat)

}
