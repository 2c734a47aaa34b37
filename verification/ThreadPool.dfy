/** The worker threads and their job queues. */
module ThreadPool {
  import opened Bytes

  type Bev = nat    // a bufferevent pointer
  type Conn = nat   // a BUS_ADDRESS pointer; one is allocated per accepted connection and never freed

  datatype Job =
    | AcceptJob(conn: Conn, bev: Bev)
    | ReadJob(conn: Conn, bev: Bev, data: seq<byte>)
    | CloseJob(conn: Conn)

  /** The queues after a job was given to the pool with this index. */
  function Enqueue(queues: seq<seq<Job>>, index: nat, job: Job): (r: seq<seq<Job>>)
    requires queues != []
    ensures |r| == |queues|
  {
    var w := index % |queues|;
    queues[w := queues[w] + [job]]
  }

  /** The job goes to the end of the queue numbered index modulo the pool's size, and to no other. */
  lemma EnqueueExactly(queues: seq<seq<Job>>, index: nat, job: Job, w: nat)
    requires w < |queues|
    ensures Enqueue(queues, index, job)[w] == queues[w] + if w == index % |queues| then [job] else []
  {
  }

  class Worker {
    var jobList: seq<Job>

    constructor ()
      ensures jobList == []
    {
      jobList := [];
    }

    method AddJob(job: Job)
      modifies this
      ensures jobList == old(jobList) + [job]
    {
      jobList := jobList + [job];
    }

    /** Takes the front job; the wait for a job is the precondition. */
    method GetJob() returns (job: Job)
      requires jobList != []
      modifies this
      ensures [job] + jobList == old(jobList)
    {
      job := jobList[0];
      jobList := jobList[1..];
    }
  }

  class Pool {
    var vWork: seq<Worker>

    ghost predicate Valid()
      reads this
    {
      vWork != [] && forall i, j | 0 <= i < j < |vWork| :: vWork[i] != vWork[j]
    }

    function Queues(): seq<seq<Job>>
      reads this, vWork
    {
      seq(|vWork|, i requires 0 <= i < |vWork| reads this, vWork => vWork[i].jobList)
    }

    constructor (initnum: nat)
      requires 0 < initnum <= 30
      ensures Valid() && fresh(vWork) && Queues() == seq(initnum, _ => [])
    {
      vWork := [];
      new;
      var i := 0;
      while i < initnum
        invariant i <= initnum && |vWork| == i && fresh(vWork)
        invariant forall j, k | 0 <= j < k < i :: vWork[j] != vWork[k]
        invariant forall j | 0 <= j < i :: vWork[j].jobList == []
      {
        var thr := new Worker();
        vWork := vWork + [thr];
        i := i + 1;
      }
    }

    method Run(job: Job, index: nat)
      requires Valid()
      modifies vWork
      ensures vWork == old(vWork)
      ensures Queues() == Enqueue(old(Queues()), index, job)
    {
      ghost var before := Queues();
      var worker := vWork[index % |vWork|];
      worker.AddJob(job);
      forall i | 0 <= i < |vWork|
        ensures Queues()[i] == Enqueue(before, index, job)[i]
      {
        assert i != index % |vWork| ==> vWork[i] != worker;
      }
    }
  }
}
