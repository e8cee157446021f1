/**
 The thread pool of the partitioned graph: which threads serve which domain, to
 whom a task goes, and a worker's loop.
 */
module ThreadPools {
  import opened Arithmetic
  import opened Partitions

  datatype Task = Task(add: bool, read: bool, src: nat, target: nat)

  /** A task, and how many threads were registered with each partition when it was carried out. */
  datatype Performed = Performed(task: Task, counters: seq<nat>)

  /** One thread more is registered with `par`, and no other change. */
  ghost predicate OneMore(before: seq<nat>, during: seq<nat>, par: nat) {
    |during| == |before| && forall p :: 0 <= p < |before| ==> during[p] == before[p] + if p == par then 1 else 0
  }

  // ---------------------------------------------------------------- blocks of threads

  /** How many threads a domain gets: the first `extra` domains get one more. */
  function BlockSize(d: nat, least: nat, extra: nat): nat {
    least + if d < extra then 1 else 0
  }

  /** Its first thread: the blocks of the domains before it come first. */
  function BlockStart(d: nat, least: nat, extra: nat): nat {
    if d == 0 then 0 else BlockStart(d - 1, least, extra) + BlockSize(d - 1, least, extra)
  }

  lemma {:induction false} BlockStartSum(d: nat, least: nat, extra: nat)
    ensures BlockStart(d, least, extra) == Times(d, least) + if d < extra then d else extra
  {
    if d > 0 {
      BlockStartSum(d - 1, least, extra);
    }
  }

  /** The blocks take in all threads and are not empty; by definition they differ by at most one in size. */
  lemma BlocksCover(threads: nat, domains: nat)
    requires 0 < domains <= threads
    ensures BlockStart(domains, threads / domains, threads % domains) == threads
    ensures threads / domains >= 1
  {
    BlockStartSum(domains, threads / domains, threads % domains);
    TimesProduct(domains, threads / domains);
    assert threads == domains * (threads / domains) + threads % domains;
  }

  /** A thread is in the block of a domain. */
  ghost predicate InBlock(t: nat, d: nat, least: nat, extra: nat) {
    BlockStart(d, least, extra) <= t < BlockStart(d, least, extra) + BlockSize(d, least, extra)
  }

  lemma {:induction false} BlocksIncrease(d: nat, e: nat, least: nat, extra: nat)
    requires d < e
    ensures BlockStart(d, least, extra) + BlockSize(d, least, extra) <= BlockStart(e, least, extra)
    decreases e
  {
    if d < e - 1 {
      BlocksIncrease(d, e - 1, least, extra);
    }
  }

  /** No thread is in two blocks. */
  lemma BlocksDisjoint(t: nat, d: nat, e: nat, least: nat, extra: nat)
    requires InBlock(t, d, least, extra) && InBlock(t, e, least, extra)
    ensures d == e
  {
    if d < e {
      BlocksIncrease(d, e, least, extra);
    } else if e < d {
      BlocksIncrease(e, d, least, extra);
    }
  }

  // ---------------------------------------------------------------- the pool

  class ThreadPool {
    var tasks: seq<seq<Task>>
    var indeces: seq<nat>
    var threadToDomain: seq<nat>
    var firstThreadDomain: seq<nat>
    var numThreadsDomain: seq<nat>

    /** The table of the partitioned graph, and `thread_counter` of each partition's global lock. */
    var distribution: seq<nat>
    var counters: seq<nat>

    const partitionsPerDomain: nat

    /** Each of the first `domains` domains has its block. */
    ghost predicate Dealt(domains: nat, least: nat, extra: nat)
      reads this
    {
      && domains <= |firstThreadDomain| == |numThreadsDomain|
      && forall d {:trigger firstThreadDomain[d]} {:trigger numThreadsDomain[d]} :: 0 <= d < domains ==>
           firstThreadDomain[d] == BlockStart(d, least, extra) && numThreadsDomain[d] == BlockSize(d, least, extra)
    }

    /** Each of the first `threads` threads serves the domain whose block it is in. */
    ghost predicate Serving(threads: nat, domains: nat, least: nat, extra: nat)
      reads this
    {
      && threads <= |threadToDomain|
      && forall t {:trigger threadToDomain[t]} :: 0 <= t < threads ==>
           threadToDomain[t] < domains && InBlock(t, threadToDomain[t], least, extra)
    }

    ghost predicate Valid()
      reads this
    {
      var threads, domains := |tasks|, |indeces|;
      && 0 < domains <= threads && 0 < partitionsPerDomain
      && |threadToDomain| == threads && |firstThreadDomain| == |numThreadsDomain| == domains
      && |distribution| == |counters| == Times(domains, partitionsPerDomain)
      && Dealt(domains, threads / domains, threads % domains)
      && Serving(threads, domains, threads / domains, threads % domains)
    }

    /** The constructor's loop. */
    method DealOut(threads: nat, domains: nat, least: nat, extra: nat)
      requires |threadToDomain| == threads && |firstThreadDomain| == |numThreadsDomain| == domains
      requires BlockStart(domains, least, extra) == threads && least >= 1
      modifies this`threadToDomain, this`firstThreadDomain, this`numThreadsDomain
      ensures |threadToDomain| == threads && |firstThreadDomain| == |numThreadsDomain| == domains
      ensures Dealt(domains, least, extra) && Serving(threads, domains, least, extra)
    {
      var counter, currentDomain: nat := 0, 0;
      for i := 0 to threads
        invariant |threadToDomain| == threads && |firstThreadDomain| == |numThreadsDomain| == domains
        invariant currentDomain <= domains && i == BlockStart(currentDomain, least, extra) + counter
        invariant counter < BlockSize(currentDomain, least, extra)
        invariant Dealt(currentDomain, least, extra) && Serving(i, domains, least, extra)
      {
        threadToDomain := threadToDomain[i := currentDomain];
        counter := counter + 1;
        if counter == least + if currentDomain < extra then 1 else 0 {
          numThreadsDomain := numThreadsDomain[currentDomain := counter];
          firstThreadDomain := firstThreadDomain[currentDomain := i - counter + 1];
          counter := 0;
          currentDomain := currentDomain + 1;
        }
      }
      if currentDomain < domains {
        BlocksIncrease(currentDomain, domains, least, extra);
      }
    }

    /** There are at most as many domains as threads. */
    constructor (threads: nat, domains: nat, partitionsPerDomain: nat, distribution: seq<nat>)
      requires 0 < domains <= threads && 0 < partitionsPerDomain
      requires |distribution| == Times(domains, partitionsPerDomain)
      ensures Valid() && |tasks| == threads && |indeces| == domains
      ensures forall t :: 0 <= t < threads ==> tasks[t] == []
      ensures forall p :: 0 <= p < |counters| ==> counters[p] == 0
    {
      this.partitionsPerDomain := partitionsPerDomain;
      this.distribution := distribution;
      tasks := seq(threads, _ => []);
      indeces := seq(domains, _ => 0);
      counters := seq(|distribution|, _ => 0);
      threadToDomain := seq(threads, _ => 0);
      firstThreadDomain := seq(domains, _ => 0);
      numThreadsDomain := seq(domains, _ => 0);
      new;
      BlocksCover(threads, domains);
      DealOut(threads, domains, threads / domains, threads % domains);
    }

    /** The domain of a partition. */
    method DomainOf(par: nat) returns (d: nat)
      requires Valid() && par < |distribution|
      ensures d < |indeces| && Times(d, partitionsPerDomain) <= par < Times(d + 1, partitionsPerDomain)
    {
      d := par / partitionsPerDomain;
      QuotientOf(par, partitionsPerDomain, |indeces|);
    }

    /** `submit_add`, `submit_delete` and `submit_read`: the task goes to a thread of its partition's domain, in turn. */
    method Submit(task: Task) returns (thread: nat)
      requires Valid()
      modifies this`tasks, this`indeces
      ensures Valid() && |indeces| == old(|indeces|) && thread < |tasks| == old(|tasks|)
      ensures tasks == old(tasks)[thread := old(tasks[thread]) + [task]]
      ensures var par := PartitionOf(distribution, task.src);
        var d := threadToDomain[thread];
        && Times(d, partitionsPerDomain) <= par < Times(d + 1, partitionsPerDomain)
        && thread == firstThreadDomain[d] + old(indeces[d]) % numThreadsDomain[d]
        && indeces == old(indeces)[d := old(indeces[d]) + 1]
    {
      ghost var threads, domains := |tasks|, |indeces|;
      ghost var least, extra := threads / domains, threads % domains;
      BlocksCover(threads, domains);
      var par := PartitionOf(distribution, task.src);
      var d := DomainOf(par);
      var index := indeces[d] % numThreadsDomain[d];
      indeces := indeces[d := indeces[d] + 1];
      thread := firstThreadDomain[d] + index;
      BlocksIncrease(d, domains, least, extra);
      BlocksDisjoint(thread, d, threadToDomain[thread], least, extra);
      tasks := tasks[thread := tasks[thread] + [task]];
    }

    // -------------------------------------------------------------- a worker

    /** How many of the other threads are registered with each partition, and this one, if it is. */
    ghost predicate Counted(others: seq<nat>, registered: int)
      reads this
    {
      && |counters| == |others| && -1 <= registered < |counters|
      && forall p {:trigger counters[p]} :: 0 <= p < |counters| ==> counters[p] == others[p] + if p == registered then 1 else 0
    }

    method RegisterThread(par: nat, ghost others: seq<nat>)
      requires Counted(others, -1) && par < |counters|
      modifies this`counters
      ensures Counted(others, par)
    {
      counters := counters[par := counters[par] + 1];
    }

    method UnregisterThread(par: nat, ghost others: seq<nat>)
      requires Counted(others, par) && par < |counters|
      modifies this`counters
      ensures Counted(others, -1)
    {
      counters := counters[par := counters[par] - 1];
    }

    /** The part of `execute` before a task's operation: be registered with its partition, and with no other. */
    method RegisterFor(task: Task, registered: int, ghost others: seq<nat>) returns (par: nat)
      requires |distribution| == |counters| > 0 && Counted(others, registered)
      modifies this`counters
      ensures par == PartitionOf(distribution, task.src) && Counted(others, par)
    {
      par := PartitionOf(distribution, task.src);
      if registered != par {
        if registered != -1 {
          UnregisterThread(registered, others);
        }
        RegisterThread(par, others);
      }
    }

    /**
     `execute` for the master thread: works off its queue. At the time of each operation
     the counters show it registered with exactly the partition of the task, which the
     global lock relies on, and at the end with none.
     */
    method Execute(thread: nat) returns (trace: seq<Performed>)
      requires |distribution| == |counters| > 0 && thread < |tasks|
      modifies this`tasks, this`counters
      ensures counters == old(counters)
      ensures tasks == old(tasks)[thread := []]
      ensures |trace| == |old(tasks[thread])|
      ensures forall k :: 0 <= k < |trace| ==> trace[k].task == old(tasks[thread])[k]
      ensures forall k :: 0 <= k < |trace| ==>
        OneMore(old(counters), trace[k].counters, PartitionOf(distribution, trace[k].task.src))
    {
      var registered: int := -1;
      ghost var others, queue := counters, tasks[thread];
      trace := [];
      while tasks[thread] != []
        invariant |counters| == |others| && Counted(others, registered)
        invariant |tasks| == old(|tasks|) && tasks == old(tasks)[thread := tasks[thread]]
        invariant |trace| <= |queue| && tasks[thread] == queue[|trace|..]
        invariant forall k :: 0 <= k < |trace| ==> trace[k].task == queue[k]
        invariant forall k :: 0 <= k < |trace| ==>
          OneMore(others, trace[k].counters, PartitionOf(distribution, trace[k].task.src))
        decreases |tasks[thread]|
      {
        var task := tasks[thread][0];
        tasks := tasks[thread := tasks[thread][1..]];
        registered := RegisterFor(task, registered, others);
        // add_edge, remove_edge or read_neighbourhood
        trace := trace + [Performed(task, counters)];
      }
      if registered != -1 {
        UnregisterThread(registered, others);
      }
      assert counters == others;
    }
  }

  lemma QuotientOf(x: nat, size: nat, n: nat)
    requires size > 0 && x < Times(n, size)
    ensures x / size < n && Times(x / size, size) <= x < Times(x / size + 1, size)
  {
    var q := x / size;
    TimesProduct(q, size);
    assert x == q * size + x % size;
    if n < q {
      TimesStep(n, q, size);
    }
  }
}
