/** The thread pool's job queue: a singly linked list from front to rear, with the binary
    semaphore that announces jobs. */
module JobQueue {

  class Job {
    const id: nat
    var prev: Job?

    constructor (id: nat)
      ensures this.id == id && prev == null
    {
      this.id := id;
      prev := null;
    }
  }

  class Queue {
    var front: Job?
    var rear: Job?
    var len: nat
    var hasJobs: bool
    ghost var nodes: seq<Job>

    ghost predicate Valid()
      reads this, nodes
    {
      && len == |nodes|
      && (forall i, j :: 0 <= i < j < |nodes| ==> nodes[i] != nodes[j])
      && (forall i :: 0 <= i < |nodes| - 1 ==> nodes[i].prev == nodes[i + 1])
      && (if |nodes| == 0 then front == null && rear == null
          else front == nodes[0] && rear == nodes[|nodes| - 1] && rear.prev == null)
    }

    constructor ()
      ensures Valid() && nodes == [] && !hasJobs
    {
      front, rear, len, hasJobs := null, null, 0, false;
      nodes := [];
    }

    // Appends a job and posts the semaphore.
    method Push(newjob: Job)
      requires Valid() && newjob !in nodes
      modifies this, newjob, rear
      ensures Valid() && nodes == old(nodes) + [newjob] && hasJobs
    {
      newjob.prev := null;
      if len == 0 {
        front := newjob;
        rear := newjob;
      } else {
        rear.prev := newjob;
        rear := newjob;
      }
      len := len + 1;
      nodes := nodes + [newjob];
      hasJobs := true;
    }

    // Removes and returns the oldest job, null when there is none; posts the semaphore again
    // when jobs are left.
    method Pull() returns (job: Job?)
      requires Valid()
      modifies this
      ensures Valid()
      ensures if old(nodes) == [] then job == null && nodes == [] else job == old(nodes)[0] && nodes == old(nodes)[1..]
      ensures hasJobs == (old(hasJobs) || nodes != [])
    {
      job := front;
      if len == 0 {
      } else if len == 1 {
        front := null;
        rear := null;
        len := 0;
        nodes := [];
      } else {
        front := job.prev;
        len := len - 1;
        nodes := nodes[1..];
        hasJobs := true;
      }
    }
  }
}
