/** The job list of tsh.c: a fixed array of slots, scanned and overwritten in place. */
module JobTable {

  const MAX_JOBS := 16

  datatype JobState = UNDEF | FG | BG | ST
  datatype Job = Job(pid: int, jid: int, state: JobState)

  const CLEARED := Job(0, 0, UNDEF)

  /** The first slot that holds pid, or |jobs|. */
  function IndexOf(jobs: seq<Job>, pid: int): (r: nat)
    ensures r <= |jobs|
    ensures r < |jobs| ==> jobs[r].pid == pid
    ensures forall k :: 0 <= k < r ==> jobs[k].pid != pid
  {
    if jobs == [] || jobs[0].pid == pid then 0
    else
      var r := IndexOf(jobs[1..], pid);
      assert forall k :: 0 < k <= r ==> jobs[k].pid == jobs[1..][k - 1].pid || k == r + 1;
      1 + r
  }

  lemma IndexIs(jobs: seq<Job>, pid: int, i: nat)
    requires i <= |jobs| && (i < |jobs| ==> jobs[i].pid == pid)
    requires forall k :: 0 <= k < i ==> jobs[k].pid != pid
    ensures IndexOf(jobs, pid) == i
  {
    var r := IndexOf(jobs, pid);
    assert !(r < i) && !(i < r);
  }

  /** The job of a real process. */
  function Find(jobs: seq<Job>, pid: int): (r: nat)
    ensures r <= |jobs|
    ensures r < |jobs| ==> jobs[r].pid == pid && pid >= 1
  {
    if pid < 1 then |jobs| else IndexOf(jobs, pid)
  }

  /** addjob: the first empty slot takes the job; without one, or without a pid, nothing changes. */
  function Added(jobs: seq<Job>, nextjid: int, pid: int, state: JobState): seq<Job> {
    var i := IndexOf(jobs, 0);
    if pid >= 1 && i < |jobs| then jobs[i := Job(pid, nextjid, state)] else jobs
  }

  function Fits(jobs: seq<Job>, pid: int): bool { pid >= 1 && IndexOf(jobs, 0) < |jobs| }

  /** deletejob. */
  function Deleted(jobs: seq<Job>, pid: int): seq<Job> {
    var i := Find(jobs, pid);
    if i < |jobs| then jobs[i := CLEARED] else jobs
  }

  /** maxjid, 0 for an empty list. */
  function MaxJidOf(jobs: seq<Job>): (m: int)
    ensures m >= 0
    ensures forall k :: 0 <= k < |jobs| ==> jobs[k].jid <= m
    ensures m > 0 ==> exists k :: 0 <= k < |jobs| && jobs[k].jid == m
  {
    if jobs == [] then 0
    else
      var init := jobs[..|jobs| - 1];
      var m := MaxJidOf(init);
      assert forall k :: 0 <= k < |jobs| - 1 ==> jobs[k] == init[k];
      if jobs[|jobs| - 1].jid > m then jobs[|jobs| - 1].jid else m
  }

  /** fgpid: the pid of the first foreground job, or 0. */
  function FgOf(jobs: seq<Job>): int {
    if jobs == [] then 0 else if jobs[0].state == FG then jobs[0].pid else FgOf(jobs[1..])
  }

  class Jobs {
    const jobs: array<Job>
    var nextjid: int

    ghost predicate Valid() reads this { jobs.Length == MAX_JOBS }

    /** initjobs. */
    constructor ()
      ensures Valid() && fresh(jobs) && nextjid == 1
      ensures forall k :: 0 <= k < MAX_JOBS ==> jobs[k] == CLEARED
    {
      jobs := new Job[MAX_JOBS](_ => CLEARED);
      nextjid := 1;
    }

    method MaxJid() returns (max: int)
      requires Valid()
      ensures max == MaxJidOf(jobs[..])
      ensures max >= 0 && forall k :: 0 <= k < MAX_JOBS ==> jobs[k].jid <= max
      ensures max > 0 ==> exists k :: 0 <= k < MAX_JOBS && jobs[k].jid == max
    {
      max := 0;
      var i := 0;
      while i < MAX_JOBS
        invariant 0 <= i <= MAX_JOBS && max == MaxJidOf(jobs[..i])
        invariant max >= 0 && forall k :: 0 <= k < i ==> jobs[k].jid <= max
        invariant max > 0 ==> exists k :: 0 <= k < i && jobs[k].jid == max
      {
        assert jobs[..i + 1][..i] == jobs[..i];
        if jobs[i].jid > max {
          max := jobs[i].jid;
        }
        i := i + 1;
      }
      assert jobs[..MAX_JOBS] == jobs[..];
    }

    method AddJob(pid: int, state: JobState) returns (ok: bool)
      requires Valid()
      modifies this, jobs
      ensures jobs[..] == Added(old(jobs[..]), old(nextjid), pid, state)
      ensures ok <==> Fits(old(jobs[..]), pid)
      ensures ok <==> pid >= 1 && exists k :: 0 <= k < MAX_JOBS && old(jobs[k]).pid == 0
      ensures !ok ==> forall k :: 0 <= k < MAX_JOBS ==> jobs[k] == old(jobs[k])
      ensures ok ==> exists i ::
                (&& 0 <= i < MAX_JOBS && old(jobs[i]).pid == 0 && jobs[i] == Job(pid, old(nextjid), state)
                 && (forall k :: 0 <= k < i ==> old(jobs[k]).pid != 0)
                 && (forall k :: 0 <= k < MAX_JOBS && k != i ==> jobs[k] == old(jobs[k])))
      ensures nextjid == if !ok then old(nextjid) else if old(nextjid) + 1 > MAX_JOBS then 1 else old(nextjid) + 1
    {
      if pid < 1 {
        return false;
      }
      var i := 0;
      while i < MAX_JOBS
        invariant 0 <= i <= MAX_JOBS && jobs[..] == old(jobs[..]) && nextjid == old(nextjid)
        invariant forall k :: 0 <= k < i ==> jobs[k].pid != 0
      {
        if jobs[i].pid == 0 {
          IndexIs(jobs[..], 0, i);
          jobs[i] := Job(pid, nextjid, state);
          nextjid := nextjid + 1;
          if nextjid > MAX_JOBS {
            nextjid := 1;
          }
          return true;
        }
        i := i + 1;
      }
      IndexIs(jobs[..], 0, MAX_JOBS);
      return false;
    }

    method GetJobPid(pid: int) returns (i: int)
      requires Valid()
      ensures i == if Find(jobs[..], pid) < MAX_JOBS then Find(jobs[..], pid) else -1
      ensures -1 <= i < MAX_JOBS
      ensures i >= 0 ==> pid >= 1 && jobs[i].pid == pid && forall k :: 0 <= k < i ==> jobs[k].pid != pid
      ensures i == -1 ==> pid < 1 || forall k :: 0 <= k < MAX_JOBS ==> jobs[k].pid != pid
    {
      if pid < 1 {
        return -1;
      }
      i := 0;
      while i < MAX_JOBS
        invariant 0 <= i <= MAX_JOBS
        invariant forall k :: 0 <= k < i ==> jobs[k].pid != pid
      {
        if jobs[i].pid == pid {
          IndexIs(jobs[..], pid, i);
          return;
        }
        i := i + 1;
      }
      IndexIs(jobs[..], pid, MAX_JOBS);
      return -1;
    }

    method GetJobJid(jid: int) returns (i: int)
      requires Valid()
      ensures -1 <= i < MAX_JOBS
      ensures i >= 0 ==> jid >= 1 && jobs[i].jid == jid && forall k :: 0 <= k < i ==> jobs[k].jid != jid
      ensures i == -1 ==> jid < 1 || forall k :: 0 <= k < MAX_JOBS ==> jobs[k].jid != jid
    {
      if jid < 1 {
        return -1;
      }
      i := 0;
      while i < MAX_JOBS
        invariant 0 <= i <= MAX_JOBS
        invariant forall k :: 0 <= k < i ==> jobs[k].jid != jid
      {
        if jobs[i].jid == jid {
          return;
        }
        i := i + 1;
      }
      return -1;
    }

    method DeleteJob(pid: int) returns (ok: bool)
      requires Valid()
      modifies this, jobs
      ensures jobs[..] == Deleted(old(jobs[..]), pid)
      ensures ok <==> Find(old(jobs[..]), pid) < MAX_JOBS
      ensures ok <==> pid >= 1 && exists k :: 0 <= k < MAX_JOBS && old(jobs[k]).pid == pid
      ensures !ok ==> forall k :: 0 <= k < MAX_JOBS ==> jobs[k] == old(jobs[k])
      ensures ok ==> exists i ::
                (&& 0 <= i < MAX_JOBS && old(jobs[i]).pid == pid && jobs[i] == Job(0, 0, UNDEF)
                 && (forall k :: 0 <= k < i ==> old(jobs[k]).pid != pid)
                 && (forall k :: 0 <= k < MAX_JOBS && k != i ==> jobs[k] == old(jobs[k])))
      ensures ok ==> nextjid == MaxJidOf(jobs[..]) + 1
      ensures ok ==> forall k :: 0 <= k < MAX_JOBS ==> jobs[k].jid < nextjid
      ensures ok ==> nextjid == 1 || exists k :: 0 <= k < MAX_JOBS && jobs[k].jid == nextjid - 1
      ensures !ok ==> nextjid == old(nextjid)
    {
      if pid < 1 {
        return false;
      }
      var i := 0;
      while i < MAX_JOBS
        invariant 0 <= i <= MAX_JOBS && jobs[..] == old(jobs[..]) && nextjid == old(nextjid)
        invariant forall k :: 0 <= k < i ==> jobs[k].pid != pid
      {
        if jobs[i].pid == pid {
          IndexIs(jobs[..], pid, i);
          jobs[i] := CLEARED;
          var m := MaxJid();
          nextjid := m + 1;
          return true;
        }
        i := i + 1;
      }
      IndexIs(jobs[..], pid, MAX_JOBS);
      return false;
    }

    method FgPid() returns (pid: int)
      requires Valid()
      ensures pid == FgOf(jobs[..])
      ensures (exists i :: 0 <= i < MAX_JOBS && jobs[i].state == FG && jobs[i].pid == pid &&
                 forall k :: 0 <= k < i ==> jobs[k].state != FG)
           || (pid == 0 && forall k :: 0 <= k < MAX_JOBS ==> jobs[k].state != FG)
    {
      var i := 0;
      while i < MAX_JOBS
        invariant 0 <= i <= MAX_JOBS
        invariant FgOf(jobs[..]) == FgOf(jobs[i..])
        invariant forall k :: 0 <= k < i ==> jobs[k].state != FG
      {
        assert jobs[i..][1..] == jobs[i + 1..];
        if jobs[i].state == FG {
          return jobs[i].pid;
        }
        i := i + 1;
      }
      assert jobs[MAX_JOBS..] == [];
      return 0;
    }
  }
}
