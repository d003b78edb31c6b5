/**
 * The job-control protocol of tsh.c: the main loop, its signal handlers and
 * its children as one state machine. A section that runs with every signal
 * blocked is one step; everything else interleaves freely.
 */
module JobControl {
  import opened JobTable

  // ---- the sections that run with signals blocked ----

  /** bg or fg of the job in slot i. */
  function Resumed(jobs: seq<Job>, i: nat, fg: bool): seq<Job>
    requires i < |jobs|
  {
    if fg then jobs[i := jobs[i].(state := FG)]
    else if jobs[i].state == ST then jobs[i := jobs[i].(state := BG)]
    else jobs
  }

  /** One round of the SIGCHLD handler, for a child that has a job. */
  function Reaped(jobs: seq<Job>, pid: int, stopped: bool): seq<Job>
    requires Find(jobs, pid) < |jobs|
  {
    var i := Find(jobs, pid);
    if stopped then jobs[i := jobs[i].(state := ST)] else Deleted(jobs, pid)
  }

  /** The globals of the shell. */
  class Globals {
    const table: Jobs
    var susp: bool

    constructor ()
      ensures table.Valid() && fresh(table) && fresh(table.jobs) && table.nextjid == 1
      ensures forall k :: 0 <= k < MAX_JOBS ==> table.jobs[k] == CLEARED
    {
      table := new Jobs();
      susp := false;
    }

    /** eval, from the blocking of all signals to the first suspension. */
    method Launch(pid: int, bg: bool) returns (added: bool)
      requires table.Valid()
      modifies this, table, table.jobs
      ensures table.jobs[..] == Added(old(table.jobs[..]), old(table.nextjid), pid, if bg then BG else FG)
      ensures added <==> Fits(old(table.jobs[..]), pid)
      ensures added <==> pid >= 1 && exists k :: 0 <= k < MAX_JOBS && old(table.jobs[k]).pid == 0
      ensures !added ==> forall k :: 0 <= k < MAX_JOBS ==> table.jobs[k] == old(table.jobs[k])
      ensures added ==> exists i ::
                (&& 0 <= i < MAX_JOBS && old(table.jobs[i]).pid == 0
                 && table.jobs[i] == Job(pid, old(table.nextjid), if bg then BG else FG)
                 && (forall k :: 0 <= k < i ==> old(table.jobs[k]).pid != 0)
                 && (forall k :: 0 <= k < MAX_JOBS && k != i ==> table.jobs[k] == old(table.jobs[k])))
      ensures susp == if bg then old(susp) else true
    {
      added := table.AddJob(pid, if bg then BG else FG);
      if !bg {
        susp := true;
      }
    }

    /** do_bgfg on a job found by pid or by jid, up to the first suspension; cont says whether SIGCONT is sent. */
    method DoBgFg(byJid: bool, id: int, fg: bool) returns (i: int, cont: bool, error: bool)
      requires table.Valid()
      modifies this, table.jobs
      ensures -1 <= i < MAX_JOBS
      ensures i >= 0 ==> (if byJid then old(table.jobs[i]).jid else old(table.jobs[i]).pid) == id && id >= 1
      ensures i == -1 ==> id < 1 || forall k :: 0 <= k < MAX_JOBS ==>
                (if byJid then old(table.jobs[k]).jid else old(table.jobs[k]).pid) != id
      ensures error <==> i >= 0 && old(table.jobs[i]).state !in {BG, ST}
      ensures table.jobs[..] == if i == -1 || error then old(table.jobs[..]) else Resumed(old(table.jobs[..]), i, fg)
      ensures i >= 0 && !error ==> table.jobs[i] == old(table.jobs[i]).(state := if fg then FG else BG)
      ensures forall k :: 0 <= k < MAX_JOBS && (k != i || error) ==> table.jobs[k] == old(table.jobs[k])
      ensures susp == if i == -1 || error || !fg then old(susp) else true
      ensures cont <==> i >= 0 && old(table.jobs[i]).state == ST
    {
      cont, error := false, false;
      if byJid {
        i := table.GetJobJid(id);
      } else {
        i := table.GetJobPid(id);
        if i == -1 && id >= 1 {
          ghost var js := table.jobs[..];
          assert forall k :: 0 <= k < MAX_JOBS ==> js[k].pid != id;
        }
      }
      if i == -1 {
        return;
      }
      if table.jobs[i].state != BG && table.jobs[i].state != ST {
        error := true;
        return;
      }
      cont := table.jobs[i].state == ST;
      if !fg {
        if table.jobs[i].state == ST {
          table.jobs[i] := table.jobs[i].(state := BG);
        }
      } else {
        table.jobs[i] := table.jobs[i].(state := FG);
        susp := true;
      }
    }

    /** One round of sigchld_handler; a child without a job is fatal. */
    method Reap(pid: int, stopped: bool) returns (found: bool)
      requires table.Valid()
      modifies this, table, table.jobs
      ensures found <==> Find(old(table.jobs[..]), pid) < MAX_JOBS
      ensures !found ==> table.jobs[..] == old(table.jobs[..]) && susp == old(susp)
      ensures found ==> table.jobs[..] == Reaped(old(table.jobs[..]), pid, stopped)
      ensures found <==> pid >= 1 && exists k :: 0 <= k < MAX_JOBS && old(table.jobs[k]).pid == pid
      ensures found ==> exists i ::
                (&& 0 <= i < MAX_JOBS && old(table.jobs[i]).pid == pid
                 && (forall k :: 0 <= k < i ==> old(table.jobs[k]).pid != pid)
                 && table.jobs[i] == (if stopped then old(table.jobs[i]).(state := ST) else Job(0, 0, UNDEF))
                 && (forall k :: 0 <= k < MAX_JOBS && k != i ==> table.jobs[k] == old(table.jobs[k]))
                 && susp == (old(susp) && old(table.jobs[i]).state != FG))
      ensures found ==> susp == (old(susp) && old(table.jobs[..])[Find(old(table.jobs[..]), pid)].state != FG)
    {
      var i := table.GetJobPid(pid);
      if i == -1 {
        return false;
      }
      if table.jobs[i].state == FG {
        susp := false;
      }
      if stopped {
        table.jobs[i] := table.jobs[i].(state := ST);
      } else {
        var _ := table.DeleteJob(pid);
      }
      return true;
    }
  }

  // ---- the state machine ----

  /** A child as the kernel sees it; a stop is reported by waitpid once. */
  datatype Status = Running | Stopped(reported: bool) | Zombie

  datatype Phase =
    | Prompt                            // reading or parsing, signals unblocked
    | Forked(pid: int, bg: bool)        // between fork and addjob, SIGCHLD blocked
    | Waiting(pid: int, added: bool)    // inside waitfg
    | Dead                              // app_error

  datatype Shell = Shell(
    jobs: seq<Job>, nextjid: int, susp: bool, phase: Phase,
    kids: map<int, Status>, pending: bool, handling: bool, overflowed: bool)

  datatype Event =
    | Fork(child: int, bg: bool)
    | Launch
    | BgFg(slot: nat, fg: bool)
    | Return                            // waitfg leaves its loop
    | Deliver                           // SIGCHLD arrives
    | Reap(child: int)
    | HandlerDone
    | Forward                           // ctrl-c or ctrl-z, passed on to the foreground job
    | Stop(child: int)
    | Exit(child: int)
    | Resume(child: int)

  predicate Reportable(s: Shell, p: int) {
    p in s.kids && (s.kids[p] == Stopped(false) || s.kids[p] == Zombie)
  }

  ghost predicate Enabled(s: Shell, e: Event) {
    match e
    case Fork(p, bg) => s.phase.Prompt? && !s.handling && p >= 1 && p !in s.kids
    case Launch => s.phase.Forked?
    case BgFg(i, fg) => s.phase.Prompt? && !s.handling && i < |s.jobs| && s.jobs[i].pid >= 1
    case Return => s.phase.Waiting? && !s.handling && !s.susp
    case Deliver => (s.phase.Prompt? || s.phase.Waiting?) && s.pending && !s.handling
    case Reap(p) => s.handling && !s.phase.Dead? && Reportable(s, p)
    case HandlerDone => s.handling && !s.phase.Dead? && forall p :: p in s.kids ==> !Reportable(s, p)
    case Forward => !s.phase.Dead?
    case Stop(p) => p in s.kids && s.kids[p] == Running
    case Exit(p) => p in s.kids && s.kids[p] != Zombie
    case Resume(p) => p in s.kids && s.kids[p].Stopped?
  }

  function AfterReap(s: Shell, p: int): Shell
    requires Reportable(s, p)
  {
    var stopped := s.kids[p].Stopped?;
    var i := Find(s.jobs, p);
    if i == |s.jobs| then s.(phase := Dead)
    else s.(
      jobs := Reaped(s.jobs, p, stopped),
      nextjid := if stopped then s.nextjid else MaxJidOf(Deleted(s.jobs, p)) + 1,
      susp := s.susp && s.jobs[i].state != FG,
      kids := if stopped then s.kids[p := Stopped(true)] else s.kids - {p})
  }

  function After(s: Shell, e: Event): Shell
    requires Enabled(s, e)
  {
    match e
    case Fork(p, bg) => s.(phase := Forked(p, bg), kids := s.kids[p := Running])
    case Launch =>
      var p, bg := s.phase.pid, s.phase.bg;
      var fits := Fits(s.jobs, p);
      s.(jobs := Added(s.jobs, s.nextjid, p, if bg then BG else FG),
         nextjid := if !fits then s.nextjid else if s.nextjid + 1 > MAX_JOBS then 1 else s.nextjid + 1,
         susp := if bg then s.susp else true,
         phase := if bg then Prompt else Waiting(p, fits),
         overflowed := s.overflowed || !fits)
    case BgFg(i, fg) =>
      var job := s.jobs[i];
      if job.state != BG && job.state != ST then s.(phase := Dead)
      else s.(
        jobs := Resumed(s.jobs, i, fg),
        susp := if fg then true else s.susp,
        phase := if fg then Waiting(job.pid, true) else Prompt,
        kids := if job.state == ST && job.pid in s.kids && s.kids[job.pid].Stopped?
                then s.kids[job.pid := Running] else s.kids)
    case Return => s.(phase := Prompt)
    case Deliver => s.(pending := false, handling := true)
    case Reap(p) => AfterReap(s, p)
    case HandlerDone => s.(handling := false)
    case Forward => s
    case Stop(p) => s.(kids := s.kids[p := Stopped(false)], pending := true)
    case Exit(p) => s.(kids := s.kids[p := Zombie], pending := true)
    case Resume(p) => s.(kids := s.kids[p := Running])
  }

  predicate Initial(s: Shell) {
    && |s.jobs| == MAX_JOBS && (forall k :: 0 <= k < MAX_JOBS ==> s.jobs[k] == CLEARED)
    && s.nextjid == 1 && s.phase == Prompt && s.kids == map[]
    && !s.pending && !s.handling && !s.overflowed
  }

  // ---- the invariant ----

  ghost predicate SlotOk(s: Shell, k: nat)
    requires k < |s.jobs|
  {
    var j := s.jobs[k];
    || j == CLEARED
    || (j.pid >= 1 && j.jid >= 1 && j.state != UNDEF && j.pid in s.kids
        && (j.state == FG ==> s.phase.Waiting? && s.phase.pid == j.pid && s.phase.added && s.susp))
  }

  ghost predicate TableOk(s: Shell) {
    && |s.jobs| == MAX_JOBS && s.nextjid >= 1
    && (forall k :: 0 <= k < MAX_JOBS ==> SlotOk(s, k))
    && (forall i, k :: 0 <= i < k < MAX_JOBS && s.jobs[i].pid != 0 ==> s.jobs[i].pid != s.jobs[k].pid)
  }

  /** While waitfg sleeps on an added job, the job is in the table as FG and is not yet reaped. */
  ghost predicate WaitOk(s: Shell) {
    && (s.phase.Forked? ==> s.phase.pid >= 1 && s.phase.pid in s.kids && Find(s.jobs, s.phase.pid) == |s.jobs|)
    && (s.phase.Forked? ==> !s.handling)
    && (s.phase.Waiting? && s.phase.added && s.susp ==>
          Find(s.jobs, s.phase.pid) < |s.jobs| && s.jobs[Find(s.jobs, s.phase.pid)].state == FG)
    && (s.phase.Waiting? && !s.phase.added ==> s.susp && s.overflowed && Find(s.jobs, s.phase.pid) == |s.jobs|)
  }

  /** No change of a child is forgotten, and children have jobs. */
  ghost predicate KidsOk(s: Shell) {
    && (forall p :: p in s.kids ==> p >= 1)
    && ((exists p :: Reportable(s, p)) ==> s.pending || s.handling)
    && (!s.overflowed ==> forall p :: p in s.kids ==>
          Find(s.jobs, p) < |s.jobs| || s.phase == Forked(p, true) || s.phase == Forked(p, false))
  }

  /** A child whose stop has been reported, and that nobody has continued, is ST in the table. */
  ghost predicate StopsOk(s: Shell) {
    && (forall p :: p in s.kids && s.kids[p] == Stopped(true) && Find(s.jobs, p) < |s.jobs| ==>
          s.jobs[Find(s.jobs, p)].state == ST)
    && (s.phase.Forked? && s.phase.pid in s.kids ==> s.kids[s.phase.pid] != Stopped(true))
  }

  ghost predicate Inv(s: Shell) {
    if s.phase.Dead? then s.overflowed else TableOk(s) && WaitOk(s) && KidsOk(s) && StopsOk(s)
  }

  lemma InitialInv(s: Shell)
    requires Initial(s)
    ensures Inv(s)
  {
  }

  /** In a table of distinct pids, a pid's slot is found. */
  lemma FindIs(s: Shell, k: nat)
    requires TableOk(s) && k < MAX_JOBS && s.jobs[k].pid >= 1
    ensures Find(s.jobs, s.jobs[k].pid) == k
  {
    var p := s.jobs[k].pid;
    var r := IndexOf(s.jobs, p);
    assert r <= k && s.jobs[r].pid == p;
  }

  lemma FindNone(jobs: seq<Job>, p: int)
    ensures Find(jobs, p) == |jobs| <==> p < 1 || forall k :: 0 <= k < |jobs| ==> jobs[k].pid != p
  {
  }

  /** A search that only depends on pids gives the same slot. */
  lemma FindSame(a: seq<Job>, b: seq<Job>, p: int)
    requires |a| == |b| && forall k :: 0 <= k < |a| ==> a[k].pid == b[k].pid
    ensures Find(a, p) == Find(b, p)
  {
    if p >= 1 {
      IndexIs(b, p, IndexOf(a, p));
    }
  }

  // ---- every step keeps the invariant ----

  lemma ForkInv(s: Shell, p: int, bg: bool)
    requires Inv(s) && Enabled(s, Fork(p, bg))
    ensures Inv(After(s, Fork(p, bg)))
  {
    var t := After(s, Fork(p, bg));
    hide IndexOf, Find;
    FindNone(s.jobs, p);
    forall k | 0 <= k < MAX_JOBS ensures SlotOk(t, k) && s.jobs[k].pid != p {
      assert SlotOk(s, k);
    }
    assert forall q :: Reportable(t, q) ==> Reportable(s, q);
  }

  /** What addjob does to the table. */
  lemma AddedSlots(jobs: seq<Job>, nextjid: int, p: int, st: JobState)
    requires p >= 1
    ensures var a := Added(jobs, nextjid, p, st);
            && |a| == |jobs|
            && (!Fits(jobs, p) ==> a == jobs)
            && (Fits(jobs, p) ==> IndexOf(jobs, 0) < |jobs| && a[IndexOf(jobs, 0)] == Job(p, nextjid, st))
            && (Fits(jobs, p) && Find(jobs, p) == |jobs| ==> Find(a, p) == IndexOf(jobs, 0))
            && (forall q :: q >= 1 && q != p ==> Find(a, q) == Find(jobs, q))
  {
    var a, i := Added(jobs, nextjid, p, st), IndexOf(jobs, 0);
    if Fits(jobs, p) {
      if Find(jobs, p) == |jobs| {
        IndexIs(a, p, i);
      }
      forall q | q >= 1 && q != p ensures Find(a, q) == Find(jobs, q) {
        IndexIs(a, q, IndexOf(jobs, q));
      }
    }
  }

  lemma LaunchInv(s: Shell)
    requires Inv(s) && Enabled(s, Launch)
    ensures Inv(After(s, Launch))
  {
    hide IndexOf, Find;
    var t := After(s, Launch);
    var p, st := s.phase.pid, if s.phase.bg then BG else FG;
    AddedSlots(s.jobs, s.nextjid, p, st);
    FindNone(s.jobs, p);
    var i := IndexOf(s.jobs, 0);
    forall k | 0 <= k < MAX_JOBS ensures SlotOk(t, k) {
      assert SlotOk(s, k);
    }
    assert forall q :: Reportable(t, q) <==> Reportable(s, q);
  }

  /** bg and fg in the protocol: which state the job gets, that a stopped child runs again, and who waits. */
  lemma BgFgStep(s: Shell, i: nat, fg: bool)
    requires Inv(s) && Enabled(s, BgFg(i, fg))
    ensures var t, p := After(s, BgFg(i, fg)), s.jobs[i].pid;
      && t.jobs == s.jobs[i := Job(p, s.jobs[i].jid, if fg then FG else BG)]
      && p in t.kids && !(s.jobs[i].state == ST && t.kids[p].Stopped?) && t.kids[p] != Stopped(true)
      && (forall q :: q in t.kids && q != p ==> q in s.kids && t.kids[q] == s.kids[q])
      && (fg ==> t.phase == Waiting(p, true) && t.susp) && (!fg ==> t.phase == Prompt)
  {
    hide IndexOf, Find;
    assert SlotOk(s, i);
    FindIs(s, i);
  }

  lemma BgFgSlots(s: Shell, i: nat, fg: bool)
    requires Inv(s) && Enabled(s, BgFg(i, fg))
    ensures var t := After(s, BgFg(i, fg));
      !t.phase.Dead? && TableOk(t) && Find(t.jobs, s.jobs[i].pid) == i && forall q :: Find(t.jobs, q) == Find(s.jobs, q)
  {
    hide IndexOf, Find, StopsOk, KidsOk;
    var t := After(s, BgFg(i, fg));
    assert SlotOk(s, i);
    FindIs(s, i);
    forall q ensures Find(t.jobs, q) == Find(s.jobs, q) {
      FindSame(s.jobs, t.jobs, q);
    }
    forall k | 0 <= k < MAX_JOBS ensures SlotOk(t, k) {
      assert SlotOk(s, k);
    }
  }

  lemma BgFgInv(s: Shell, i: nat, fg: bool)
    requires Inv(s) && Enabled(s, BgFg(i, fg))
    ensures Inv(After(s, BgFg(i, fg)))
  {
    hide IndexOf, Find, SlotOk;
    BgFgSlots(s, i, fg);
    BgFgStops(s, i, fg);
    hide TableOk, StopsOk;
    var t := After(s, BgFg(i, fg));
    assert forall q :: Reportable(t, q) ==> Reportable(s, q);
  }

  lemma BgFgStops(s: Shell, i: nat, fg: bool)
    requires Inv(s) && Enabled(s, BgFg(i, fg))
    ensures StopsOk(After(s, BgFg(i, fg)))
  {
    hide IndexOf, Find, SlotOk, KidsOk, WaitOk;
    BgFgSlots(s, i, fg);
    BgFgStep(s, i, fg);
    var t := After(s, BgFg(i, fg));
    hide TableOk;
    forall q | q in t.kids && t.kids[q] == Stopped(true) && Find(t.jobs, q) < |t.jobs|
      ensures t.jobs[Find(t.jobs, q)].state == ST
    {
      FoundIs(s.jobs, q);
      assert q != s.jobs[i].pid;
    }
  }

  lemma FoundIs(jobs: seq<Job>, p: int)
    requires Find(jobs, p) < |jobs|
    ensures jobs[Find(jobs, p)].pid == p
  {
  }

  /** Clearing or marking the slot of p leaves the other pids where they were. */
  lemma ReapedSlots(jobs: seq<Job>, p: int, stopped: bool)
    requires Find(jobs, p) < |jobs|
    ensures var r := Reaped(jobs, p, stopped);
            && |r| == |jobs| && (forall q :: q >= 1 && q != p ==> Find(r, q) == Find(jobs, q))
            && (stopped ==> Find(r, p) == Find(jobs, p))
  {
    var r := Reaped(jobs, p, stopped);
    if stopped {
      FindSame(jobs, r, p);
    }
    forall q | q >= 1 && q != p ensures Find(r, q) == Find(jobs, q) {
      IndexIs(r, q, IndexOf(jobs, q));
    }
  }

  lemma ReapSlotOk(s: Shell, p: int, k: nat)
    requires Inv(s) && Enabled(s, Reap(p)) && Find(s.jobs, p) < |s.jobs| && k < MAX_JOBS
    ensures |After(s, Reap(p)).jobs| == MAX_JOBS && SlotOk(After(s, Reap(p)), k)
  {
    hide IndexOf, MaxJidOf;
    var t := After(s, Reap(p));
    var i := Find(s.jobs, p);
    assert SlotOk(s, i) && SlotOk(s, k);
    if k != i {
      assert s.jobs[k].pid != p;
      assert t.jobs[k] == s.jobs[k];
      if s.jobs[k].state == FG {
        assert s.jobs[i].state != FG;
      }
    }
  }

  lemma ReapTableOk(s: Shell, p: int)
    requires Inv(s) && Enabled(s, Reap(p)) && Find(s.jobs, p) < |s.jobs|
    ensures TableOk(After(s, Reap(p)))
  {
    hide IndexOf, SlotOk;
    var t := After(s, Reap(p));
    forall k | 0 <= k < MAX_JOBS ensures SlotOk(t, k) {
      ReapSlotOk(s, p, k);
    }
  }

  lemma ReapInv(s: Shell, p: int)
    requires Inv(s) && Enabled(s, Reap(p))
    ensures Inv(After(s, Reap(p)))
  {
    hide IndexOf, SlotOk, MaxJidOf;
    var t := After(s, Reap(p));
    if Find(s.jobs, p) == |s.jobs| {
      assert s.overflowed;
    } else {
      ReapTableOk(s, p);
      hide TableOk, Find;
      ReapedSlots(s.jobs, p, s.kids[p].Stopped?);
      ReapWaitOk(s, p);
      ReapKidsOk(s, p);
      ReapStopsOk(s, p);
    }
  }

  lemma ReapStopsOk(s: Shell, p: int)
    requires Inv(s) && Enabled(s, Reap(p)) && Find(s.jobs, p) < |s.jobs|
    ensures StopsOk(After(s, Reap(p)))
  {
    hide IndexOf, MaxJidOf;
    var t := After(s, Reap(p));
    ReapedSlots(s.jobs, p, s.kids[p].Stopped?);
    forall q | q in t.kids && t.kids[q] == Stopped(true) && Find(t.jobs, q) < |t.jobs|
      ensures t.jobs[Find(t.jobs, q)].state == ST
    {
      if q != p {
        assert Find(t.jobs, q) == Find(s.jobs, q) != Find(s.jobs, p);
      }
    }
  }

  lemma ReapWaitOk(s: Shell, p: int)
    requires Inv(s) && Enabled(s, Reap(p)) && Find(s.jobs, p) < |s.jobs|
    ensures WaitOk(After(s, Reap(p)))
  {
    hide IndexOf, MaxJidOf;
    var t := After(s, Reap(p));
    ReapedSlots(s.jobs, p, s.kids[p].Stopped?);
    var i := Find(s.jobs, p);
    if t.phase.Waiting? && t.phase.added && t.susp {
      var w := s.phase.pid;
      assert w != p;
      assert t.jobs[Find(s.jobs, w)] == s.jobs[Find(s.jobs, w)];
    }
    assert SlotOk(s, i);
  }

  lemma ReapKidsOk(s: Shell, p: int)
    requires Inv(s) && Enabled(s, Reap(p)) && Find(s.jobs, p) < |s.jobs|
    ensures KidsOk(After(s, Reap(p)))
  {
    hide IndexOf, MaxJidOf, TableOk, Find;
    ReapedSlots(s.jobs, p, s.kids[p].Stopped?);
  }

  lemma OtherInv(s: Shell, e: Event)
    requires Inv(s) && Enabled(s, e)
    requires e.Return? || e.Deliver? || e.HandlerDone? || e.Forward?
    ensures Inv(After(s, e))
  {
    hide IndexOf, Find;
    var t := After(s, e);
    if !s.phase.Dead? {
      forall k | 0 <= k < MAX_JOBS ensures SlotOk(t, k) {
        assert SlotOk(s, k);
      }
      assert forall q :: Reportable(t, q) <==> Reportable(s, q);
    }
  }

  lemma ChildInv(s: Shell, e: Event)
    requires Inv(s) && Enabled(s, e)
    requires e.Stop? || e.Exit? || e.Resume?
    ensures Inv(After(s, e))
  {
    hide IndexOf, Find;
    var t := After(s, e);
    if !s.phase.Dead? {
      forall k | 0 <= k < MAX_JOBS ensures SlotOk(t, k) {
        assert SlotOk(s, k);
      }
      assert e.Resume? ==> forall q :: Reportable(t, q) ==> Reportable(s, q);
    }
  }

  lemma StepInv(s: Shell, e: Event)
    requires Inv(s) && Enabled(s, e)
    ensures Inv(After(s, e))
  {
    hide Inv, After, Enabled;
    match e
    case Fork(p, bg) => ForkInv(s, p, bg);
    case Launch => LaunchInv(s);
    case BgFg(i, fg) => BgFgInv(s, i, fg);
    case Reap(p) => ReapInv(s, p);
    case Stop(p) => ChildInv(s, e);
    case Exit(p) => ChildInv(s, e);
    case Resume(p) => ChildInv(s, e);
    case _ => OtherInv(s, e);
  }

  // ---- whole runs ----

  ghost predicate Run(run: seq<Shell>, events: seq<Event>) {
    && |run| == |events| + 1 && Initial(run[0])
    && forall i {:trigger events[i]} :: 0 <= i < |events| ==> Enabled(run[i], events[i]) && run[i + 1] == After(run[i], events[i])
  }

  lemma {:induction false} RunInv(run: seq<Shell>, events: seq<Event>, n: nat)
    requires Run(run, events) && n < |run|
    ensures Inv(run[n])
  {
    hide Inv, After, Enabled;
    if n == 0 {
      InitialInv(run[0]);
    } else {
      RunInv(run, events, n - 1);
      assert run[n] == After(run[n - 1], events[n - 1]);
      StepInv(run[n - 1], events[n - 1]);
    }
  }

  ghost predicate Foreground(s: Shell, p: int) {
    exists k :: 0 <= k < |s.jobs| && s.jobs[k].state == FG && s.jobs[k].pid == p
  }

  /** At most one job is in the foreground, and only while waitfg sleeps on it. */
  lemma AtMostOneForeground(run: seq<Shell>, events: seq<Event>, n: nat, i: nat, k: nat)
    requires Run(run, events) && n < |run| && !run[n].phase.Dead?
    requires i < |run[n].jobs| && k < |run[n].jobs| && run[n].jobs[i].state == FG && run[n].jobs[k].state == FG
    ensures i == k && run[n].phase == Waiting(run[n].jobs[i].pid, true) && run[n].susp
  {
    hide IndexOf, Find, After, Enabled;
    RunInv(run, events, n);
    assert SlotOk(run[n], i) && SlotOk(run[n], k);
  }

  /** waitfg returns only when no job is in the foreground. */
  lemma ReturnsWithoutForeground(run: seq<Shell>, events: seq<Event>, n: nat, k: nat)
    requires Run(run, events) && n < |events| && events[n] == Return && k < |run[n].jobs|
    ensures run[n].jobs[k].state != FG && run[n].phase.added
  {
    hide IndexOf, Find, After;
    RunInv(run, events, n);
    assert SlotOk(run[n], k);
  }

  /**
   * While waitfg sleeps on a job that was added, that job is in the table as
   * FG. If the child has something to report, SIGCHLD is pending or its
   * handler is active, and reaping the child clears susp; if neither is the
   * case, the child really is running.
   */
  lemma NoLostWakeUp(run: seq<Shell>, events: seq<Event>, n: nat)
    requires Run(run, events) && n < |run|
    requires run[n].phase.Waiting? && run[n].phase.added && run[n].susp
    ensures var s := run[n]; var p := s.phase.pid;
            && p in s.kids && Foreground(s, p)
            && (Reportable(s, p) ==> Enabled(s, Deliver) || Enabled(s, Reap(p)))
            && (Enabled(s, Reap(p)) ==> !After(s, Reap(p)).susp && !After(s, Reap(p)).phase.Dead?)
            && (!s.pending && !s.handling ==> s.kids[p] == Running)
  {
    hide IndexOf, Reaped, MaxJidOf;
    RunInv(run, events, n);
    var s := run[n];
    var i := Find(s.jobs, s.phase.pid);
    assert SlotOk(s, i);
    assert !Reportable(s, s.phase.pid) || (s.pending || s.handling);
  }

  /** The handler does not leave while the child it should wake the shell for is unreported. */
  lemma HandlerWakes(run: seq<Shell>, events: seq<Event>, n: nat)
    requires Run(run, events) && n < |events| && events[n] == HandlerDone
    requires run[n].phase.Waiting? && run[n].phase.added && run[n].susp
    ensures !Reportable(run[n], run[n].phase.pid) && Foreground(run[n + 1], run[n].phase.pid)
  {
    NoLostWakeUp(run, events, n);
    assert Enabled(run[n], events[n]) && run[n + 1] == After(run[n], events[n]);
  }

  /** As long as every addjob has found a slot, the shell does not die, and every child has its job. */
  lemma AliveUntilOverflow(run: seq<Shell>, events: seq<Event>, n: nat, p: int)
    requires Run(run, events) && n < |run| && !run[n].overflowed
    ensures !run[n].phase.Dead?
    ensures p in run[n].kids && !run[n].phase.Forked? ==> Find(run[n].jobs, p) < |run[n].jobs|
  {
    hide IndexOf, Find, After, Enabled;
    RunInv(run, events, n);
  }

  /** A foreground job that found no slot: waitfg does not return, and reaping the child kills the shell. */
  lemma OverflowNeverReturns(run: seq<Shell>, events: seq<Event>, n: nat)
    requires Run(run, events) && n < |run| && run[n].phase.Waiting? && !run[n].phase.added
    ensures run[n].susp && !Enabled(run[n], Return)
    ensures forall k :: 0 <= k < |run[n].jobs| ==> run[n].jobs[k].state != FG
    ensures var reap := Reap(run[n].phase.pid); Enabled(run[n], reap) ==> After(run[n], reap).phase.Dead?
  {
    hide IndexOf, Find;
    RunInv(run, events, n);
    forall k | 0 <= k < MAX_JOBS ensures run[n].jobs[k].state != FG {
      assert SlotOk(run[n], k);
    }
  }

  /** The n-th of n background jobs started one after the other. */
  ghost predicate Filled(s: Shell, n: nat) {
    && |s.jobs| == MAX_JOBS && s.phase.Prompt? && !s.handling && n <= MAX_JOBS
    && (forall k :: 0 <= k < n ==> s.jobs[k].pid == k + 1)
    && (forall k :: n <= k < MAX_JOBS ==> s.jobs[k].pid == 0)
    && (forall p :: p in s.kids ==> 1 <= p <= n)
  }

  lemma AppendStep(run: seq<Shell>, events: seq<Event>, e: Event) returns (run2: seq<Shell>, events2: seq<Event>)
    requires Run(run, events) && Enabled(run[|run| - 1], e)
    ensures Run(run2, events2) && run2[|run2| - 1] == After(run[|run| - 1], e)
  {
    hide Enabled, After;
    run2, events2 := run + [After(run[|run| - 1], e)], events + [e];
    forall i {:trigger events2[i]} | 0 <= i < |events2|
      ensures Enabled(run2[i], events2[i]) && run2[i + 1] == After(run2[i], events2[i])
    {
      assert i < |events| ==> events2[i] == events[i];
    }
  }

  lemma {:induction false} FillTable(n: nat) returns (run: seq<Shell>, events: seq<Event>)
    requires n <= MAX_JOBS
    ensures Run(run, events) && Filled(run[|run| - 1], n)
  {
    if n == 0 {
      run := [Shell(seq(MAX_JOBS, _ => CLEARED), 1, false, Prompt, map[], false, false, false)];
      events := [];
    } else {
      run, events := FillTable(n - 1);
      IndexIs(run[|run| - 1].jobs, 0, n - 1);
      run, events := AppendStep(run, events, Fork(n, true));
      run, events := AppendStep(run, events, Launch);
    }
  }

  /** Sixteen background jobs and one foreground job: waitfg sleeps on a job that is not in the table. */
  lemma SeventeenthJobStrands() returns (run: seq<Shell>, events: seq<Event>)
    ensures Run(run, events) && run[|run| - 1].phase == Waiting(17, false)
  {
    run, events := FillTable(MAX_JOBS);
    IndexIs(run[|run| - 1].jobs, 0, MAX_JOBS);
    run, events := AppendStep(run, events, Fork(17, false));
    run, events := AppendStep(run, events, Launch);
  }

  /** A launched foreground job is one the shell waits for properly exactly when the table had an empty slot. */
  lemma AddedExactly(run: seq<Shell>, events: seq<Event>, n: nat)
    requires Run(run, events) && n < |events| && events[n] == Launch && !run[n].phase.bg
    ensures run[n + 1].phase == Waiting(run[n].phase.pid, exists k :: 0 <= k < |run[n].jobs| && run[n].jobs[k].pid == 0)
  {
    hide IndexOf, Find;
    RunInv(run, events, n);
    assert Enabled(run[n], events[n]) && run[n + 1] == After(run[n], events[n]);
    EmptySlot(run[n].jobs);
  }

  lemma EmptySlot(jobs: seq<Job>)
    ensures IndexOf(jobs, 0) < |jobs| <==> exists k :: 0 <= k < |jobs| && jobs[k].pid == 0
  {
  }

  /** ctrl-c and ctrl-z reach the job waitfg sleeps on, or none. */
  lemma {:induction false} FgOfSlot(jobs: seq<Job>, p: int)
    requires forall k :: 0 <= k < |jobs| && jobs[k].state == FG ==> jobs[k].pid == p
    ensures FgOf(jobs) == if exists k :: 0 <= k < |jobs| && jobs[k].state == FG then p else 0
  {
    if jobs != [] {
      FgOfSlot(jobs[1..], p);
      assert forall k :: 0 < k < |jobs| ==> jobs[k] == jobs[1..][k - 1];
    }
  }

  lemma ForwardTarget(run: seq<Shell>, events: seq<Event>, n: nat)
    requires Run(run, events) && n < |run| && !run[n].phase.Dead?
    ensures var s := run[n];
            FgOf(s.jobs) == if s.phase.Waiting? && s.phase.added && s.susp then s.phase.pid else 0
  {
    hide IndexOf, Find, After, Enabled, FgOf;
    RunInv(run, events, n);
    var s := run[n];
    forall k | 0 <= k < MAX_JOBS && s.jobs[k].state == FG
      ensures s.phase.Waiting? && s.phase.pid == s.jobs[k].pid && s.phase.added && s.susp
    {
      assert SlotOk(s, k);
    }
    FgOfSlot(s.jobs, if s.phase.Waiting? then s.phase.pid else 0);
    if s.phase.Waiting? && s.phase.added && s.susp {
      NoLostWakeUp(run, events, n);
    }
  }
}
