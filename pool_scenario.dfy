/**
 * Short runs of the worker pool that pin down its observable behaviour:
 * saturation at the capacity, reuse of the newest idle worker, the
 * once-only Release, and putWorker ignoring the release signal.
 */
module WorkerPoolScenario {
  import opened Wrappers
  import opened WorkerPool

  /** With capacity 2 and no worker finishing, the first two submissions are taken and the third would block. */
  method Saturation() returns (first: Submission, second: Submission, third: Submission)
    ensures first == Accepted && second == Accepted && third == Blocked
  {
    var p := new Pool(2, DefaultExpire);
    ghost var taker;
    first, taker := p.Submit(Func(1));
    second, taker := p.Submit(Func(2));
    third, taker := p.Submit(Func(3));
  }

  /**
   * A worker that finished its task is back on the idle list and takes the
   * next task: the second of two tasks run one after the other lands in the
   * inbox of the worker that ran the first.
   */
  method SequentialReuse() returns (inbox: Option<Task>, idleLeft: nat)
    ensures inbox == Some(Func(2)) && idleLeft == 0
  {
    var p := new Pool(2, DefaultExpire);
    var got := p.GetWorker();
    var w := got.value;
    p.Assign(w, Func(1));
    w.RunOnce(5);
    ghost var taker;
    var r;
    r, taker := p.Submit(Func(2));
    inbox := w.inbox;
    idleLeft := |p.idle|;
  }

  /** Release, Restart, Release: the second Release is swallowed by the spent once-guard, so the pool stays open. */
  method ReleaseAfterRestart() returns (reopened: bool, closed: bool)
    ensures reopened && !closed
  {
    var p := new Pool(1, DefaultExpire);
    p.Release();
    var c := p.IsClosed();
    assert c;
    reopened := p.Restart();
    p.Release();
    closed := p.IsClosed();
  }

  /** A submission after Release is refused and leaves the counters alone. */
  method SubmitAfterRelease() returns (r: Submission, running: int)
    ensures r == Rejected && running == 0
  {
    var p := new Pool(1, DefaultExpire);
    p.Release();
    ghost var taker;
    r, taker := p.Submit(Func(1));
    running := p.running;
  }

  /** putWorker does not look at the release signal: a worker coming back after Release lands on the idle list. */
  method PutAfterRelease() returns (closed: bool, idleCount: nat)
    ensures closed && idleCount == 1
  {
    var p := new Pool(1, DefaultExpire);
    var got := p.GetWorker();
    p.Release();
    p.PutWorker(got.value, 1);
    closed := p.IsClosed();
    idleCount := |p.idle|;
  }

  /**
   * One reaper tick at time 10 with expiry 3 over workers idle since 2, 5
   * and 8: the two older ones are signalled and cut off, the newest stays.
   */
  method ReapTwoOfThree() returns (removed: nat, left: nat)
    ensures removed == 2 && left == 1
  {
    var p, a, b, c := ThreeIdle();
    assert p.IdleTimes() == [2, 5, 8];
    assert [2, 5, 8][1..] == [5, 8] && [5, 8][1..] == [8];
    removed := p.ExpireWorkers(10);
    left := |p.idle|;
  }

  /** A pool with expiry 3 whose three workers each ran one task and went idle at times 2, 5 and 8. */
  method ThreeIdle() returns (p: Pool, a: Worker, b: Worker, c: Worker)
    ensures fresh(p) && p.Valid() && p.expire == 3 && p.reaping && !p.released
    ensures p.idle == [a, b, c] && a.lastTime == 2 && b.lastTime == 5 && c.lastTime == 8
  {
    p, a, b, c := ThreeBusy();
    a.RunOnce(2);
    b.RunOnce(5);
    c.RunOnce(8);
  }

  /** A fresh pool of capacity 3 and expiry 3 with three workers each holding a task. */
  method ThreeBusy() returns (p: Pool, a: Worker, b: Worker, c: Worker)
    ensures fresh(p) && p.Valid() && p.expire == 3 && p.reaping && !p.released
    ensures p.idle == [] && p.clock == 0 && p.busy == {a, b, c}
    ensures a.pool == p && b.pool == p && c.pool == p
    ensures a.inbox == Some(Func(1)) && b.inbox == Some(Func(2)) && c.inbox == Some(Func(3))
    ensures a.alive && b.alive && c.alive && a != b && b != c && a != c
  {
    p := new Pool(3, 3);
    a := Hire(p, 1);
    b := Hire(p, 2);
    c := Hire(p, 3);
  }

  /** A worker from GetWorker handed task `id`, the two halves of Submit. */
  method Hire(p: Pool, id: nat) returns (w: Worker)
    requires p.Valid() && p.idle == [] && p.running < p.cap
    modifies p
    ensures p.Valid() && fresh(w) && w.pool == p && w.alive && w.inbox == Some(Func(id)) && w in p.busy
    ensures p.idle == [] && p.running == old(p.running) + 1 && p.clock == old(p.clock) && p.busy == old(p.busy) + {w}
    ensures p.released == old(p.released) && p.reaping == old(p.reaping)
  {
    var got := p.GetWorker();
    w := got.value;
    p.Assign(w, Func(id));
  }
}
