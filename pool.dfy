/**
 * The bounded worker pool of pool/pool.go and pool/worker.go, as a sequential
 * state machine.
 *
 * A `Pool` keeps its idle workers in a sequence, oldest-idle first, reuses the
 * newest one from the tail, and counts the workers that hold a task in
 * `running`.  A `Worker` has a one-slot inbox and the time it last became idle.
 * The goroutines, the lock and the atomics are gone: each operation below is
 * one atomic step, time is an integer clock passed in by the caller, a channel
 * with capacity 1 is an `Option`, and the release channel is the `released`
 * flag.  The ghost set `busy` holds the workers that have a task in their
 * inbox; `created` counts the workers the pool has made.
 */
module WorkerPool {
  import opened Wrappers

  /** DefaultExpire: the idle expiry NewPool uses, in seconds. */
  const DefaultExpire := 3

  /** Largest value of Go's int32. */
  const MaxInt32 := 0x7FFF_FFFF

  /** A submitted unit of work: a closure, or nil (which a worker reads as its stop signal). */
  datatype Task = Nil | Func(id: nat)

  /** What a call to Submit comes to. */
  datatype Submission =
    | Accepted   // handed to a worker; `running` went up by one
    | Rejected   // the pool is released: "pool has bean released"
    | Blocked    // no idle worker and `running >= cap`: the caller spins until a worker finishes

  /** The two errors of NewTimePool. */
  datatype ConfigError = BadCap | BadExpire

  // ---------------------------------------------------------------- construction

  /** Go's int32(x): the low 32 bits of x, read in two's complement. */
  function Int32(x: int): (r: int)
    ensures -MaxInt32 - 1 <= r <= MaxInt32
    ensures (r - x) % 0x1_0000_0000 == 0
    ensures -MaxInt32 - 1 <= x <= MaxInt32 ==> r == x
  {
    var m := x % 0x1_0000_0000;
    if m > MaxInt32 then m - 0x1_0000_0000 else m
  }

  /**
   * NewTimePool's checks as written: `cap` is validated as an int and then
   * stored as int32(cap).  On success, the capacity and expiry the pool gets.
   */
  function ConfigAsWritten(cap: int, expire: int): (r: Result<(int, int), ConfigError>)
    ensures r.Failure? <==> cap <= 0 || expire <= 0
    ensures r.Failure? ==> r.error == if cap <= 0 then BadCap else BadExpire
    ensures r.Success? ==> && r.value.1 == expire
                           && -MaxInt32 - 1 <= r.value.0 <= MaxInt32
                           && (r.value.0 - cap) % 0x1_0000_0000 == 0
  {
    if cap <= 0 then Failure(BadCap)
    else if expire <= 0 then Failure(BadExpire)
    else Success((Int32(cap), expire))
  }

  /** A capacity of 2^32 passes the check and leaves the pool with capacity 0. */
  lemma CapWrapsToZero()
    ensures ConfigAsWritten(0x1_0000_0000, 1) == Success((0, 1))
  {
  }

  /**
   * NewTimePool's checks with the capacity range check the int32 field needs:
   * the error when a capacity is out of range, otherwise a valid expiry check.
   */
  function ValidateConfig(cap: int, expire: int): (r: Result<(int, int), ConfigError>)
    ensures r.Failure? <==> cap <= 0 || cap > MaxInt32 || expire <= 0
    ensures r.Failure? ==> r.error == if cap <= 0 || cap > MaxInt32 then BadCap else BadExpire
    ensures r.Success? ==> r.value == (cap, expire) && 0 < r.value.0 <= MaxInt32 && r.value.0 == Int32(cap)
  {
    if cap <= 0 || cap > MaxInt32 then Failure(BadCap)
    else if expire <= 0 then Failure(BadExpire)
    else Success((cap, expire))
  }

  /** The corrected check agrees with the one as written on every capacity int32 can hold. */
  lemma ValidateAgrees(cap: int, expire: int)
    requires cap <= MaxInt32
    ensures ValidateConfig(cap, expire) == ConfigAsWritten(cap, expire)
  {
  }

  // ---------------------------------------------------------------- the reaper's scan, on values

  /** Idle times in the order the reaper scans them: oldest first. */
  predicate Sorted(times: seq<int>)
  {
    forall i, j :: 0 <= i < j < |times| ==> times[i] <= times[j]
  }

  /** A worker idle since `t` has expired at `now` when it has been idle longer than `expire`. */
  predicate Expired(t: int, now: int, expire: int)
  {
    now - t > expire
  }

  /** How many idle workers one reaper tick removes: the length of the longest expired prefix. */
  function ExpiredCount(times: seq<int>, now: int, expire: int): (k: nat)
    ensures k <= |times|
    ensures forall i :: 0 <= i < k ==> Expired(times[i], now, expire)
    ensures k < |times| ==> !Expired(times[k], now, expire)
  {
    if times == [] || !Expired(times[0], now, expire) then 0
    else 1 + ExpiredCount(times[1..], now, expire)
  }

  /**
   * On a list sorted by idle time, the prefix the reaper trims is exactly the
   * set of expired workers: stopping at the first fresh one misses nothing.
   */
  lemma SortedTrimIsExact(times: seq<int>, now: int, expire: int)
    requires Sorted(times)
    ensures forall i :: 0 <= i < |times| ==> (i < ExpiredCount(times, now, expire) <==> Expired(times[i], now, expire))
  {
    var k := ExpiredCount(times, now, expire);
    forall i | k <= i < |times| ensures !Expired(times[i], now, expire) {
      assert times[k] <= times[i];
    }
  }

  /** Without the order the trim is not exact: a fresh worker in front hides an expired one behind it. */
  lemma UnsortedTrimMisses()
    ensures var times := [18, 0];
            !Sorted(times) && ExpiredCount(times, 20, 5) == 0 && Expired(times[1], 20, 5)
  {
    var times := [18, 0];
    assert !Expired(times[0], 20, 5);
    assert times[0] > times[1];
  }

  /** Appending a time no earlier than every other keeps the list sorted (putWorker with a monotone clock). */
  lemma AppendKeepsSorted(times: seq<int>, t: int)
    requires Sorted(times) && forall i :: 0 <= i < |times| ==> times[i] <= t
    ensures Sorted(times + [t])
  {
  }

  /** Taking a prefix (GetWorker's pop) or a suffix (the reaper's trim) keeps the list sorted. */
  lemma SliceKeepsSorted(times: seq<int>, lo: nat, hi: nat)
    requires Sorted(times) && lo <= hi <= |times|
    ensures Sorted(times[lo..hi])
  {
  }

  // ---------------------------------------------------------------- the objects

  /** The idle-since times of a list of workers, in list order. */
  function LastTimes(workers: seq<Worker>): (times: seq<int>)
    reads set w | w in workers
    ensures |times| == |workers| && forall i :: 0 <= i < |workers| ==> times[i] == workers[i].lastTime
  {
    seq(|workers|, i reads set w | w in workers requires 0 <= i < |workers| => workers[i].lastTime)
  }

  class Worker {
    /** The owning pool; Release sets it to nil for the workers that are idle at that moment. */
    var pool: Pool?
    /** The one-slot task channel: at most one pending task or stop signal. */
    var inbox: Option<Task>
    /** When the worker last went back to the idle list. */
    var lastTime: int
    /** The worker's goroutine has not returned. */
    var alive: bool

    /** A new worker of pool `p`, with an empty one-slot inbox and its goroutine started. */
    constructor (p: Pool)
      ensures pool == p && inbox == None && lastTime == 0 && alive
    {
      pool := p;
      inbox := None;
      lastTime := 0;
      alive := true;
    }

    /**
     * One turn of the worker's `for f := range w.task` loop: take the item
     * from the inbox.  The stop signal ends the goroutine and touches nothing
     * in the pool.  A task is run, then the worker goes back to the tail of
     * the idle list stamped with `now`, then `running` goes down by one.
     */
    method RunOnce(now: int)
      requires inbox.Some? && alive && pool != null && pool.Valid() && now >= pool.clock
      requires inbox.value.Func? ==> this in pool.busy
      modifies this, pool
      ensures pool == old(pool) && inbox == None
      ensures old(inbox.value).Nil? ==>
                && !alive && lastTime == old(lastTime)
                && pool.idle == old(pool.idle) && pool.running == old(pool.running)
                && pool.busy == old(pool.busy) && pool.clock == old(pool.clock)
      ensures old(inbox.value).Func? ==>
                && alive && lastTime == now
                && pool.idle == old(pool.idle) + [this]
                && pool.running == old(pool.running) - 1
                && pool.busy == old(pool.busy) - {this}
                && pool.clock == now
      ensures pool.released == old(pool.released) && pool.onceDone == old(pool.onceDone)
      ensures pool.reaping == old(pool.reaping) && pool.created == old(pool.created)
      ensures pool.Valid()
    {
      var f := inbox.value;
      inbox := None;
      if f.Nil? {
        alive := false;
        return;
      }
      // f() runs here; what it does is outside the model.
      pool.Finish(this, now);
    }
  }

  class Pool {
    /** The idle workers, oldest-idle first. */
    var idle: seq<Worker>
    const cap: int
    /** Workers that were handed a task and have not yet come back. */
    var running: int
    const expire: int
    /** The release channel holds its signal. */
    var released: bool
    /** The sync.Once of Release has fired. */
    var onceDone: bool
    /** The reaper goroutine is still looping. */
    var reaping: bool
    /** The latest time a worker went idle. */
    ghost var clock: int
    /** Workers with a task in their inbox. */
    ghost var busy: set<Worker>
    /** How many workers the pool has made. */
    ghost var created: nat

    /**
     * The pool's invariant: live workers never exceed the capacity, the idle
     * list is duplicate-free and ordered by idle time, an idle worker belongs
     * to this pool and has an empty inbox, and a busy one holds a task.
     */
    ghost predicate Valid()
      reads this, (set w | w in idle), busy
    {
      Bounded() && IdleOk() && BusyOk()
    }

    /** Idle plus running workers never exceed the capacity; every busy worker is counted as running. */
    ghost predicate Bounded()
      reads this
    {
      && 0 < cap && 0 < expire
      && |idle| + running <= cap
      && |busy| <= running
    }

    /** The idle list: no worker twice, ordered by idle time, each one idle and owned by this pool. */
    ghost predicate IdleOk()
      reads this, set w | w in idle
    {
      && (forall i, j :: 0 <= i < j < |idle| ==> idle[i] != idle[j])
      && (forall i, j :: 0 <= i < j < |idle| ==> idle[i].lastTime <= idle[j].lastTime)
      && (forall w :: w in idle ==> w.pool == this && w.alive && w.inbox == None && w.lastTime <= clock)
    }

    /** Each busy worker is owned by this pool and has a task in its inbox. */
    ghost predicate BusyOk()
      reads this, busy
    {
      forall w :: w in busy ==> w.pool == this && w.alive && w.inbox.Some? && w.inbox.value.Func?
    }

    /** The idle workers' idle-since times, in list order. */
    function IdleTimes(): (times: seq<int>)
      reads this, set w | w in idle
      ensures |times| == |idle| && forall i :: 0 <= i < |idle| ==> times[i] == idle[i].lastTime
    {
      LastTimes(idle)
    }

    /** The struct literal of NewTimePool: no workers, nothing running, not released, the reaper started. */
    constructor (c: int, e: int)
      requires 0 < c && 0 < e
      ensures Valid() && cap == c && expire == e
      ensures idle == [] && running == 0 && !released && !onceDone && reaping
      ensures busy == {} && created == 0 && clock == 0
    {
      cap := c;
      expire := e;
      idle := [];
      running := 0;
      released := false;
      onceDone := false;
      reaping := true;
      clock := 0;
      busy := {};
      created := 0;
    }

    /** IsClosed: the release signal is set. */
    method IsClosed() returns (closed: bool)
      ensures closed == released
    {
      closed := released;
    }

    /** inRunning: one more worker counts as running. */
    method InRunning()
      modifies this`running
      ensures running == old(running) + 1
    {
      running := running + 1;
    }

    /** decRunning: one fewer worker counts as running. */
    method DecRunning()
      modifies this`running
      ensures running == old(running) - 1
    {
      running := running - 1;
    }

    /** putWorker: stamp the worker with `now` and append it to the idle list, released or not. */
    method PutWorker(w: Worker, now: int)
      modifies this`idle, this`clock, w`lastTime
      ensures w.lastTime == now && idle == old(idle) + [w] && clock == now
    {
      w.lastTime := now;
      idle := idle + [w];
      clock := now;
    }

    /**
     * The end of a worker's turn with a task: it leaves the busy set, goes
     * back to the tail of the idle list through putWorker, and `running` goes
     * down by one.
     */
    method Finish(w: Worker, now: int)
      requires Bounded() && IdleOk() && now >= clock
      requires w in busy && w !in idle && w.pool == this && w.alive && w.inbox == None
      requires forall v :: v in busy && v != w ==> v.pool == this && v.alive && v.inbox.Some? && v.inbox.value.Func?
      modifies this`busy, this`idle, this`clock, this`running, w`lastTime
      ensures Valid() && w.lastTime == now && clock == now
      ensures idle == old(idle) + [w] && running == old(running) - 1 && busy == old(busy) - {w}
    {
      busy := busy - {w};
      PutWorker(w, now);
      DecRunning();
    }

    /**
     * GetWorker: the newest idle worker, taken from the tail; otherwise a new
     * worker when fewer than `cap` are running; otherwise None, where the
     * source spins until another worker comes back.
     */
    method GetWorker() returns (w: Option<Worker>)
      requires Valid()
      modifies this`idle, this`created
      ensures Valid()
      ensures old(idle) != [] ==>
                w == Some(old(idle)[|old(idle)| - 1]) && idle == old(idle)[..|old(idle)| - 1]
                && created == old(created)
      ensures old(idle) == [] && running < cap ==>
                w.Some? && fresh(w.value) && idle == [] && created == old(created) + 1
      ensures old(idle) == [] && running >= cap ==> w == None && idle == [] && created == old(created)
      ensures w.Some? ==> w.value.pool == this && w.value.alive && w.value.inbox == None && w.value !in busy
      ensures w.Some? ==> w.value !in idle && |idle| + running < cap
    {
      var n := |idle| - 1;
      if n >= 0 {
        var last := idle[n];
        idle := idle[..n];
        SliceKeepsSorted(old(IdleTimes()), 0, n);
        assert IdleTimes() == old(IdleTimes())[..n];
        return Some(last);
      }
      if running < cap {
        var made := new Worker(this);
        created := created + 1;
        return Some(made);
      }
      return None;
    }

    /**
     * Submit: refused once released; otherwise the task goes into the inbox of
     * the worker GetWorker gives and `running` goes up by one.  `taker` is that
     * worker.
     */
    method Submit(task: Task) returns (r: Submission, ghost taker: Worker?)
      requires Valid()
      modifies this, if idle == [] then {} else {idle[|idle| - 1]}
      ensures Valid()
      ensures released == old(released) && onceDone == old(onceDone) && reaping == old(reaping)
      ensures old(released) ==> r == Rejected
      ensures !old(released) && old(idle) == [] && old(running) >= cap ==> r == Blocked
      ensures r != Accepted ==>
                idle == old(idle) && running == old(running) && busy == old(busy) && created == old(created)
      ensures !old(released) && (old(idle) != [] || old(running) < cap) ==>
                && r == Accepted && taker != null
                && taker.inbox == Some(task) && taker.pool == this
                && running == old(running) + 1
                && busy == (if task.Func? then old(busy) + {taker} else old(busy))
                && (old(idle) != [] ==>
                      taker == old(idle)[|old(idle)| - 1] && idle == old(idle)[..|old(idle)| - 1]
                      && created == old(created))
                && (old(idle) == [] ==> fresh(taker) && idle == [] && created == old(created) + 1)
    {
      taker := null;
      if released {
        return Rejected, taker;
      }
      var got := GetWorker();
      if got.None? {
        return Blocked, taker;
      }
      taker := got.value;
      Assign(got.value, task);
      r := Accepted;
    }

    /** The hand-over in Submit: the task goes into the worker's inbox and `running` goes up by one. */
    method Assign(w: Worker, task: Task)
      requires Valid() && w.pool == this && w.alive && w.inbox == None
      requires w !in busy && w !in idle && |idle| + running < cap
      modifies w`inbox, this`busy, this`running
      ensures Valid() && w.inbox == Some(task) && running == old(running) + 1
      ensures busy == if task.Func? then old(busy) + {w} else old(busy)
    {
      w.inbox := Some(task);
      if task.Func? {
        busy := busy + {w};
      }
      InRunning();
    }

    /**
     * The scan of one reaper tick over `workers`, oldest first: every worker
     * idle longer than `expire` gets the stop signal in its inbox, and the scan
     * ends at the first one that is not.  `n` is the index of the last worker
     * signalled, -1 when there is none.
     */
    method SignalExpired(workers: seq<Worker>, now: int) returns (n: int)
      requires forall i, j :: 0 <= i < j < |workers| ==> workers[i] != workers[j]
      modifies (set w | w in workers)`inbox
      ensures -1 <= n < |workers|
      ensures n + 1 == ExpiredCount(LastTimes(workers), now, expire)
      ensures forall j :: 0 <= j <= n ==> workers[j].inbox == Some(Nil)
      ensures forall j :: n < j < |workers| ==> workers[j].inbox == old(workers[j].inbox)
    {
      ghost var times := LastTimes(workers);
      n := -1;
      var i := 0;
      while i < |workers|
        modifies (set w | w in workers)`inbox
        invariant 0 <= i <= |workers| && n == i - 1
        invariant forall j :: 0 <= j < i ==> Expired(times[j], now, expire) && workers[j].inbox == Some(Nil)
        invariant forall j :: i <= j < |workers| ==> workers[j].inbox == old(workers[j].inbox)
      {
        if now - workers[i].lastTime <= expire {
          break;
        }
        n := i;
        workers[i].inbox := Some(Nil);
        i := i + 1;
      }
      ExpiredCountIs(times, now, expire, i);
    }

    /**
     * One tick of the reaper.  Once the release signal is seen the reaper
     * stops for good; otherwise the idle workers are scanned from the oldest,
     * each one idle longer than `expire` is sent the stop signal, the scan ends
     * at the first one that is not, and the signalled prefix is cut off.
     */
    method ExpireWorkers(now: int) returns (removed: nat)
      requires Valid()
      modifies this`idle, this`reaping, (set w | w in idle)`inbox
      ensures Valid()
      ensures !old(reaping) || old(released) ==> removed == 0 && idle == old(idle)
      ensures reaping == (old(reaping) && !old(released))
      ensures removed == (if reaping then ExpiredCount(old(IdleTimes()), now, expire) else 0)
      ensures idle == old(idle)[removed..]
      ensures forall i :: 0 <= i < removed ==> old(idle)[i].inbox == Some(Nil)
      ensures reaping ==> forall i :: 0 <= i < |old(idle)| ==> (i < removed <==> Expired(old(IdleTimes())[i], now, expire))
    {
      if !reaping {
        return 0;
      }
      if released {
        reaping := false;
        return 0;
      }
      IdleSorted();
      SortedTrimIsExact(IdleTimes(), now, expire);
      removed := Reap(now);
    }

    /** The idle list of a valid pool is ordered by idle time. */
    lemma IdleSorted()
      requires Valid()
      ensures Sorted(IdleTimes())
    {
      var times := IdleTimes();
      forall i, j | 0 <= i < j < |times| ensures times[i] <= times[j] {
        assert idle[i].lastTime <= idle[j].lastTime;
      }
    }

    /** The scan and trim of one reaper tick that has not seen the release signal. */
    method Reap(now: int) returns (removed: nat)
      requires Valid()
      modifies this`idle, (set w | w in idle)`inbox
      ensures Valid()
      ensures removed == ExpiredCount(old(IdleTimes()), now, expire)
      ensures idle == old(idle)[removed..]
      ensures forall i :: 0 <= i < removed ==> old(idle)[i].inbox == Some(Nil)
    {
      var workers := idle;
      ghost var times := IdleTimes();
      assert forall w :: w in busy ==> w !in workers;
      var n := SignalExpired(workers, now);
      assert BusyOk() by {
        forall w | w in busy ensures w.inbox == old(w.inbox) {
          assert w !in workers;
        }
      }
      removed := DropSignalled(workers, times, n);
    }

    /**
     * The trim after the scan: the idle list loses its first `n + 1` workers,
     * the ones that were sent the stop signal.
     */
    method DropSignalled(workers: seq<Worker>, ghost times: seq<int>, n: int) returns (removed: nat)
      requires -1 <= n < |workers| && idle == workers && Bounded() && BusyOk()
      requires forall i, j :: 0 <= i < j < |workers| ==> workers[i] != workers[j]
      requires Sorted(times) && |times| == |workers|
      requires forall i :: 0 <= i < |workers| ==> workers[i].lastTime == times[i]
      requires forall i :: n < i < |workers| ==>
                 workers[i].pool == this && workers[i].alive && workers[i].inbox == None && workers[i].lastTime <= clock
      modifies this`idle
      ensures removed == n + 1 && idle == workers[removed..] && Valid()
    {
      if n > -1 {
        if n >= |workers| - 1 {
          idle := workers[..0];
        } else {
          idle := workers[n + 1..];
        }
      }
      removed := n + 1;
      assert idle == workers[removed..];
      TrimKeepsIdleOk(workers, times, removed);
    }

    /** The idle list that is a suffix of a duplicate-free, time-ordered list of idle workers is well formed. */
    lemma TrimKeepsIdleOk(workers: seq<Worker>, times: seq<int>, k: nat)
      requires k <= |workers| && idle == workers[k..]
      requires forall i, j :: 0 <= i < j < |workers| ==> workers[i] != workers[j]
      requires Sorted(times) && |times| == |workers|
      requires forall i :: 0 <= i < |workers| ==> workers[i].lastTime == times[i]
      requires forall i :: k <= i < |workers| ==>
                 workers[i].pool == this && workers[i].alive && workers[i].inbox == None && workers[i].lastTime <= clock
      ensures IdleOk()
    {
      forall w | w in idle ensures w.pool == this && w.alive && w.inbox == None && w.lastTime <= clock {
        var j :| 0 <= j < |idle| && idle[j] == w;
        assert workers[k + j] == w;
      }
      forall i, j | 0 <= i < j < |idle| ensures idle[i] != idle[j] && idle[i].lastTime <= idle[j].lastTime {
        assert idle[i] == workers[k + i] && idle[j] == workers[k + j];
        assert times[k + i] <= times[k + j];
      }
    }

    /**
     * Release, guarded by its sync.Once: the first call cuts every idle worker
     * off from the pool, empties the idle list and sets the release signal;
     * later calls do nothing.  `running` is left alone.
     */
    method Release()
      requires Valid()
      modifies this`idle, this`released, this`onceDone, (set w | w in idle)`pool
      ensures Valid()
      ensures old(onceDone) ==> idle == old(idle) && released == old(released) && onceDone
      ensures !old(onceDone) ==>
                idle == [] && released && onceDone && forall w :: w in old(idle) ==> w.pool == null
      ensures running == old(running) && busy == old(busy) && reaping == old(reaping)
    {
      if onceDone {
        return;
      }
      onceDone := true;
      var workers := idle;
      var i := 0;
      while i < |workers|
        modifies (set w | w in workers)`pool
        invariant 0 <= i <= |workers|
        invariant forall j :: 0 <= j < i ==> workers[j].pool == null
        invariant forall w :: w in busy ==> w.pool == this
      {
        workers[i].pool := null;
        i := i + 1;
      }
      idle := [];
      released := true;
    }

    /** Restart: drain the release signal if it is set; always true.  The once-guard stays fired. */
    method Restart() returns (ok: bool)
      modifies this`released
      ensures ok && !released
    {
      if !released {
        return true;
      }
      released := false;
      return true;
    }
  }

  /** The count ExpiredCount gives is the first index whose worker is not expired. */
  lemma {:induction false} ExpiredCountIs(times: seq<int>, now: int, expire: int, k: nat)
    requires k <= |times|
    requires forall j :: 0 <= j < k ==> Expired(times[j], now, expire)
    requires k < |times| ==> !Expired(times[k], now, expire)
    ensures ExpiredCount(times, now, expire) == k
  {
    if k > 0 {
      ExpiredCountIs(times[1..], now, expire, k - 1);
    }
  }

  /** NewTimePool, with the capacity range check of ValidateConfig. */
  method NewTimePool(cap: int, expire: int) returns (r: Result<Pool, ConfigError>)
    ensures r.Failure? <==> ValidateConfig(cap, expire).Failure?
    ensures r.Failure? ==> r.error == ValidateConfig(cap, expire).error
    ensures r.Success? ==>
              var p := r.value;
              && fresh(p) && p.Valid() && p.cap == cap && p.expire == expire
              && p.idle == [] && p.running == 0 && !p.released && p.reaping
  {
    var checked := ValidateConfig(cap, expire);
    if checked.Failure? {
      return Failure(checked.error);
    }
    var p := new Pool(cap, expire);
    return Success(p);
  }

  /** NewPool: NewTimePool with the default expiry. */
  method NewPool(cap: int) returns (r: Result<Pool, ConfigError>)
    ensures r.Failure? <==> cap <= 0 || cap > MaxInt32
    ensures r.Success? ==>
              var p := r.value;
              && fresh(p) && p.Valid() && p.cap == cap && p.expire == DefaultExpire
              && p.idle == [] && p.running == 0 && !p.released && p.reaping
  {
    r := NewTimePool(cap, DefaultExpire);
  }
}
