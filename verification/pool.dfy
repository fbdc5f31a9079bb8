/**
 * The connection pool (`ConnectionPool` in CommonConnectionPool.cpp): a FIFO
 * queue of idle handles and a count of every handle the pool owns, idle or
 * lent out. Each critical section of the source (startup, a borrow, the
 * release a lease's deleter performs, one step of the producer thread, one
 * pass of the reaper thread, shutdown, the statistics) is one method.
 *
 * The outside world is passed in: `now` is the reading of the clock, `dead`
 * the handles whose ping fails at this moment, `alive` whether a returned
 * handle still answers its ping, `connected` whether a new connection was
 * established.
 */
module Pool {
  import opened Text
  import opened Config

  /** A handle: which connection it is and when it last became idle. */
  datatype Conn = Conn(id: nat, aliveTime: nat)

  /** What a borrow hands back. */
  datatype Borrowed =
    | Leased(conn: Conn)   // a live handle, refreshed
    | TimedOut             // the queue stayed empty for the whole wait: nullptr
    | Drained              // every idle handle was dead and discarded: nullptr

  /** What the reaper's loop, as written, does to a queue and a count. */
  datatype ReapOutcome =
    | Reaped(queue: seq<Conn>, count: int)
    | FrontOfEmpty(count: int)   // `front()` was called on an empty queue

  predicate Distinct(q: seq<Conn>) {
    forall i, j :: 0 <= i < j < |q| ==> q[i].id != q[j].id
  }

  /** Handles further back became idle no earlier than those in front. */
  predicate SortedByAge(q: seq<Conn>) {
    forall i, j :: 0 <= i < j < |q| ==> q[i].aliveTime <= q[j].aliveTime
  }

  /**
   * The idle queue is well formed: no handle twice, oldest first, every
   * handle created before `nextId`, none of them lent out, none refreshed
   * after `clock`.
   */
  ghost predicate WellFormedQueue(q: seq<Conn>, leased: set<nat>, nextId: nat, clock: nat) {
    && Distinct(q) && SortedByAge(q)
    && (forall i :: 0 <= i < |q| ==> q[i].id < nextId && q[i].id !in leased && q[i].aliveTime <= clock)
  }

  /** What remains of a well-formed queue after popping from the front is well formed. */
  lemma SuffixWellFormed(q: seq<Conn>, leased: set<nat>, nextId: nat, clock: nat, i: nat)
    requires WellFormedQueue(q, leased, nextId, clock) && i <= |q|
    ensures WellFormedQueue(q[i..], leased, nextId, clock)
  {
    var r := q[i..];
    forall a, b | 0 <= a < b < |r|
      ensures r[a].id != r[b].id && r[a].aliveTime <= r[b].aliveTime
    {
      assert r[a] == q[i + a] && r[b] == q[i + b];
    }
  }

  /**
   * A well-formed queue stays well formed when the clock moves on, more
   * identities are handed out, or the lent-out set changes to one that still
   * holds none of its handles.
   */
  lemma Reframe(q: seq<Conn>, leased: set<nat>, nextId: nat, clock: nat,
                leased': set<nat>, nextId': nat, clock': nat)
    requires WellFormedQueue(q, leased, nextId, clock)
    requires nextId <= nextId' && clock <= clock'
    requires forall i :: 0 <= i < |q| ==> q[i].id !in leased'
    ensures WellFormedQueue(q, leased', nextId', clock')
  {
  }

  /**
   * Lending out the first live handle, at position `k`, leaves a well-formed
   * queue behind it.
   */
  lemma LendWellFormed(q: seq<Conn>, leased: set<nat>, nextId: nat, clock: nat, k: nat, now: nat)
    requires WellFormedQueue(q, leased, nextId, clock) && k < |q| && clock <= now
    ensures WellFormedQueue(q[k + 1..], leased + {q[k].id}, nextId, now)
  {
    SuffixWellFormed(q, leased, nextId, clock, k + 1);
    var r := q[k + 1..];
    forall i | 0 <= i < |r|
      ensures r[i].id !in leased + {q[k].id}
    {
      assert r[i] == q[k + 1 + i];
    }
    Reframe(r, leased, nextId, clock, leased + {q[k].id}, nextId, now);
  }

  /** Pushing a handle refreshed now, and not already present, keeps the queue well formed. */
  lemma PushWellFormed(q: seq<Conn>, leased: set<nat>, nextId: nat, clock: nat, c: Conn)
    requires WellFormedQueue(q, leased, nextId, clock)
    requires c.id < nextId && c.id !in leased && clock <= c.aliveTime
    requires forall i :: 0 <= i < |q| ==> q[i].id != c.id
    ensures WellFormedQueue(q + [c], leased, nextId, c.aliveTime)
  {
    var r := q + [c];
    forall a, b | 0 <= a < b < |r|
      ensures r[a].id != r[b].id && r[a].aliveTime <= r[b].aliveTime
    {
      if b < |q| {
        assert r[a] == q[a] && r[b] == q[b];
      }
    }
  }

  /** A handle idle for at least `threshold` at time `now`. */
  predicate Stale(c: Conn, threshold: int, now: nat) {
    now - c.aliveTime >= threshold
  }

  /** How many handles at the front of `q` fail their ping. */
  function LeadingDead(q: seq<Conn>, dead: set<nat>): (k: nat)
    ensures k <= |q|
    ensures forall i :: 0 <= i < k ==> q[i].id in dead
    ensures k < |q| ==> q[k].id !in dead
    decreases |q|
  {
    if q == [] || q[0].id !in dead then 0 else 1 + LeadingDead(q[1..], dead)
  }

  /**
   * How many handles a reaper pass removes from the front of `q` when it may
   * remove at most `budget` of them (the excess of the count over the
   * initial size): it stops at the budget, at the end of the queue or at the
   * first handle that is not stale.
   */
  function LeadingStale(q: seq<Conn>, budget: int, threshold: int, now: nat): (k: nat)
    ensures k <= |q| && (k == 0 || k <= budget)
    ensures forall i :: 0 <= i < k ==> Stale(q[i], threshold, now)
    ensures k < |q| && k < budget ==> !Stale(q[k], threshold, now)
    decreases |q|
  {
    if budget <= 0 || q == [] || !Stale(q[0], threshold, now) then 0
    else 1 + LeadingStale(q[1..], budget - 1, threshold, now)
  }

  /** The stopping point LeadingStale describes is the only one. */
  lemma LeadingStaleAt(q: seq<Conn>, budget: int, threshold: int, now: nat, i: nat)
    requires i <= |q| && (i == 0 || i <= budget)
    requires forall j :: 0 <= j < i ==> Stale(q[j], threshold, now)
    requires i == |q| || i >= budget || !Stale(q[i], threshold, now)
    ensures LeadingStale(q, budget, threshold, now) == i
  {
  }

  /**
   * A reaper pass took queue `q` and count `c` to `q'` and `c'`: it removed
   * the handles LeadingStale counts from the front, one uncount each; the
   * count did not drop below `floor` unless it was there already; and if it
   * stayed above `floor`, no handle left is stale.
   */
  ghost predicate ReapedFrom(q: seq<Conn>, c: int, q': seq<Conn>, c': int, floor: int, threshold: int, now: nat) {
    var k := LeadingStale(q, c - floor, threshold, now);
    && q' == q[k..] && c' == c - k
    && (c' >= floor || c' == c)
    && (c' > floor ==> forall j :: 0 <= j < |q'| ==> !Stale(q'[j], threshold, now))
  }

  /**
   * Where a reaper pass that removed `i` stale handles from the front ends:
   * the queue left behind is well formed, `i` is the count LeadingStale
   * gives, and if the pass stopped short of its budget nothing left is stale.
   */
  lemma ReapedWellFormed(q: seq<Conn>, leased: set<nat>, nextId: nat, clock: nat,
                         c: int, floor: int, threshold: int, now: nat, i: nat)
    requires WellFormedQueue(q, leased, nextId, clock)
    requires i <= |q| && (i == 0 || i <= c - floor)
    requires forall j :: 0 <= j < i ==> Stale(q[j], threshold, now)
    requires i == |q| || i >= c - floor || !Stale(q[i], threshold, now)
    ensures WellFormedQueue(q[i..], leased, nextId, clock)
    ensures ReapedFrom(q, c, q[i..], c - i, floor, threshold, now)
  {
    var budget := c - floor;
    SuffixWellFormed(q, leased, nextId, clock, i);
    LeadingStaleAt(q, budget, threshold, now, i);
    FreshBehindFront(q, budget, threshold, now);
    if i < budget {
      forall j | 0 <= j < |q| - i
        ensures !Stale(q[i..][j], threshold, now)
      {
        assert q[i..][j] == q[i + j];
      }
    }
  }

  /**
   * In a queue sorted by age, once the reaper stops short of its budget no
   * handle left in the queue is stale: the front is the oldest.
   */
  lemma FreshBehindFront(q: seq<Conn>, budget: int, threshold: int, now: nat)
    requires SortedByAge(q)
    ensures var k := LeadingStale(q, budget, threshold, now);
      k < budget ==> forall j :: k <= j < |q| ==> !Stale(q[j], threshold, now)
  {
    var k := LeadingStale(q, budget, threshold, now);
    if k < budget && k < |q| {
      forall j | k <= j < |q|
        ensures !Stale(q[j], threshold, now)
      {
        assert q[k].aliveTime <= q[j].aliveTime;
      }
    }
  }

  /** The settings a pool keeps after loading ended as `load`. */
  function SettingsOf(load: LoadResult): (s: Settings)
    ensures load.Aborted? ==> s == Unset
    ensures !load.Aborted? ==> s == load.settings
  {
    match load
    case Aborted => Unset
    case Loaded(s) => s
    case Rejected(s) => s
  }

  /**
   * The reaper's inner loop exactly as written: while the count exceeds the
   * initial size it reads the front of the queue, with no check that the
   * queue holds anything. Handles that are lent out are in the count but not
   * in the queue, so the loop can run the queue dry and read the front of an
   * empty queue.
   */
  method ReapAsWritten(q: seq<Conn>, count: int, initSize: int, threshold: int, now: nat)
    returns (r: ReapOutcome)
    ensures var k := LeadingStale(q, count - initSize, threshold, now);
      r.FrontOfEmpty? <==> k == |q| && |q| < count - initSize
    ensures var k := LeadingStale(q, count - initSize, threshold, now);
      r.Reaped? ==> r.queue == q[k..] && r.count == count - k
  {
    var queue := q;
    var cnt := count;
    ghost var i := 0;
    while cnt > initSize
      invariant 0 <= i <= |q| && queue == q[i..] && cnt == count - i
      invariant i == 0 || i <= count - initSize
      invariant forall j :: 0 <= j < i ==> Stale(q[j], threshold, now)
      decreases |queue|
    {
      if queue == [] {
        return FrontOfEmpty(cnt);
      }
      var p := queue[0];
      if Stale(p, threshold, now) {
        queue := queue[1..];
        cnt := cnt - 1;
        i := i + 1;
      } else {
        break;
      }
    }
    r := Reaped(queue, cnt);
  }

  class ConnectionPool {
    /** How loading the configuration ended. */
    const load: LoadResult
    /** The fields loading left behind; `initSize` and `maxSize` never change afterwards. */
    const settings: Settings

    /** `_connectionQue`: the idle handles, oldest first. */
    var queue: seq<Conn>
    /** `_connectionCnt`: every handle the pool owns, idle or lent out. */
    var count: int
    /** The next identity `new Connection()` hands out. */
    var nextId: nat

    /** The handles lent out and not yet returned. */
    ghost var leased: set<nat>
    /** The latest clock reading an operation has seen. */
    ghost var clock: nat

    /** The threads were started: loading succeeded. */
    predicate Loaded() {
      load.Loaded?
    }

    /** The idle time at which the reaper removes a handle. */
    function Threshold(): int {
      settings.maxIdleTime * 1000
    }

    ghost predicate Valid()
      reads this
    {
      && settings == SettingsOf(load)
      && WellFormedQueue(queue, leased, nextId, clock)
      && (forall id :: id in leased ==> id < nextId)
      && count == |queue| + |leased|
      && (Loaded() ==> Acceptable(settings) && count <= settings.maxSize)
      && (!Loaded() ==> count == 0 && leased == {})
    }

    /**
     * Startup: the configuration is loaded, and only when that succeeds are
     * `initSize` handles created and queued. The result of `connect` is not
     * looked at; a failed connection throws out of startup instead, a path
     * this model does not follow.
     */
    constructor (file: Option<seq<string>>, now: nat)
      ensures Valid() && clock == now && leased == {}
      ensures load == Load(file) && settings == SettingsOf(load)
      ensures Loaded() ==> count == settings.initSize == |queue|
      ensures Loaded() ==> forall i :: 0 <= i < |queue| ==> queue[i] == Conn(i, now)
      ensures !Loaded() ==> queue == [] && count == 0
    {
      var r := LoadConfig(file);
      load := r;
      settings := SettingsOf(r);
      queue := [];
      count := 0;
      nextId := 0;
      leased := {};
      clock := now;
      new;
      if r.Loaded? {
        FillInitial(now);
      }
    }

    /**
     * The startup loop: `initSize` new handles, refreshed now and queued in
     * order, each counted once.
     */
    method FillInitial(now: nat)
      requires queue == [] && count == 0 && nextId == 0 && leased == {} && clock == now
      requires 0 <= settings.initSize
      modifies this
      ensures count == settings.initSize == |queue| == nextId
      ensures forall i :: 0 <= i < |queue| ==> queue[i] == Conn(i, now)
      ensures leased == {} && clock == now && WellFormedQueue(queue, leased, nextId, clock)
    {
      var i := 0;
      while i < settings.initSize
        invariant 0 <= i <= settings.initSize
        invariant |queue| == i == count == nextId
        invariant forall k :: 0 <= k < i ==> queue[k] == Conn(k, now)
        invariant leased == {} && clock == now
        invariant WellFormedQueue(queue, leased, nextId, clock)
      {
        Reframe(queue, leased, nextId, clock, leased, nextId + 1, clock);
        PushWellFormed(queue, leased, nextId + 1, clock, Conn(nextId, now));
        queue := queue + [Conn(nextId, now)];
        count := count + 1;
        nextId := nextId + 1;
        i := i + 1;
      }
    }

    /**
     * `getConnection`. An empty queue means the wait timed out: no lease,
     * nothing changes. Otherwise handles are popped from the front; each dead
     * one is discarded and uncounted, the first live one is refreshed and
     * lent out, and a queue that runs dry yields no lease.
     */
    method Borrow(dead: set<nat>, now: nat) returns (r: Borrowed)
      requires Valid() && clock <= now
      modifies this
      ensures Valid() && clock == now && nextId == old(nextId)
      ensures old(queue) == [] ==> r == TimedOut && queue == [] && count == old(count) && leased == old(leased)
      ensures old(queue) != [] ==> var k := LeadingDead(old(queue), dead);
        && queue == old(queue)[if k < |old(queue)| then k + 1 else k..]
        && count == old(count) - k
        && (k == |old(queue)| ==> r == Drained && leased == old(leased))
        && (k < |old(queue)| ==> r == Leased(Conn(old(queue)[k].id, now))
                                 && leased == old(leased) + {old(queue)[k].id})
    {
      if queue == [] {
        clock := now;
        return TimedOut;
      }
      ghost var q0 := queue;
      var i := 0;
      while queue != []
        invariant 0 <= i <= |q0| && queue == q0[i..] && count == old(count) - i
        invariant leased == old(leased) && clock == old(clock) && nextId == old(nextId)
        invariant forall j :: 0 <= j < i ==> q0[j].id in dead
        decreases |queue|
      {
        var c := queue[0];
        queue := queue[1..];
        if c.id !in dead {
          LendWellFormed(q0, leased, nextId, clock, i, now);
          leased := leased + {c.id};
          clock := now;
          return Leased(Conn(c.id, now));
        }
        count := count - 1;
        i := i + 1;
      }
      clock := now;
      r := Drained;
    }

    /**
     * The deleter of a lease: a handle that still answers its ping is
     * refreshed and queued at the back, the count unchanged; a dead one is
     * uncounted and not queued. Either way it is no longer lent out.
     */
    method Release(lease: Conn, alive: bool, now: nat)
      requires Valid() && clock <= now && lease.id in leased
      modifies this
      ensures Valid() && clock == now && nextId == old(nextId)
      ensures leased == old(leased) - {lease.id}
      ensures alive ==> queue == old(queue) + [Conn(lease.id, now)] && count == old(count)
      ensures !alive ==> queue == old(queue) && count == old(count) - 1
    {
      Reframe(queue, leased, nextId, clock, leased - {lease.id}, nextId, now);
      leased := leased - {lease.id};
      clock := now;
      if alive {
        PushWellFormed(queue, leased, nextId, clock, Conn(lease.id, now));
        queue := queue + [Conn(lease.id, now)];
      } else {
        count := count - 1;
      }
    }

    /**
     * One step of the producer thread: below `maxSize` a new connection is
     * attempted, and only one that connects is queued and counted.
     */
    method ProduceStep(connected: bool, now: nat)
      requires Valid() && Loaded() && clock <= now
      modifies this
      ensures Valid() && clock == now && leased == old(leased)
      ensures old(count) < settings.maxSize && connected ==>
        queue == old(queue) + [Conn(old(nextId), now)] && count == old(count) + 1
      ensures !(old(count) < settings.maxSize && connected) ==>
        queue == old(queue) && count == old(count)
    {
      Reframe(queue, leased, nextId, clock, leased, nextId + 1, now);
      clock := now;
      if count < settings.maxSize {
        if connected {
          PushWellFormed(queue, leased, nextId + 1, clock, Conn(nextId, now));
          queue := queue + [Conn(nextId, now)];
          count := count + 1;
          nextId := nextId + 1;
        }
      }
    }

    /**
     * One pass of the reaper thread: while the count exceeds `initSize` and
     * the queue is not empty, a stale front is removed and uncounted; the
     * pass stops at the first handle that is not stale.
     */
    method ReaperPass(now: nat)
      requires Valid() && Loaded() && clock <= now
      modifies this
      ensures Valid() && clock == now && leased == old(leased) && nextId == old(nextId)
      ensures ReapedFrom(old(queue), old(count), queue, count, settings.initSize, Threshold(), now)
    {
      Reframe(queue, leased, nextId, clock, leased, nextId, now);
      clock := now;
      var threshold := Threshold();
      ghost var q0 := queue;
      ghost var c0 := count;
      ghost var budget := count - settings.initSize;
      ghost var i := 0;
      while count > settings.initSize && queue != []
        invariant 0 <= i <= |q0| && queue == q0[i..] && count == old(count) - i
        invariant i == 0 || i <= budget
        invariant count == |queue| + |leased|
        invariant forall j :: 0 <= j < i ==> Stale(q0[j], threshold, now)
        invariant leased == old(leased) && clock == now && nextId == old(nextId)
        decreases |queue|
      {
        var p := queue[0];
        if Stale(p, threshold, now) {
          queue := queue[1..];
          count := count - 1;
          i := i + 1;
        } else {
          break;
        }
      }
      ReapedWellFormed(q0, leased, nextId, clock, c0, settings.initSize, threshold, now, i);
    }

    /**
     * The destructor: every idle handle is deleted and the count set to
     * zero. Handles still lent out are forgotten by the count, so the pool is
     * consistent afterwards only when none were.
     */
    method Shutdown()
      requires Valid()
      modifies this
      ensures queue == [] && count == 0
      ensures leased == old(leased) && nextId == old(nextId) && clock == old(clock)
      ensures old(leased) == {} ==> Valid()
    {
      while queue != []
        invariant leased == old(leased) && nextId == old(nextId) && clock == old(clock)
        decreases |queue|
      {
        queue := queue[1..];
      }
      count := 0;
    }

    /** `printStats`: the total count and the number of idle handles. */
    method Stats() returns (total: int, idle: nat)
      requires Valid()
      ensures total == count && idle == |queue|
      ensures total == idle + |leased|
      ensures Loaded() ==> idle <= total <= settings.maxSize
      ensures !Loaded() ==> total == 0
    {
      total := count;
      idle := |queue|;
    }
  }

  // ------------------------------------------------------------ scenarios

  /**
   * Borrowing a live front handle and handing it back alive restores the
   * count and the length of the queue; the handle rejoins at the back.
   */
  method BorrowThenRelease(p: ConnectionPool, dead: set<nat>, now: nat, later: nat) returns (r: Borrowed)
    requires p.Valid() && p.clock <= now <= later
    requires p.queue != [] && p.queue[0].id !in dead
    modifies p
    ensures p.Valid()
    ensures r.Leased? && p.count == old(p.count) && |p.queue| == |old(p.queue)|
    ensures p.queue == old(p.queue)[1..] + [Conn(old(p.queue)[0].id, later)]
  {
    r := p.Borrow(dead, now);
    p.Release(r.conn, true, later);
  }

  /**
   * Handles come back out of the idle queue in the order they went in: after
   * `a` and then `b` are returned, borrows with every handle alive serve the
   * handles that were already idle, in queue order, then `a`, leaving `b`.
   */
  method ReleasedFirstServedFirst(p: ConnectionPool, a: Conn, b: Conn, now: nat)
    returns (served: seq<Borrowed>, r: Borrowed)
    requires p.Valid() && p.clock <= now
    requires a.id in p.leased && b.id in p.leased && a.id != b.id
    modifies p
    ensures |served| == |old(p.queue)|
    ensures forall i :: 0 <= i < |served| ==> served[i] == Leased(Conn(old(p.queue)[i].id, now))
    ensures r == Leased(Conn(a.id, now)) && p.queue == [Conn(b.id, now)]
  {
    var idle := p.queue;
    p.Release(a, true, now);
    p.Release(b, true, now);
    served := [];
    while |served| < |idle|
      invariant p.Valid() && p.clock == now
      invariant |served| <= |idle|
      invariant p.queue == idle[|served|..] + [Conn(a.id, now), Conn(b.id, now)]
      invariant forall i :: 0 <= i < |served| ==> served[i] == Leased(Conn(idle[i].id, now))
      decreases |idle| - |served|
    {
      DropFront(idle, |served|, [Conn(a.id, now), Conn(b.id, now)]);
      assert LeadingDead(p.queue, {}) == 0;
      var x := p.Borrow({}, now);
      served := served + [x];
    }
    assert p.queue == [Conn(a.id, now), Conn(b.id, now)] && LeadingDead(p.queue, {}) == 0;
    r := p.Borrow({}, now);
  }

  lemma DropFront(idle: seq<Conn>, n: nat, tail: seq<Conn>)
    requires n < |idle|
    ensures (idle[n..] + tail)[0] == idle[n]
    ensures (idle[n..] + tail)[1..] == idle[n + 1..] + tail
  {
    assert (idle[n..] + tail)[1..] == idle[n..][1..] + tail;
  }

  /**
   * A pool right after startup with `initSize` 1 and `maxSize` 2: the
   * producer adds a second handle, two clients borrow both, and the
   * reaper's loop as written then reads the front of the empty queue,
   * because the count (2) still exceeds `initSize` (1).
   */
  method ReaperFaultScenario(p: ConnectionPool, now: nat) returns (r: ReapOutcome)
    requires p.Valid() && p.Loaded() && p.clock <= now
    requires p.settings.initSize == 1 && p.settings.maxSize == 2 && p.count == 1 && |p.queue| == 1
    modifies p
    ensures r.FrontOfEmpty? && p.count == 2 && p.queue == []
  {
    p.ProduceStep(true, now);
    var first := p.Borrow({}, now);
    var second := p.Borrow({}, now);
    r := ReapAsWritten(p.queue, p.count, p.settings.initSize, p.Threshold(), now);
  }

  /**
   * The same fault from startup: a configuration file naming host, user,
   * database, initial_size=1 and max_size=2 loads, the pool starts with one
   * handle, and the scenario above then drives the reaper's loop as written
   * onto the empty queue.
   */
  method StartupThenReaperFault(section: string, note: string, host: string, user: string, database: string,
                                now: nat)
    returns (r: ReapOutcome)
    requires WellFormedValue(host) && WellFormedValue(user) && WellFormedValue(database)
    requires host != [] && user != [] && database != []
    ensures r.FrontOfEmpty?
  {
    var file := RequiredFile(section, note, host, user, database, 1, 2);
    RequiredFileLoads(section, note, host, user, database, 1, 2);
    var p := new ConnectionPool(Some(file), now);
    r := ReaperFaultScenario(p, now);
  }
}
