/** The server pool of pool.go as a sequential system. The `ready` channel
    is a bounded FIFO of indices into the fixed server list; a receive on an
    empty channel, which would block, is reported as no server. The random
    offsets `fill` draws are given to it, one per round. Nothing ever puts a
    taken server back: refills come only from `fill`. */
module Pools {
  import opened Outcomes
  import opened Text
  import opened Net
  import Dns

  /** One upstream server; its creation and last-use times are not modelled. */
  datatype Server = Server(ip: IP, queriesCount: nat)

  /** `servers` never changes after construction except for the query
      counters; `ready` lists the indices waiting in the channel, oldest
      first; `capacity` is the channel's buffer size. */
  datatype Pool = Pool(servers: seq<Server>, ready: seq<nat>, capacity: nat, rate: nat)

  /** The two configuration panics of `NewPool`. */
  datatype PoolError = NonPositiveRate(rate: int) | EmptyIps

  function PanicText(e: PoolError): string
  {
    match e
    case NonPositiveRate(rate) => "rate is " + (if rate < 0 then "-" + Decimal(-rate) else Decimal(rate))
    case EmptyIps => "empty ips"
  }

  /** What every pool built by `NewPool` satisfies and every operation keeps. */
  predicate Valid(p: Pool)
  {
    && |p.servers| > 0
    && p.rate > 0
    && p.rate * |p.servers| <= p.capacity
    && |p.ready| <= p.capacity
    && forall i :: 0 <= i < |p.ready| ==> p.ready[i] < |p.servers|
  }

  /** The server list of `q` is the one of `p`, address for address. */
  predicate SameServers(p: Pool, q: Pool)
  {
    |q.servers| == |p.servers| && forall i :: 0 <= i < |p.servers| ==> q.servers[i].ip == p.servers[i].ip
  }

  /** `count` slots dealt round-robin over `n` servers: slot `i` goes to
      server `i mod n`. */
  function RoundRobin(count: nat, n: nat): (s: seq<nat>)
    requires n > 0
    ensures |s| == count && forall i :: 0 <= i < count ==> s[i] == i % n
  {
    seq(count, i requires 0 <= i < count => i % n)
  }

  /** `NewPool(ips, rate, capacity)`: refuses a non-positive rate, then an
      empty address list; otherwise the buffer holds at least `rate` slots
      per server and starts with `rate * n` slots dealt round-robin. */
  function NewPool(ips: seq<IP>, rate: int, capacity: int): (r: Result<Pool, PoolError>)
    ensures rate <= 0 ==> r == Err(NonPositiveRate(rate))
    ensures rate > 0 && |ips| == 0 ==> r == Err(EmptyIps) && PanicText(r.error) == "empty ips"
    ensures r.Ok? <==> rate > 0 && |ips| > 0
    ensures r.Ok? ==>
              && Valid(r.value)
              && r.value.rate == rate
              && r.value.capacity == Max(capacity, rate * |ips|)
              && |r.value.servers| == |ips|
              && (forall i :: 0 <= i < |ips| ==> r.value.servers[i] == Server(ips[i], 0))
              && |r.value.ready| == rate * |ips|
              && (forall i :: 0 <= i < |r.value.ready| ==> r.value.ready[i] == i % |ips|)
  {
    if rate <= 0 then Err(NonPositiveRate(rate))
    else if |ips| == 0 then Err(EmptyIps)
    else
      var n := |ips|;
      var mincap := rate * n;
      var cap := if capacity < mincap then mincap else capacity;
      var servers := seq(n, i requires 0 <= i < n => Server(ips[i], 0));
      Ok(Pool(servers, RoundRobin(mincap, n), cap, rate))
  }

  /** The server indices `0 .. n-1` in order. */
  function Iota(n: nat): (s: seq<nat>)
    ensures |s| == n && forall i :: 0 <= i < n ==> s[i] == i
  {
    seq(n, i requires 0 <= i < n => i)
  }

  /** Each server index occurs once in `Iota(n)`. */
  lemma {:induction false} IotaOnce(n: nat, j: nat)
    ensures multiset(Iota(n))[j] == if j < n then 1 else 0
  {
    if n > 0 {
      assert Iota(n) == Iota(n - 1) + [n - 1];
      IotaOnce(n - 1, j);
    }
  }

  lemma {:induction false} MulAtLeast(a: int, n: int)
    requires a >= 1 && n >= 1
    ensures a * n >= n
  {
    if a > 1 {
      MulAtLeast(a - 1, n);
      assert a * n == (a - 1) * n + n;
    }
  }

  /** Adding whole multiples of `n` does not change the remainder. */
  lemma ModOffset(q: nat, n: nat, i: nat)
    requires 0 <= i < n
    ensures (q * n + i) % n == i
  {
    var x := q * n + i;
    var d := x / n;
    var m := x % n;
    assert d * n + m == x;
    if d > q {
      MulAtLeast(d - q, n);
    } else if d < q {
      MulAtLeast(q - d, n);
    }
  }

  lemma MulSucc(a: nat, n: nat)
    ensures (a + 1) * n == a * n + n
  {
  }

  /** Dealing `a + 1` rounds deals `a` rounds and then every server once. */
  lemma RoundRobinBlock(a: nat, n: nat)
    requires n > 0
    ensures RoundRobin((a + 1) * n, n) == RoundRobin(a * n, n) + Iota(n)
  {
    var m := a * n;
    MulSucc(a, n);
    var all := RoundRobin(m + n, n);
    forall k | m <= k < m + n
      ensures all[k] == Iota(n)[k - m]
    {
      ModOffset(a, n, k - m);
    }
    assert all == RoundRobin(m, n) + Iota(n);
  }

  /** After construction every server has exactly `rate` slots in the buffer. */
  lemma {:induction false} RoundRobinFair(rate: nat, n: nat, j: nat)
    requires n > 0
    ensures multiset(RoundRobin(rate * n, n))[j] == if j < n then rate else 0
  {
    if rate > 0 {
      RoundRobinBlock(rate - 1, n);
      RoundRobinFair(rate - 1, n, j);
      IotaOnce(n, j);
    }
  }

  /** In a pool fresh from `NewPool`, each server occurs `rate` times in the
      buffer and nothing else does. */
  lemma NewPoolFair(ips: seq<IP>, rate: int, capacity: int, j: nat)
    requires NewPool(ips, rate, capacity).Ok?
    ensures multiset(NewPool(ips, rate, capacity).value.ready)[j] == if j < |ips| then rate else 0
  {
    RoundRobinFair(rate, |ips|, j);
  }

  /** `Take`: the oldest slot leaves the buffer and names the server handed
      out; an empty buffer would block, which is reported as `None`. */
  datatype Taken = Taken(server: nat, pool: Pool)

  function Take(p: Pool): (r: Option<Taken>)
    ensures r.None? <==> |p.ready| == 0
    ensures r.Some? ==> [r.value.server] + r.value.pool.ready == p.ready
    ensures r.Some? ==> r.value.pool == p.(ready := r.value.pool.ready)
    ensures r.Some? && Valid(p) ==> Valid(r.value.pool) && r.value.server < |p.servers|
  {
    if |p.ready| == 0 then None
    else Some(Taken(p.ready[0], p.(ready := p.ready[1..])))
  }

  /** The slots one round of `fill` offers: every server once, starting at
      server `off` and wrapping around. */
  function Rotation(off: nat, n: nat): (s: seq<nat>)
    requires n > 0
    ensures |s| == n && forall j :: 0 <= j < n ==> s[j] == (off + j) % n
  {
    seq(n, j requires 0 <= j < n => (off + j) % n)
  }

  /** The slots `fill` offers over all its rounds, one rotation per offset. */
  function Schedule(offs: seq<nat>, n: nat): (s: seq<nat>)
    requires n > 0
    ensures |s| == |offs| * n
    ensures forall i :: 0 <= i < |s| ==> s[i] < n
  {
    if |offs| == 0 then []
    else Schedule(offs[..|offs| - 1], n) + Rotation(offs[|offs| - 1], n)
  }

  /** At most the first `room` elements of `s`. */
  function Clip(s: seq<nat>, room: int): seq<nat>
  {
    s[..Max(0, Min(|s|, room))]
  }

  /** Clipping one more element appends it exactly while there is room. */
  lemma ClipStep(s: seq<nat>, x: nat, room: int)
    ensures Clip(s + [x], room) == Clip(s, room) + (if |s| < room then [x] else [])
  {
    if |s| < room {
      assert Clip(s + [x], room) == s + [x];
    }
  }

  /** Clipping a concatenation clips the second part to what the first
      left over. */
  lemma ClipConcat(a: seq<nat>, b: seq<nat>, room: int)
    ensures Clip(a + b, room) == Clip(a, room) + Clip(b, room - |a|)
  {
    if room >= |a| {
      assert (a + b)[..Max(0, Min(|a + b|, room))] == a + b[..Max(0, Min(|b|, room - |a|))];
    }
  }

  /** A round offered to a buffer already holding the clipped earlier
      rounds clips the rounds together. */
  lemma FillStep(start: seq<nat>, done: seq<nat>, next: seq<nat>, capacity: nat)
    requires |start| <= capacity
    ensures var ready := start + Clip(done, capacity - |start|);
            |ready| <= capacity &&
            ready + Clip(next, capacity - |ready|) == start + Clip(done + next, capacity - |start|)
  {
    var room := capacity - |start|;
    ClipConcat(done, next, room);
    if |done| > room {
      assert Clip(next, room - |done|) == [];
    }
  }

  /** One round of `fill`: every server offered once, from server `off` on,
      each offer dropped when the buffer is full. */
  method Round(ready: seq<nat>, capacity: nat, off: nat, n: nat) returns (r: seq<nat>)
    requires n > 0 && |ready| <= capacity
    ensures r == ready + Clip(Rotation(off, n), capacity - |ready|)
  {
    r := ready;
    var j := 0;
    while j < n
      invariant 0 <= j <= n
      invariant r == ready + Clip(Rotation(off, n)[..j], capacity - |ready|)
    {
      assert Rotation(off, n)[..j + 1] == Rotation(off, n)[..j] + [(off + j) % n];
      ClipStep(Rotation(off, n)[..j], (off + j) % n, capacity - |ready|);
      if |r| < capacity {
        r := r + [(off + j) % n];
      }
      j := j + 1;
    }
    assert Rotation(off, n)[..n] == Rotation(off, n);
  }

  /** `fill`: `rate` rounds, each offering every server once from a random
      offset; an offer to a full buffer is dropped. Entries already waiting
      stay, in order, and the buffer never outgrows its capacity. */
  method Fill(p: Pool, offs: seq<nat>) returns (q: Pool)
    requires Valid(p)
    requires |offs| == p.rate
    requires forall i :: 0 <= i < |offs| ==> offs[i] < |p.servers|
    ensures q.servers == p.servers && q.capacity == p.capacity && q.rate == p.rate
    ensures Valid(q)
    ensures q.ready == p.ready + Clip(Schedule(offs, |p.servers|), p.capacity - |p.ready|)
    ensures |q.ready| == Min(p.capacity, |p.ready| + p.rate * |p.servers|)
  {
    var n := |p.servers|;
    var room := p.capacity - |p.ready|;
    var ready := p.ready;
    var i := 0;
    while i < p.rate
      invariant 0 <= i <= p.rate
      invariant ready == p.ready + Clip(Schedule(offs[..i], n), room)
    {
      assert offs[..i + 1][..i] == offs[..i];
      FillStep(p.ready, Schedule(offs[..i], n), Rotation(offs[i], n), p.capacity);
      ready := Round(ready, p.capacity, offs[i], n);
      i := i + 1;
    }
    assert offs[..p.rate] == offs;
    q := p.(ready := ready);
  }

  /** One round offers every server exactly once. */
  lemma RotationOnce(off: nat, n: nat, j: nat)
    requires n > 0 && off < n
    ensures multiset(Rotation(off, n))[j] == if j < n then 1 else 0
  {
    var r := Rotation(off, n);
    var a := Iota(n);
    assert r == a[off..] + a[..off] by {
      forall k | 0 <= k < n
        ensures r[k] == (a[off..] + a[..off])[k]
      {
        if off + k < n {
          ModOffset(0, n, off + k);
        } else {
          ModOffset(1, n, off + k - n);
        }
      }
    }
    assert a == a[..off] + a[off..];
    IotaOnce(n, j);
  }

  /** When the buffer has room for all of it, a fill gives every server
      exactly `rate` more slots. */
  lemma {:induction false} ScheduleFair(offs: seq<nat>, n: nat, j: nat)
    requires n > 0
    requires forall i :: 0 <= i < |offs| ==> offs[i] < n
    ensures multiset(Schedule(offs, n))[j] == if j < n then |offs| else 0
  {
    if |offs| > 0 {
      ScheduleFair(offs[..|offs| - 1], n, j);
      RotationOnce(offs[|offs| - 1], n, j);
    }
  }

  /** The result of one `Server.Query` call: the pool with that server's
      counter advanced, and what the query returned. */
  datatype Queried = Queried(pool: Pool, reply: Result<seq<string>, Dns.QueryError>)

  /** `Server.Query` on server `i`: one query through `Dns.Query`, and the
      server's counter goes up by exactly one whether or not it failed;
      nothing else in the pool changes. */
  function ServerQuery(p: Pool, i: nat, name: string, qtype: string, exchange: Dns.Exchanger): (r: Queried)
    requires i < |p.servers|
    ensures r.pool.ready == p.ready && r.pool.capacity == p.capacity && r.pool.rate == p.rate
    ensures |r.pool.servers| == |p.servers|
    ensures r.pool.servers[i].ip == p.servers[i].ip
    ensures r.pool.servers[i].queriesCount == p.servers[i].queriesCount + 1
    ensures forall j :: 0 <= j < |p.servers| && j != i ==> r.pool.servers[j] == p.servers[j]
    ensures r.reply == Dns.Query(p.servers[i].ip, name, qtype, exchange)
    ensures Valid(p) ==> Valid(r.pool)
  {
    var s := p.servers[i];
    var reply := Dns.Query(s.ip, name, qtype, exchange);
    Queried(p.(servers := p.servers[i := s.(queriesCount := s.queriesCount + 1)]), reply)
  }
}
