/** The hierarchical timing wheel of `timewheel.c` / `timewheel.h`: five levels of
    buckets (256 + 4 x 64), bucket selection by bit slices of a 64-bit expiry, lazy
    cancellation through an `active` flag, cascading of the upper levels and firing in
    level 1.

    A node pointer becomes a node id handed out by the wheel; a bucket's linked list
    becomes a sequence whose head is index 0 (insertion pushes at the head). The clock
    read by `get_monotonic_ms` is an explicit `now`; `reAddTimer` reads the clock again,
    which is modelled as the `now` of the tick that calls it. Callbacks are not run by
    the wheel: the nodes that fire are returned in firing order. */
module TimeWheel {
  import opened Common

  const TvrBits: nat := 8
  const TvnBits: nat := 6
  /** Buckets in level 1 and in each of levels 2 to 5. */
  const TvrSize: nat := 256
  const TvnSize: nat := 64
  /** `MAX_SUPPORTED_DELAY` is `UINT32_MAX`. */
  const MaxSupportedDelay: nat := U32 - 1
  const LevelCount: nat := 5
  /** `Level` returns this when a delay exceeds every level. */
  const Rejected: nat := 5

  /** An opaque callback and its argument. */
  datatype Callback = Callback(func: nat, args: nat)

  /** A timer node; its `next` link is its position in the bucket. */
  datatype Node = Node(id: nat, cb: Callback, expire: u64, active: bool)

  /** Levels 1 to 5 are `levels[0]` to `levels[4]`. `nextId` numbers the nodes. */
  datatype Wheel = Wheel(levels: seq<seq<seq<Node>>>, time: u64, nextId: nat)

  /** The number of buckets of level `l` (0-based). */
  function Size(l: int): nat
  {
    if l == 0 then TvrSize else TvnSize
  }

  /** The milliseconds one bucket of level `l` stands for: 2 to the power 0, 8, 14, 20, 26. */
  function Unit(l: nat): nat
    requires l < LevelCount
  {
    if l == 0 then 1
    else if l == 1 then 0x100
    else if l == 2 then 0x4000
    else if l == 3 then 0x10_0000
    else 0x400_0000
  }

  /** The delays one level covers: 2 to the power 8, 14, 20, 26, 32. */
  function Capacity(l: nat): nat
    requires l < LevelCount
  {
    Unit(l) * Size(l)
  }

  predicate Shaped(w: Wheel)
  {
    |w.levels| == LevelCount && forall l :: 0 <= l < LevelCount ==> |w.levels[l]| == Size(l)
  }

  /** `initWheel`: every bucket empty, the time set to `now`. */
  function InitWheel(now: u64): (w: Wheel)
    ensures Shaped(w) && w.time == now && w.nextId == 0
    ensures forall l, b :: 0 <= l < LevelCount && 0 <= b < Size(l) ==> w.levels[l][b] == []
  {
    Wheel(seq(LevelCount, l => seq(Size(l), b => [])), now, 0)
  }

  /** The level a delay is stored in: the lowest whose capacity exceeds it, or `Rejected`
      when the delay is above `MAX_SUPPORTED_DELAY`. */
  function Level(delay: nat): (l: nat)
    ensures l <= Rejected
    ensures l < LevelCount ==> delay < Capacity(l)
    ensures 0 < l ==> delay >= Capacity(l - 1)
    ensures l == Rejected <==> delay > MaxSupportedDelay
  {
    if delay < TvrSize then 0
    else if delay < 0x4000 then 1
    else if delay < 0x10_0000 then 2
    else if delay < 0x400_0000 then 3
    else if delay <= MaxSupportedDelay then 4
    else Rejected
  }

  /** The bucket of level `l` for an expiry: the level's bit slice of the expiry,
      `expire & 0xFF` for level 1 and `(expire >> s) & 0x3F` for the others. */
  function Index(l: nat, expire: u64): (i: nat)
    requires l < LevelCount
    ensures i < Size(l)
    ensures l == 0 ==> i == expire % TvrSize
  {
    (expire / Unit(l)) % Size(l)
  }

  /** The unsigned 64-bit difference `expire - now`. */
  function Delay(expire: u64, now: u64): (d: u64)
    ensures expire >= now ==> d == expire - now
    ensures expire < now ==> d == U64 - (now - expire)
  {
    (expire - now) % U64
  }

  // ---------------------------------------------------------------------------
  // Bucket surgery

  /** `w` and `v` agree on every bucket except bucket `b` of level `l`. */
  ghost predicate OthersUnchanged(w: Wheel, v: Wheel, l: nat, b: nat)
    requires Shaped(w) && Shaped(v)
  {
    forall l2, b2 :: 0 <= l2 < LevelCount && 0 <= b2 < Size(l2) && (l2 != l || b2 != b) ==>
      v.levels[l2][b2] == w.levels[l2][b2]
  }

  function SetBucket(w: Wheel, l: nat, b: nat, ns: seq<Node>): (v: Wheel)
    requires Shaped(w) && l < LevelCount && b < Size(l)
    ensures Shaped(v) && v.time == w.time && v.nextId == w.nextId
    ensures v.levels[l][b] == ns
    ensures OthersUnchanged(w, v, l, b)
  {
    w.(levels := w.levels[l := w.levels[l][b := ns]])
  }

  /** `insertTimer`: push a node at the head of a bucket. */
  function Insert(w: Wheel, l: nat, b: nat, n: Node): (v: Wheel)
    requires Shaped(w) && l < LevelCount && b < Size(l)
    ensures Shaped(v) && v.time == w.time && v.nextId == w.nextId
    ensures v.levels[l][b] == [n] + w.levels[l][b]
    ensures OthersUnchanged(w, v, l, b)
  {
    SetBucket(w, l, b, [n] + w.levels[l][b])
  }

  // ---------------------------------------------------------------------------
  // Adding, cancelling, clearing

  datatype AddResult = AddResult(wheel: Wheel, node: Option<nat>, runNow: bool)

  /** `addNewTimer`: a zero delay runs the callback at once and creates nothing; a delay
      above `MAX_SUPPORTED_DELAY` creates nothing; otherwise an active node expiring at
      `now + delay` (64-bit wrap) is pushed onto the bucket its delay and expiry select. */
  function AddNewTimer(w: Wheel, cb: Callback, delay: u64, now: u64): (r: AddResult)
    requires Shaped(w)
    ensures Shaped(r.wheel) && r.wheel.time == w.time
    ensures r.runNow <==> delay == 0
    ensures r.node.None? <==> delay == 0 || delay > MaxSupportedDelay
    ensures r.node.None? ==> r.wheel == w
    ensures r.node.Some? ==>
              var l := Level(delay);
              var expire := (now + delay) % U64;
              var i := Index(l, expire);
              r.node.value == w.nextId && r.wheel.nextId == w.nextId + 1 &&
              r.wheel.levels[l][i] == [Node(w.nextId, cb, expire, true)] + w.levels[l][i] &&
              OthersUnchanged(w, r.wheel, l, i)
  {
    if delay == 0 then AddResult(w, None, true)
    else
      var l := Level(delay);
      if l == Rejected then AddResult(w, None, false)
      else
        var expire := (now + delay) % U64;
        var n := Node(w.nextId, cb, expire, true);
        var v := Insert(w, l, Index(l, expire), n);
        AddResult(v.(nextId := w.nextId + 1), Some(w.nextId), false)
  }

  /** `cancelTimer` applied to every node with the given id. */
  function CancelIn(ns: seq<Node>, id: nat): (r: seq<Node>)
    ensures |r| == |ns|
    ensures forall k :: 0 <= k < |r| ==>
              r[k].id == ns[k].id && r[k].cb == ns[k].cb && r[k].expire == ns[k].expire &&
              (r[k].active <==> ns[k].active && ns[k].id != id)
  {
    seq(|ns|, k requires 0 <= k < |ns| => if ns[k].id == id then ns[k].(active := false) else ns[k])
  }

  /** `cancelTimer`: clear the `active` flag of the node, which stays in its bucket;
      no node (a null pointer) changes nothing. */
  function Cancel(w: Wheel, t: Option<nat>): (v: Wheel)
    requires Shaped(w)
    ensures Shaped(v) && v.time == w.time && v.nextId == w.nextId
    ensures t.None? ==> v == w
    ensures t.Some? ==> forall l, b :: 0 <= l < LevelCount && 0 <= b < Size(l) ==>
              v.levels[l][b] == CancelIn(w.levels[l][b], t.value)
  {
    match t
    case None => w
    case Some(id) =>
      w.(levels := seq(LevelCount, l requires 0 <= l < LevelCount =>
                     seq(Size(l), b requires 0 <= b < Size(l) => CancelIn(w.levels[l][b], id))))
  }

  /** `clearTimeWheel`: every bucket emptied; the time is kept. */
  function ClearTimeWheel(w: Wheel): (v: Wheel)
    requires Shaped(w)
    ensures Shaped(v) && v.time == w.time && v.nextId == w.nextId
    ensures forall l, b :: 0 <= l < LevelCount && 0 <= b < Size(l) ==> v.levels[l][b] == []
  {
    InitWheel(w.time).(nextId := w.nextId)
  }

  // ---------------------------------------------------------------------------
  // Re-adding and cascading

  /** `reAddTimer`: an inactive node is freed; an active one is placed by its remaining
      delay `expire - now` (64-bit wrap), and freed when that exceeds the maximum. */
  function ReAdd(w: Wheel, n: Node, now: u64): (v: Wheel)
    requires Shaped(w)
    ensures Shaped(v) && v.time == w.time && v.nextId == w.nextId
    ensures !n.active || Level(Delay(n.expire, now)) == Rejected ==> v == w
    ensures n.active && Level(Delay(n.expire, now)) < LevelCount ==>
              var l := Level(Delay(n.expire, now));
              var i := Index(l, n.expire);
              v.levels[l][i] == [n] + w.levels[l][i] && OthersUnchanged(w, v, l, i)
  {
    if !n.active then w
    else
      var l := Level(Delay(n.expire, now));
      if l == Rejected then w else Insert(w, l, Index(l, n.expire), n)
  }

  /** Re-add a detached list, head first. */
  function ReAddAll(w: Wheel, ns: seq<Node>, now: u64): (v: Wheel)
    requires Shaped(w)
    ensures Shaped(v) && v.time == w.time && v.nextId == w.nextId
    decreases |ns|
  {
    if |ns| == 0 then w else ReAddAll(ReAdd(w, ns[0], now), ns[1..], now)
  }

  /** The 32-bit value of `round` for level `l` (1 to 4 here, levels 2 to 5 in the code):
      the product `256 * 64^l` is computed in `unsigned int` arithmetic. */
  function Round(l: nat): (r: nat)
    requires 1 <= l < LevelCount
    ensures r < U32
  {
    Capacity(l) % U32
  }

  /** `[a, b)` in ascending order. */
  function Range(a: nat, b: nat): (r: seq<nat>)
    ensures |r| == if a <= b then b - a else 0
    ensures forall i :: 0 <= i < |r| ==> r[i] == a + i
    ensures forall x :: x in r <==> a <= x < b
    decreases b - a
  {
    if a >= b then [] else [a] + Range(a + 1, b)
  }

  predicate Distinct(s: seq<nat>)
  {
    forall i, j :: 0 <= i < j < |s| ==> s[i] != s[j]
  }

  /** The buckets a level visits when time moves from slice `begin` to slice `end`: all of
      them when a whole round has passed; otherwise `begin + 1 .. end`, wrapping past the
      last bucket when `end < begin`. */
  function VisitOrder(begin: nat, end: nat, size: nat, full: bool): (r: seq<nat>)
    requires begin < size && end < size
    ensures Distinct(r)
    ensures forall i :: 0 <= i < |r| ==> r[i] < size
    ensures forall b :: b in r <==>
              if full then 0 <= b < size
              else if begin <= end then begin < b <= end
              else begin < b < size || 0 <= b <= end
  {
    if full then Range(0, size)
    else if begin <= end then Range(begin + 1, end + 1)
    else
      var lo := Range(begin + 1, size);
      var hi := Range(0, end + 1);
      assert forall i :: |lo| <= i < |lo + hi| ==> (lo + hi)[i] == hi[i - |lo|];
      lo + hi
  }

  /** Detach each bucket in `order` and re-add its nodes, one bucket after the other. */
  function Cascade(w: Wheel, l: nat, order: seq<nat>, now: u64): (v: Wheel)
    requires Shaped(w) && 1 <= l < LevelCount
    requires forall i :: 0 <= i < |order| ==> order[i] < Size(l)
    ensures Shaped(v) && v.time == w.time && v.nextId == w.nextId
    decreases |order|
  {
    if |order| == 0 then w
    else
      var b := order[0];
      var detached := SetBucket(w, l, b, []);
      Cascade(ReAddAll(detached, w.levels[l][b], now), l, order[1..], now)
  }

  /** Whether a level visits every bucket: `now - last >= round`. */
  predicate CascadesAll(l: nat, last: u64, now: u64)
    requires 1 <= l < LevelCount
  {
    (now - last) % U64 >= Round(l)
  }

  /** `cascadeLevel` for level `l + 1`. */
  function CascadeLevel(w: Wheel, l: nat, last: u64, now: u64): (v: Wheel)
    requires Shaped(w) && 1 <= l < LevelCount
    ensures Shaped(v) && v.time == w.time && v.nextId == w.nextId
  {
    var order := VisitOrder(Index(l, last), Index(l, now), Size(l), CascadesAll(l, last, now));
    Cascade(w, l, order, now)
  }

  // ---------------------------------------------------------------------------
  // Level 1

  datatype Split = Split(keep: seq<Node>, due: seq<Node>)

  /** One pass over a level-1 list: due nodes (`expire <= now`) are unlinked, the others
      stay in their order. */
  function SplitDue(ns: seq<Node>, now: u64): (s: Split)
    ensures |s.keep| + |s.due| == |ns|
    ensures forall n :: n in s.keep <==> n in ns && n.expire > now
    ensures forall n :: n in s.due <==> n in ns && n.expire <= now
  {
    if |ns| == 0 then Split([], [])
    else
      var t := SplitDue(ns[1..], now);
      assert ns == [ns[0]] + ns[1..];
      if ns[0].expire <= now then Split(t.keep, [ns[0]] + t.due)
      else Split([ns[0]] + t.keep, t.due)
  }

  /** The unlinked nodes whose callback runs: the active ones, in order. */
  function Active(ns: seq<Node>): (r: seq<Node>)
    ensures |r| <= |ns|
    ensures forall n :: n in r <==> n in ns && n.active
  {
    if |ns| == 0 then []
    else
      assert ns == [ns[0]] + ns[1..];
      (if ns[0].active then [ns[0]] else []) + Active(ns[1..])
  }

  datatype Expiry = Expiry(wheel: Wheel, fired: seq<Node>)

  /** Run the due nodes of each level-1 bucket in `order`. */
  function ExecBuckets(w: Wheel, order: seq<nat>, now: u64): (r: Expiry)
    requires Shaped(w) && Distinct(order)
    requires forall i :: 0 <= i < |order| ==> order[i] < TvrSize
    ensures Shaped(r.wheel) && r.wheel.time == w.time && r.wheel.nextId == w.nextId
    ensures forall k :: 0 <= k < |r.fired| ==> r.fired[k].active && r.fired[k].expire <= now
    decreases |order|
  {
    if |order| == 0 then Expiry(w, [])
    else
      var b := order[0];
      var s := SplitDue(w.levels[0][b], now);
      var fired := Active(s.due);
      assert forall k :: 0 <= k < |fired| ==> fired[k] in fired;
      var rest := ExecBuckets(SetBucket(w, 0, b, s.keep), order[1..], now);
      assert Distinct(order[1..]);
      Expiry(rest.wheel, fired + rest.fired)
  }

  /** Level 1 after a pass: a visited bucket keeps exactly its nodes that are not yet due,
      in order; unvisited buckets and the upper levels are untouched. */
  lemma {:induction false} ExecBucketsLevel1(w: Wheel, order: seq<nat>, now: u64)
    requires Shaped(w) && Distinct(order)
    requires forall i :: 0 <= i < |order| ==> order[i] < TvrSize
    ensures var v := ExecBuckets(w, order, now).wheel;
            (forall l, b :: 1 <= l < LevelCount && 0 <= b < Size(l) ==> v.levels[l][b] == w.levels[l][b]) &&
            (forall b :: 0 <= b < TvrSize && b !in order ==> v.levels[0][b] == w.levels[0][b]) &&
            (forall b :: 0 <= b < TvrSize && b in order ==> v.levels[0][b] == SplitDue(w.levels[0][b], now).keep)
    decreases |order|
  {
    if |order| > 0 {
      var b0 := order[0];
      var s := SplitDue(w.levels[0][b0], now);
      var u := SetBucket(w, 0, b0, s.keep);
      assert Distinct(order[1..]);
      ExecBucketsLevel1(u, order[1..], now);
      var v := ExecBuckets(w, order, now).wheel;
      assert v == ExecBuckets(u, order[1..], now).wheel;
      forall b | 0 <= b < TvrSize && b in order
        ensures v.levels[0][b] == SplitDue(w.levels[0][b], now).keep
      {
        if b != b0 {
          assert b in order[1..];
        } else {
          assert b0 !in order[1..];
        }
      }
    }
  }

  /** Conversely, every active due node of a visited bucket fires. */
  lemma {:induction false} ExecFiresEveryDueNode(w: Wheel, order: seq<nat>, now: u64)
    requires Shaped(w) && Distinct(order)
    requires forall i :: 0 <= i < |order| ==> order[i] < TvrSize
    ensures forall b, n :: b in order && n in w.levels[0][b] && n.active && n.expire <= now ==>
              n in ExecBuckets(w, order, now).fired
    decreases |order|
  {
    if |order| > 0 {
      var b0 := order[0];
      var s := SplitDue(w.levels[0][b0], now);
      var v := SetBucket(w, 0, b0, s.keep);
      assert Distinct(order[1..]);
      ExecFiresEveryDueNode(v, order[1..], now);
      var r := ExecBuckets(w, order, now);
      assert r.fired == Active(s.due) + ExecBuckets(v, order[1..], now).fired;
      forall b, n | b in order && n in w.levels[0][b] && n.active && n.expire <= now
        ensures n in r.fired
      {
        if b == b0 {
          assert n in s.due;
        } else {
          assert b in order[1..];
          assert v.levels[0][b] == w.levels[0][b];
        }
      }
    }
  }

  /** `execTimerL1`: level 1 visits every bucket when at least 256 ms passed, otherwise the
      buckets after `last`'s up to `now`'s. */
  function ExecL1(w: Wheel, last: u64, now: u64): (r: Expiry)
    requires Shaped(w)
    ensures Shaped(r.wheel) && r.wheel.time == w.time && r.wheel.nextId == w.nextId
    ensures forall k :: 0 <= k < |r.fired| ==> r.fired[k].active && r.fired[k].expire <= now
  {
    var order := VisitOrder(Index(0, last), Index(0, now), TvrSize, (now - last) % U64 >= TvrSize);
    ExecBuckets(w, order, now)
  }

  /** `expireTimer`: nothing when the clock has not advanced past the wheel's time;
      otherwise cascade levels 5, 4, 3 and 2, fire level 1, and move the time to `now`. */
  function ExpireTimer(w: Wheel, now: u64): (r: Expiry)
    requires Shaped(w)
    ensures Shaped(r.wheel) && r.wheel.nextId == w.nextId
    ensures now <= w.time ==> r == Expiry(w, [])
    ensures now > w.time ==> r.wheel.time == now
    ensures forall k :: 0 <= k < |r.fired| ==> r.fired[k].active && r.fired[k].expire <= now
  {
    if now <= w.time then Expiry(w, [])
    else
      var e := ExecL1(CascadeUpper(w, w.time, now), w.time, now);
      Expiry(e.wheel.(time := now), e.fired)
  }

  /** The first half of `expireTimer`: cascade levels 5, 4, 3 and 2, in that order. */
  function CascadeUpper(w: Wheel, last: u64, now: u64): (v: Wheel)
    requires Shaped(w)
    ensures Shaped(v) && v.time == w.time && v.nextId == w.nextId
  {
    var w5 := CascadeLevel(w, 4, last, now);
    var w4 := CascadeLevel(w5, 3, last, now);
    var w3 := CascadeLevel(w4, 2, last, now);
    CascadeLevel(w3, 1, last, now)
  }

  // ---------------------------------------------------------------------------
  // Properties

  /** The level-5 trap: `256 * 64^4` is 2^32, which wraps to 0 in 32-bit arithmetic, so
      `now - last >= round` always holds and level 5 re-adds every bucket on every tick.
      The lower levels' rounds are their true spans. */
  lemma Level5CascadesEverything(last: u64, now: u64)
    ensures Round(4) == 0 && CascadesAll(4, last, now)
    ensures forall l :: 1 <= l < 4 ==> Round(l) == Capacity(l)
    ensures forall b :: 0 <= b < TvnSize ==>
              b in VisitOrder(Index(4, last), Index(4, now), TvnSize, CascadesAll(4, last, now))
  {
  }

  /** The overdue trap: a node whose expiry already passed gets a remaining delay that
      wraps to nearly 2^64, above the maximum, so it is freed without ever firing. */
  lemma OverdueNodeIsDropped(w: Wheel, n: Node, now: u64)
    requires Shaped(w)
    requires n.expire < now && now - n.expire <= U64 - U32
    ensures ReAdd(w, n, now) == w
  {
  }

  /** Re-adding a freshly created node at the moment it was created puts it where
      `addNewTimer` put it: both use the same level rule. */
  lemma ReAddMatchesAdd(w: Wheel, cb: Callback, delay: u64, now: u64)
    requires Shaped(w) && 0 < delay <= MaxSupportedDelay
    ensures var r := AddNewTimer(w, cb, delay, now);
            ReAdd(w, Node(w.nextId, cb, (now + delay) % U64, true), now) == r.wheel.(nextId := w.nextId)
  {
    var expire := (now + delay) % U64;
    assert Delay(expire, now) == delay by {
      if now + delay < U64 {
        assert expire == now + delay;
      } else {
        assert expire == now + delay - U64;
      }
    }
  }

  /** Cancelling twice is cancelling once. */
  lemma CancelIdempotent(w: Wheel, t: Option<nat>)
    requires Shaped(w)
    ensures Cancel(Cancel(w, t), t) == Cancel(w, t)
  {
    if t.Some? {
      var v := Cancel(w, t);
      var u := Cancel(v, t);
      forall l | 0 <= l < LevelCount
        ensures u.levels[l] == v.levels[l]
      {
        forall b | 0 <= b < Size(l)
          ensures u.levels[l][b] == v.levels[l][b]
        {
          var x := u.levels[l][b];
          var y := v.levels[l][b];
          assert |x| == |y|;
          forall k | 0 <= k < |x|
            ensures x[k] == y[k]
          {
          }
        }
      }
    }
  }

  // ---------------------------------------------------------------------------
  // Nodes are only moved, deactivated or dropped

  ghost predicate All(ns: seq<Node>, P: Node -> bool)
  {
    forall k :: 0 <= k < |ns| ==> P(ns[k])
  }

  /** Every node in the wheel satisfies `P`. */
  ghost predicate Every(w: Wheel, P: Node -> bool)
    requires Shaped(w)
  {
    forall l, b :: 0 <= l < LevelCount && 0 <= b < Size(l) ==> All(w.levels[l][b], P)
  }

  lemma SetBucketEvery(w: Wheel, l: nat, b: nat, ns: seq<Node>, P: Node -> bool)
    requires Shaped(w) && l < LevelCount && b < Size(l)
    requires Every(w, P) && All(ns, P)
    ensures Every(SetBucket(w, l, b, ns), P)
  {
    var v := SetBucket(w, l, b, ns);
    forall l2, b2 | 0 <= l2 < LevelCount && 0 <= b2 < Size(l2)
      ensures All(v.levels[l2][b2], P)
    {
      if l2 != l || b2 != b {
        assert v.levels[l2][b2] == w.levels[l2][b2];
      }
    }
  }

  lemma ReAddEvery(w: Wheel, n: Node, now: u64, P: Node -> bool)
    requires Shaped(w) && Every(w, P) && P(n)
    ensures Every(ReAdd(w, n, now), P)
  {
    if n.active {
      var l := Level(Delay(n.expire, now));
      if l != Rejected {
        var i := Index(l, n.expire);
        SetBucketEvery(w, l, i, [n] + w.levels[l][i], P);
      }
    }
  }

  lemma {:induction false} ReAddAllEvery(w: Wheel, ns: seq<Node>, now: u64, P: Node -> bool)
    requires Shaped(w) && Every(w, P) && All(ns, P)
    ensures Every(ReAddAll(w, ns, now), P)
    decreases |ns|
  {
    if |ns| > 0 {
      ReAddEvery(w, ns[0], now, P);
      ReAddAllEvery(ReAdd(w, ns[0], now), ns[1..], now, P);
    }
  }

  lemma {:induction false} CascadeEvery(w: Wheel, l: nat, order: seq<nat>, now: u64, P: Node -> bool)
    requires Shaped(w) && 1 <= l < LevelCount && Every(w, P)
    requires forall i :: 0 <= i < |order| ==> order[i] < Size(l)
    ensures Every(Cascade(w, l, order, now), P)
    decreases |order|
  {
    if |order| > 0 {
      var b := order[0];
      var detached := SetBucket(w, l, b, []);
      SetBucketEvery(w, l, b, [], P);
      assert All(w.levels[l][b], P);
      ReAddAllEvery(detached, w.levels[l][b], now, P);
      CascadeEvery(ReAddAll(detached, w.levels[l][b], now), l, order[1..], now, P);
    }
  }

  lemma SplitDueAll(ns: seq<Node>, now: u64, P: Node -> bool)
    requires All(ns, P)
    ensures All(SplitDue(ns, now).keep, P) && All(Active(SplitDue(ns, now).due), P)
  {
    var s := SplitDue(ns, now);
    var a := Active(s.due);
    forall k | 0 <= k < |s.keep|
      ensures P(s.keep[k])
    {
      assert s.keep[k] in ns;
    }
    forall k | 0 <= k < |a|
      ensures P(a[k])
    {
      assert a[k] in s.due;
      assert a[k] in ns;
    }
  }

  lemma {:induction false} ExecBucketsEvery(w: Wheel, order: seq<nat>, now: u64, P: Node -> bool)
    requires Shaped(w) && Distinct(order) && Every(w, P)
    requires forall i :: 0 <= i < |order| ==> order[i] < TvrSize
    ensures Every(ExecBuckets(w, order, now).wheel, P) && All(ExecBuckets(w, order, now).fired, P)
    decreases |order|
  {
    if |order| > 0 {
      var b := order[0];
      var s := SplitDue(w.levels[0][b], now);
      assert All(w.levels[0][b], P);
      SplitDueAll(w.levels[0][b], now, P);
      SetBucketEvery(w, 0, b, s.keep, P);
      assert Distinct(order[1..]);
      ExecBucketsEvery(SetBucket(w, 0, b, s.keep), order[1..], now, P);
    }
  }

  lemma CascadeLevelEvery(w: Wheel, l: nat, last: u64, now: u64, P: Node -> bool)
    requires Shaped(w) && 1 <= l < LevelCount && Every(w, P)
    ensures Every(CascadeLevel(w, l, last, now), P)
  {
    CascadeEvery(w, l, VisitOrder(Index(l, last), Index(l, now), Size(l), CascadesAll(l, last, now)), now, P);
  }

  lemma ExecL1Every(w: Wheel, last: u64, now: u64, P: Node -> bool)
    requires Shaped(w) && Every(w, P)
    ensures Every(ExecL1(w, last, now).wheel, P) && All(ExecL1(w, last, now).fired, P)
  {
    ExecBucketsEvery(w, VisitOrder(Index(0, last), Index(0, now), TvrSize, (now - last) % U64 >= TvrSize), now, P);
  }

  /** Expiry never invents a node: a property every node of the wheel has still holds for
      every node afterwards and for every node that fires. */
  lemma ExpireTimerEvery(w: Wheel, now: u64, P: Node -> bool)
    requires Shaped(w) && Every(w, P)
    ensures Every(ExpireTimer(w, now).wheel, P) && All(ExpireTimer(w, now).fired, P)
  {
    if now > w.time {
      var last := w.time;
      var w5 := CascadeLevel(w, 4, last, now);
      CascadeLevelEvery(w, 4, last, now, P);
      var w4 := CascadeLevel(w5, 3, last, now);
      CascadeLevelEvery(w5, 3, last, now, P);
      var w3 := CascadeLevel(w4, 2, last, now);
      CascadeLevelEvery(w4, 2, last, now, P);
      CascadeLevelEvery(w3, 1, last, now, P);
      ExecL1Every(CascadeUpper(w, last, now), last, now, P);
    }
  }

  lemma AddNewTimerEvery(w: Wheel, cb: Callback, delay: u64, now: u64, P: Node -> bool)
    requires Shaped(w) && Every(w, P)
    requires P(Node(w.nextId, cb, (now + delay) % U64, true))
    ensures Every(AddNewTimer(w, cb, delay, now).wheel, P)
  {
    var l := Level(delay);
    if delay != 0 && l != Rejected {
      var expire := (now + delay) % U64;
      var i := Index(l, expire);
      SetBucketEvery(w, l, i, [Node(w.nextId, cb, expire, true)] + w.levels[l][i], P);
    }
  }

  /** A node is harmless for `id` when it is another node or no longer active. */
  predicate NotLive(id: nat, n: Node)
  {
    n.id != id || !n.active
  }

  lemma CancelEvery(w: Wheel, t: Option<nat>, P: Node -> bool)
    requires Shaped(w) && Every(w, P)
    requires forall n: Node :: P(n) ==> P(n.(active := false))
    ensures Every(Cancel(w, t), P)
  {
    if t.Some? {
      var v := Cancel(w, t);
      forall l, b | 0 <= l < LevelCount && 0 <= b < Size(l)
        ensures All(v.levels[l][b], P)
      {
        var x := w.levels[l][b];
        var y := v.levels[l][b];
        forall k | 0 <= k < |y|
          ensures P(y[k])
        {
          assert P(x[k]);
          assert y[k] == x[k] || y[k] == x[k].(active := false);
        }
      }
    }
  }

  /** After `cancelTimer`, no node with that id is live in the wheel. */
  lemma CancelKills(w: Wheel, id: nat)
    requires Shaped(w)
    ensures Every(Cancel(w, Some(id)), n => NotLive(id, n))
  {
    var v := Cancel(w, Some(id));
    forall l, b | 0 <= l < LevelCount && 0 <= b < Size(l)
      ensures All(v.levels[l][b], n => NotLive(id, n))
    {
      var y := v.levels[l][b];
      forall k | 0 <= k < |y|
        ensures NotLive(id, y[k])
      {
      }
    }
  }

  /** One step of the wheel's life. */
  datatype Step =
    | Tick(now: u64)
    | Add(cb: Callback, delay: u64, at: u64)
    | CancelStep(t: Option<nat>)

  /** Run steps in order, collecting the nodes that fire. */
  function Run(w: Wheel, steps: seq<Step>): (r: Expiry)
    requires Shaped(w)
    ensures Shaped(r.wheel) && r.wheel.nextId >= w.nextId
    ensures forall k :: 0 <= k < |r.fired| ==> r.fired[k].active
    decreases |steps|
  {
    if |steps| == 0 then Expiry(w, [])
    else
      match steps[0]
      case Tick(now) =>
        var e := ExpireTimer(w, now);
        var rest := Run(e.wheel, steps[1..]);
        Expiry(rest.wheel, e.fired + rest.fired)
      case Add(cb, delay, at) => Run(AddNewTimer(w, cb, delay, at).wheel, steps[1..])
      case CancelStep(t) => Run(Cancel(w, t), steps[1..])
  }

  lemma {:induction false} RunKeepsDead(w: Wheel, steps: seq<Step>, id: nat)
    requires Shaped(w) && id < w.nextId && Every(w, n => NotLive(id, n))
    ensures All(Run(w, steps).fired, n => NotLive(id, n))
    decreases |steps|
  {
    var P := n => NotLive(id, n);
    if |steps| > 0 {
      match steps[0]
      case Tick(now) =>
        ExpireTimerEvery(w, now, P);
        var e := ExpireTimer(w, now);
        RunKeepsDead(e.wheel, steps[1..], id);
      case Add(cb, delay, at) =>
        AddNewTimerEvery(w, cb, delay, at, P);
        RunKeepsDead(AddNewTimer(w, cb, delay, at).wheel, steps[1..], id);
      case CancelStep(t) =>
        CancelEvery(w, t, P);
        RunKeepsDead(Cancel(w, t), steps[1..], id);
    }
  }

  /** Lazy cancellation works: once the node `id` is cancelled, whatever ticks, additions
      and further cancellations follow, it never fires. */
  lemma CancelledNeverFires(w: Wheel, id: nat, steps: seq<Step>)
    requires Shaped(w) && id < w.nextId
    ensures forall k :: 0 <= k < |Run(Cancel(w, Some(id)), steps).fired| ==>
              Run(Cancel(w, Some(id)), steps).fired[k].id != id
  {
    CancelKills(w, id);
    RunKeepsDead(Cancel(w, Some(id)), steps, id);
  }

  // ---------------------------------------------------------------------------
  // Pending nodes are kept, due nodes fire

  /** Node `n` sits in some bucket of the wheel. */
  ghost predicate InWheel(w: Wheel, n: Node)
    requires Shaped(w)
  {
    exists l, b :: 0 <= l < LevelCount && 0 <= b < Size(l) && n in w.levels[l][b]
  }

  /** Every node of `w` is still in its bucket in `v`: nodes were only added. */
  ghost predicate Grows(w: Wheel, v: Wheel)
    requires Shaped(w) && Shaped(v)
  {
    forall l, b, n :: 0 <= l < LevelCount && 0 <= b < Size(l) && n in w.levels[l][b] ==> n in v.levels[l][b]
  }

  /** Every node of level 1 in `w` is still in its level-1 bucket in `v`. */
  ghost predicate KeepsLevel1(w: Wheel, v: Wheel)
    requires Shaped(w) && Shaped(v)
  {
    forall b, n :: 0 <= b < TvrSize && n in w.levels[0][b] ==> n in v.levels[0][b]
  }

  lemma GrowsInWheel(w: Wheel, v: Wheel, n: Node)
    requires Shaped(w) && Shaped(v) && Grows(w, v) && InWheel(w, n)
    ensures InWheel(v, n)
  {
    var l, b :| 0 <= l < LevelCount && 0 <= b < Size(l) && n in w.levels[l][b];
    assert n in v.levels[l][b];
  }

  lemma InsertGrows(w: Wheel, l: nat, b: nat, m: Node)
    requires Shaped(w) && l < LevelCount && b < Size(l)
    ensures Grows(w, Insert(w, l, b, m))
  {
    var v := Insert(w, l, b, m);
    forall l2, b2, n | 0 <= l2 < LevelCount && 0 <= b2 < Size(l2) && n in w.levels[l2][b2]
      ensures n in v.levels[l2][b2]
    {
      if l2 == l && b2 == b {
        assert v.levels[l][b] == [m] + w.levels[l][b];
      }
    }
  }

  lemma GrowsTransitive(u: Wheel, v: Wheel, w: Wheel)
    requires Shaped(u) && Shaped(v) && Shaped(w) && Grows(u, v) && Grows(v, w)
    ensures Grows(u, w)
  {
  }

  /** `addNewTimer` only adds. */
  lemma AddNewTimerGrows(w: Wheel, cb: Callback, delay: u64, now: u64)
    requires Shaped(w)
    ensures Grows(w, AddNewTimer(w, cb, delay, now).wheel)
  {
    var l := Level(delay);
    if delay != 0 && l != Rejected {
      InsertGrows(w, l, Index(l, (now + delay) % U64), Node(w.nextId, cb, (now + delay) % U64, true));
    }
  }

  /** A property implied by one every node has is one every node has. */
  lemma EveryWeaken(w: Wheel, P: Node -> bool, Q: Node -> bool)
    requires Shaped(w) && Every(w, P)
    requires forall n :: P(n) ==> Q(n)
    ensures Every(w, Q)
  {
    forall l, b | 0 <= l < LevelCount && 0 <= b < Size(l)
      ensures All(w.levels[l][b], Q)
    {
      assert All(w.levels[l][b], P);
    }
  }

  /** `reAddTimer` only adds, and it keeps an active node whose remaining delay is in
      range. */
  lemma ReAddKeeps(w: Wheel, m: Node, now: u64)
    requires Shaped(w)
    ensures Grows(w, ReAdd(w, m, now))
    ensures m.active && Delay(m.expire, now) <= MaxSupportedDelay ==> InWheel(ReAdd(w, m, now), m)
  {
    if m.active {
      var l := Level(Delay(m.expire, now));
      if l != Rejected {
        var i := Index(l, m.expire);
        InsertGrows(w, l, i, m);
        assert m in ReAdd(w, m, now).levels[l][i];
      }
    }
  }

  lemma {:induction false} ReAddAllKeeps(w: Wheel, ns: seq<Node>, now: u64)
    requires Shaped(w)
    ensures Grows(w, ReAddAll(w, ns, now))
    ensures forall n :: n in ns && n.active && Delay(n.expire, now) <= MaxSupportedDelay ==>
              InWheel(ReAddAll(w, ns, now), n)
    decreases |ns|
  {
    if |ns| > 0 {
      var u := ReAdd(w, ns[0], now);
      ReAddKeeps(w, ns[0], now);
      ReAddAllKeeps(u, ns[1..], now);
      var v := ReAddAll(w, ns, now);
      assert v == ReAddAll(u, ns[1..], now);
      forall n | n in ns && n.active && Delay(n.expire, now) <= MaxSupportedDelay
        ensures InWheel(v, n)
      {
        if n == ns[0] {
          GrowsInWheel(u, v, n);
        } else {
          assert n in ns[1..];
        }
      }
    }
  }

  /** Cascading a level keeps every node of level 1, and every active node whose
      remaining delay is in range stays somewhere in the wheel. */
  lemma {:induction false} CascadeKeeps(w: Wheel, l: nat, order: seq<nat>, now: u64)
    requires Shaped(w) && 1 <= l < LevelCount
    requires forall i :: 0 <= i < |order| ==> order[i] < Size(l)
    ensures KeepsLevel1(w, Cascade(w, l, order, now))
    ensures forall n :: InWheel(w, n) && n.active && Delay(n.expire, now) <= MaxSupportedDelay ==>
              InWheel(Cascade(w, l, order, now), n)
    decreases |order|
  {
    if |order| > 0 {
      var b := order[0];
      var detached := SetBucket(w, l, b, []);
      var u := ReAddAll(detached, w.levels[l][b], now);
      ReAddAllKeeps(detached, w.levels[l][b], now);
      CascadeKeeps(u, l, order[1..], now);
      var v := Cascade(w, l, order, now);
      assert v == Cascade(u, l, order[1..], now);
      forall b2, n | 0 <= b2 < TvrSize && n in w.levels[0][b2]
        ensures n in v.levels[0][b2]
      {
        assert n in detached.levels[0][b2];
      }
      forall n | InWheel(w, n) && n.active && Delay(n.expire, now) <= MaxSupportedDelay
        ensures InWheel(v, n)
      {
        if n !in w.levels[l][b] {
          var l2, b2 :| 0 <= l2 < LevelCount && 0 <= b2 < Size(l2) && n in w.levels[l2][b2];
          assert n in detached.levels[l2][b2];
          GrowsInWheel(detached, u, n);
        }
      }
    }
  }

  /** `cascadeLevel` loses no timer it still has to run: an active node whose remaining
      delay is within `MAX_SUPPORTED_DELAY` is still in the wheel afterwards, and level 1
      keeps all its nodes. */
  lemma CascadeLevelKeepsLive(w: Wheel, l: nat, last: u64, now: u64)
    requires Shaped(w) && 1 <= l < LevelCount
    ensures KeepsLevel1(w, CascadeLevel(w, l, last, now))
    ensures forall n :: InWheel(w, n) && n.active && Delay(n.expire, now) <= MaxSupportedDelay ==>
              InWheel(CascadeLevel(w, l, last, now), n)
  {
    CascadeKeeps(w, l, VisitOrder(Index(l, last), Index(l, now), Size(l), CascadesAll(l, last, now)), now);
  }

  /** The four cascades of a tick keep level 1 and every pending node. */
  lemma CascadeUpperKeeps(w: Wheel, last: u64, now: u64)
    requires Shaped(w)
    ensures KeepsLevel1(w, CascadeUpper(w, last, now))
    ensures forall n :: InWheel(w, n) && n.active && Delay(n.expire, now) <= MaxSupportedDelay ==>
              InWheel(CascadeUpper(w, last, now), n)
  {
    var w5 := CascadeLevel(w, 4, last, now);
    CascadeLevelKeepsLive(w, 4, last, now);
    var w4 := CascadeLevel(w5, 3, last, now);
    CascadeLevelKeepsLive(w5, 3, last, now);
    var w3 := CascadeLevel(w4, 2, last, now);
    CascadeLevelKeepsLive(w4, 2, last, now);
    CascadeLevelKeepsLive(w3, 1, last, now);
  }

  /** The level-1 pass keeps every node that is not yet due. */
  lemma ExecBucketsKeepsPending(w: Wheel, order: seq<nat>, now: u64)
    requires Shaped(w) && Distinct(order)
    requires forall i :: 0 <= i < |order| ==> order[i] < TvrSize
    ensures forall n :: InWheel(w, n) && now < n.expire ==> InWheel(ExecBuckets(w, order, now).wheel, n)
  {
    ExecBucketsLevel1(w, order, now);
    var v := ExecBuckets(w, order, now).wheel;
    forall n | InWheel(w, n) && now < n.expire
      ensures InWheel(v, n)
    {
      var l, b :| 0 <= l < LevelCount && 0 <= b < Size(l) && n in w.levels[l][b];
      if l == 0 && b in order {
        assert n in SplitDue(w.levels[0][b], now).keep;
      }
      assert n in v.levels[l][b];
    }
  }

  /** `expireTimer` runs every due timer of level 1 whose bucket the clock swept past:
      an active node with `expire <= now` in a visited level-1 bucket fires. */
  lemma ExpireTimerFiresDueNodes(w: Wheel, now: u64, b: nat, n: Node)
    requires Shaped(w) && now > w.time && b < TvrSize
    requires b in VisitOrder(Index(0, w.time), Index(0, now), TvrSize, (now - w.time) % U64 >= TvrSize)
    requires n in w.levels[0][b] && n.active && n.expire <= now
    ensures n in ExpireTimer(w, now).fired
  {
    var c := CascadeUpper(w, w.time, now);
    CascadeUpperKeeps(w, w.time, now);
    assert n in c.levels[0][b];
    var order := VisitOrder(Index(0, w.time), Index(0, now), TvrSize, (now - w.time) % U64 >= TvrSize);
    ExecFiresEveryDueNode(c, order, now);
    assert ExpireTimer(w, now).fired == ExecBuckets(c, order, now).fired;
  }

  /** A timer that is not yet due is neither run nor lost by a tick: an active node
      expiring after `now`, within `MAX_SUPPORTED_DELAY` of it, is still in the wheel. */
  lemma ExpireTimerKeepsPendingNodes(w: Wheel, now: u64, n: Node)
    requires Shaped(w) && InWheel(w, n) && n.active
    requires now < n.expire && n.expire - now <= MaxSupportedDelay
    ensures InWheel(ExpireTimer(w, now).wheel, n)
  {
    if now > w.time {
      var c := CascadeUpper(w, w.time, now);
      CascadeUpperKeeps(w, w.time, now);
      var order := VisitOrder(Index(0, w.time), Index(0, now), TvrSize, (now - w.time) % U64 >= TvrSize);
      ExecBucketsKeepsPending(c, order, now);
      var e := ExecBuckets(c, order, now);
      var v := ExpireTimer(w, now).wheel;
      assert v.levels == e.wheel.levels;
      var l, b :| 0 <= l < LevelCount && 0 <= b < Size(l) && n in e.wheel.levels[l][b];
      assert n in v.levels[l][b];
    }
  }

  /** Cancelling an id no node carries any more changes nothing. */
  lemma CancelAbsentIsNoOp(w: Wheel, id: nat)
    requires Shaped(w)
    requires forall l, b, n :: 0 <= l < LevelCount && 0 <= b < Size(l) && n in w.levels[l][b] ==> n.id != id
    ensures Cancel(w, Some(id)) == w
  {
    var v := Cancel(w, Some(id));
    forall l | 0 <= l < LevelCount
      ensures v.levels[l] == w.levels[l]
    {
      forall b | 0 <= b < Size(l)
        ensures v.levels[l][b] == w.levels[l][b]
      {
        var x := w.levels[l][b];
        forall k | 0 <= k < |x|
          ensures v.levels[l][b][k] == x[k]
        {
          assert x[k] in x;
        }
      }
    }
  }

  /** After `clearTimeWheel` nothing fires until a timer is added again. */
  lemma ClearedWheelFiresNothing(w: Wheel, now: u64)
    requires Shaped(w)
    ensures forall n :: n !in ExpireTimer(ClearTimeWheel(w), now).fired
  {
    var P := (n: Node) => false;
    var c := ClearTimeWheel(w);
    assert Every(c, P) by {
      forall l, b | 0 <= l < LevelCount && 0 <= b < Size(l)
        ensures All(c.levels[l][b], P)
      {
        assert c.levels[l][b] == [];
      }
    }
    ExpireTimerEvery(c, now, P);
  }
}
