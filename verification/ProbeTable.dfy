/** The open-addressed table of received symbol ids: linear probing with wrap-around. */
module ProbeTable {
  import opened Bytes

  const H_MULT := 29
  const FREE := -1

  /** Table size for a store of at most idsMax ids. */
  function TableSize(idsMax: nat): (sz: nat)
    ensures sz % 29 != 0
    ensures idsMax > 0 ==> sz > idsMax
    ensures 5 * idsMax - 1 <= 2 * sz <= 5 * idsMax + 2
  {
    var sz := idsMax * 5 / 2;
    if sz % H_MULT == 0 then sz + 1 else sz
  }

  function Home(id: nat, sz: nat): (h: nat)
    requires sz > 0
    ensures h < sz
  {
    (id * H_MULT) % sz
  }

  /** The slot d probes after home, wrapping around at the end of the table. */
  function Slot(home: nat, d: nat, sz: nat): (s: nat)
    requires home < sz && d < sz
    ensures s < sz
  {
    if home + d < sz then home + d else home + d - sz
  }

  /** Each probe looks at the slot after the previous one, and after the last at the first. */
  lemma SlotsFollow(home: nat, d: nat, sz: nat)
    requires home < sz && d + 1 < sz
    ensures Slot(home, 0, sz) == home
    ensures Slot(home, d + 1, sz) == (if Slot(home, d, sz) == sz - 1 then 0 else Slot(home, d, sz) + 1)
  {
  }

  /** What the d-th probe for id finds. */
  function Probe(table: seq<int>, id: nat, d: nat): int
    requires d < |table|
  {
    table[Slot(Home(id, |table|), d, |table|)]
  }

  /** The number of probes, from the d-th on, after which the search for id stops:
      at id itself or at a free slot. */
  function Stop(table: seq<int>, id: nat, d: nat): (e: nat)
    requires d <= |table|
    ensures d <= e <= |table|
    ensures forall k :: d <= k < e ==> Probe(table, id, k) != FREE && Probe(table, id, k) != id
    ensures e < |table| ==> Probe(table, id, e) == FREE || Probe(table, id, e) == id
    decreases |table| - d
  {
    if d == |table| || Probe(table, id, d) == FREE || Probe(table, id, d) == id then d
    else Stop(table, id, d + 1)
  }

  predicate Finds(table: seq<int>, id: nat) {
    var e := Stop(table, id, 0);
    e < |table| && Probe(table, id, e) == id
  }

  /** Search for id and, if it is not there, put it in the free slot found. */
  function Insert(table: seq<int>, id: nat): (t: seq<int>)
    ensures |t| == |table|
  {
    var e := Stop(table, id, 0);
    if e < |table| && Probe(table, id, e) == FREE
    then table[Slot(Home(id, |table|), e, |table|) := id]
    else table
  }

  ghost function Occupied(table: seq<int>): set<nat> {
    set s: nat | s < |table| && table[s] != FREE
  }

  /** id sits d probes from home and every slot probed before is occupied. */
  ghost predicate Chain(table: seq<int>, id: nat, d: nat) {
    && d < |table|
    && Probe(table, id, d) == id
    && forall k :: 0 <= k < d ==> Probe(table, id, k) != FREE
  }

  ghost predicate OnlyIds(table: seq<int>, ids: seq<nat>) {
    forall s :: 0 <= s < |table| && table[s] != FREE ==> table[s] in ids
  }

  ghost predicate Reachable(table: seq<int>, id: nat) {
    exists d :: Chain(table, id, d)
  }

  /** The table holds exactly the distinct ids, each reachable by its probe chain,
      in as many slots as there are ids. */
  ghost predicate Holds(table: seq<int>, ids: seq<nat>) {
    && |ids| < |table|
    && |Occupied(table)| == |ids|
    && OnlyIds(table, ids)
    && (forall i :: 0 <= i < |ids| ==> Reachable(table, ids[i]))
    && Distinct(ids)
  }

  ghost predicate Distinct(ids: seq<nat>) {
    forall i, j :: 0 <= i < j < |ids| ==> ids[i] != ids[j]
  }

  /** Every slot is d probes from home for some d. */
  lemma ReachSlot(home: nat, s: nat, sz: nat) returns (d: nat)
    requires home < sz && s < sz
    ensures d < sz && Slot(home, d, sz) == s
  {
    d := if home <= s then s - home else s + sz - home;
  }

  /** There is always a free slot, so the search ends inside the table. */
  lemma StopsInside(table: seq<int>, ids: seq<nat>, id: nat)
    requires Holds(table, ids)
    ensures Stop(table, id, 0) < |table|
  {
    BoundedSetSize(Occupied(table), |table|);
    var s: nat :| s < |table| && s !in Occupied(table);
    var d := ReachSlot(Home(id, |table|), s, |table|);
    assert Probe(table, id, d) == FREE;
  }

  /** The search finds an id exactly when it was stored. */
  lemma FindsExactlyStored(table: seq<int>, ids: seq<nat>, id: nat)
    requires Holds(table, ids)
    ensures Finds(table, id) <==> id in ids
  {
    StopsInside(table, ids, id);
    var e := Stop(table, id, 0);
    if id in ids {
      var i :| 0 <= i < |ids| && ids[i] == id;
      var d :| Chain(table, ids[i], d);
      assert d >= e && (d == e || Probe(table, id, e) != FREE);
    }
  }

  /** Filling a free slot keeps every probe chain. */
  lemma ChainKept(table: seq<int>, s: nat, v: nat, id: nat, d: nat)
    requires s < |table| && table[s] == FREE
    requires Chain(table, id, d)
    ensures Chain(table[s := v], id, d)
  {
    var t := table[s := v];
    forall k | 0 <= k <= d
      ensures Probe(t, id, k) != FREE && (k == d ==> Probe(t, id, k) == id)
    {
      assert Probe(table, id, k) != FREE;
    }
  }

  lemma NewChain(table: seq<int>, id: nat)
    requires Stop(table, id, 0) < |table|
    ensures Chain(Insert(table, id), id, Stop(table, id, 0))
  {
    var e := Stop(table, id, 0);
    var t := Insert(table, id);
    forall k | 0 <= k < e
      ensures Probe(t, id, k) != FREE
    {
      assert Probe(table, id, k) != FREE;
    }
  }

  lemma ChainsKept(table: seq<int>, ids: seq<nat>, s: nat, id: nat, e: nat)
    requires s < |table| && table[s] == FREE
    requires forall i :: 0 <= i < |ids| ==> Reachable(table, ids[i])
    requires Chain(table[s := id], id, e)
    ensures forall i :: 0 <= i < |ids + [id]| ==> Reachable(table[s := id], (ids + [id])[i])
  {
    var all := ids + [id];
    forall i | 0 <= i < |all|
      ensures Reachable(table[s := id], all[i])
    {
      if i < |ids| {
        var d :| Chain(table, ids[i], d);
        ChainKept(table, s, id, ids[i], d);
      } else {
        assert Chain(table[s := id], all[i], e);
      }
    }
  }

  lemma OccupyFree(table: seq<int>, ids: seq<nat>, s: nat, id: nat)
    requires s < |table| && table[s] == FREE
    requires |Occupied(table)| == |ids|
    requires OnlyIds(table, ids)
    ensures |Occupied(table[s := id])| == |ids + [id]|
    ensures OnlyIds(table[s := id], ids + [id])
  {
    var t, all := table[s := id], ids + [id];
    assert Occupied(t) == Occupied(table) + {s};
    forall k | 0 <= k < |t| && t[k] != FREE
      ensures t[k] in all
    {
      if k == s {
        assert all[|ids|] == id;
      } else {
        var i :| 0 <= i < |ids| && ids[i] == table[k];
        assert all[i] == ids[i];
      }
    }
  }

  lemma InsertKeeps(table: seq<int>, ids: seq<nat>, id: nat)
    requires Holds(table, ids) && |ids| + 1 < |table|
    requires id !in ids
    ensures Holds(Insert(table, id), ids + [id])
  {
    StopsInside(table, ids, id);
    FindsExactlyStored(table, ids, id);
    NewChain(table, id);
    var e := Stop(table, id, 0);
    var s := Slot(Home(id, |table|), e, |table|);
    ChainsKept(table, ids, s, id, e);
    OccupyFree(table, ids, s, id);
  }

  lemma EmptyHolds(table: seq<int>)
    requires |table| > 0 && forall s :: 0 <= s < |table| ==> table[s] == FREE
    ensures Holds(table, [])
  {
    assert Occupied(table) == {};
  }

  // ----- 29 is invertible modulo every table size, so the hash is perfect on a window

  const INVERSES := [0, 1, 15, 10, 22, 6, 5, 25, 11, 13, 3, 8, 17, 9, 27, 2, 20, 12, 21, 26, 16, 18, 4, 24,
                     23, 7, 19, 14, 28]

  lemma InverseOfResidue(r: nat)
    requires 0 < r < H_MULT
    ensures r * INVERSES[r] % H_MULT == 1
  {
    if r < 10 {
    } else if r < 20 {
    } else {
    }
  }

  /** s has a multiple that is 1 modulo 29. */
  lemma Inverse29(s: nat) returns (w: int, q: int)
    requires s % H_MULT != 0
    ensures s * w == H_MULT * q + 1
  {
    var r, m := s % H_MULT, s / H_MULT;
    InverseOfResidue(r);
    w := INVERSES[r];
    var p := r * w / H_MULT;
    q := m * w + p;
    LiftInverse(m, r, w, p);
  }

  lemma LiftInverse(m: int, r: int, w: int, p: int)
    requires r * w == H_MULT * p + 1
    ensures (H_MULT * m + r) * w == H_MULT * (m * w + p) + 1
  {
  }

  /** s divides 29 * x only if it divides x. */
  lemma CancelMultiplier(s: nat, x: nat)
    requires s % H_MULT != 0
    requires (x * H_MULT) % s == 0
    ensures x % s == 0
  {
    var w, q := Inverse29(s);
    var c := x * H_MULT / s;
    assert x * H_MULT == s * c;
    calc {
      x;
      x * (s * w - H_MULT * q);
      x * (s * w) - x * H_MULT * q;
      { assert x * (s * w) == s * (x * w); assert s * c * q == s * (c * q); }
      s * (x * w) - s * (c * q);
      s * (x * w - c * q);
    }
    MultipleModZero(s, x * w - c * q, x);
  }

  lemma MulMono(i: int, j: int, t: int)
    requires i <= j && 0 <= t
    ensures i * t <= j * t
  {
  }

  lemma MultipleModZero(s: nat, k: int, x: int)
    requires s > 0 && x == s * k
    ensures x % s == 0
  {
    var q, r := x / s, x % s;
    assert x == s * q + r;
    assert s * (k - q) == r;
    if k - q >= 1 {
      MulMono(1, k - q, s);
    } else if k - q <= -1 {
      MulMono(k - q, -1, s);
    }
  }

  lemma SameResidue(s: nat, a: nat, b: nat)
    requires s > 0 && b <= a
    ensures a % s == b % s <==> (a - b) % s == 0
  {
    var qa, ra, qb, rb := a / s, a % s, b / s, b % s;
    assert a == s * qa + ra && b == s * qb + rb;
    if ra == rb {
      assert a - b == s * (qa - qb);
      MultipleModZero(s, qa - qb, a - b);
    }
    if (a - b) % s == 0 {
      var c := (a - b) / s;
      assert a - b == s * c;
      assert ra - rb == s * (c - qa + qb);
      var k := c - qa + qb;
      if k >= 1 {
        MulMono(1, k, s);
      } else if k <= -1 {
        MulMono(k, -1, s);
      }
    }
  }

  /** Two ids share a home slot exactly when they are congruent modulo the table size. */
  lemma HomesCollide(sz: nat, a: nat, b: nat)
    requires sz % H_MULT != 0
    ensures Home(a, sz) == Home(b, sz) <==> a % sz == b % sz
    decreases b - a
  {
    if a < b {
      HomesCollide(sz, b, a);
    } else {
      var x: nat := a - b;
      SameResidue(sz, a, b);
      SameResidue(sz, a * H_MULT, b * H_MULT);
      assert a * H_MULT - b * H_MULT == x * H_MULT;
      if (x * H_MULT) % sz == 0 {
        CancelMultiplier(sz, x);
      }
      if x % sz == 0 {
        var c := x / sz;
        assert x == sz * c;
        assert x * H_MULT == sz * (c * H_MULT);
        MultipleModZero(sz, c * H_MULT, x * H_MULT);
      }
    }
  }

  // ----- whole runs of inserts

  /** The table after inserting ids one by one into a free table of sz slots. */
  function Fill(sz: nat, ids: seq<nat>): (t: seq<int>)
    ensures |t| == sz
  {
    if |ids| == 0 then seq(sz, _ => FREE)
    else Insert(Fill(sz, ids[..|ids| - 1]), ids[|ids| - 1])
  }

  /** The distinct ids, in the order of their first occurrence. */
  function Firsts(ids: seq<nat>): (f: seq<nat>)
    ensures Distinct(f)
    ensures forall x :: x in f <==> x in ids
  {
    if |ids| == 0 then []
    else
      var front, last := ids[..|ids| - 1], ids[|ids| - 1];
      assert ids == front + [last];
      var f := Firsts(front);
      if last in f then f else f + [last]
  }

  /** After any run of inserts that leaves a slot free, a search finds an id exactly
      when it was inserted. */
  lemma {:induction false} FillHolds(sz: nat, ids: seq<nat>)
    requires |Firsts(ids)| < sz
    ensures Holds(Fill(sz, ids), Firsts(ids))
    ensures forall id: nat :: Finds(Fill(sz, ids), id) <==> id in ids
  {
    var t := Fill(sz, ids);
    if |ids| == 0 {
      EmptyHolds(t);
    } else {
      var front, last := ids[..|ids| - 1], ids[|ids| - 1];
      FillHolds(sz, front);
      StopsInside(Fill(sz, front), Firsts(front), last);
      FindsExactlyStored(Fill(sz, front), Firsts(front), last);
      if last !in Firsts(front) {
        InsertKeeps(Fill(sz, front), Firsts(front), last);
      }
    }
    forall id: nat
      ensures Finds(t, id) <==> id in ids
    {
      FindsExactlyStored(t, Firsts(ids), id);
    }
  }

  /** One more id, inserted last. */
  lemma FillSnoc(sz: nat, ids: seq<nat>, id: nat)
    ensures Fill(sz, ids + [id]) == Insert(Fill(sz, ids), id)
  {
    assert (ids + [id])[..|ids|] == ids;
  }

  ghost predicate AllAtHome(table: seq<int>) {
    forall s :: 0 <= s < |table| && table[s] != FREE ==>
      0 <= table[s] < |table| && Home(table[s], |table|) == s
  }

  lemma SmallMod(s: nat, a: nat)
    requires a < s
    ensures a % s == a
  {
  }

  lemma ModShift(s: nat, q: nat, x: nat)
    requires s > 0
    ensures (s * q + x) % s == x % s
  {
    SameResidue(s, s * q + x, x);
    MultipleModZero(s, q, s * q);
  }

  /** Successive ids are 29 slots apart, cyclically. */
  lemma HomesStride(id: nat, sz: nat)
    requires sz > 0
    ensures Home(0, sz) == 0
    ensures Home(id + 1, sz) == (Home(id, sz) + 29) % sz
  {
    var q, h := id * 29 / sz, id * 29 % sz;
    SmallMod(sz, 0);
    ModShift(sz, q, h + 29);
    assert (id + 1) * 29 == sz * q + (h + 29);
  }

  lemma HomesDistinct(sz: nat, a: nat, b: nat)
    requires sz % H_MULT != 0
    requires a < sz && b < sz && Home(a, sz) == Home(b, sz)
    ensures a == b
  {
    HomesCollide(sz, a, b);
    SmallMod(sz, a);
    SmallMod(sz, b);
  }

  lemma FirstProbeStops(table: seq<int>, id: nat)
    requires |table| % H_MULT != 0
    requires AllAtHome(table) && id < |table|
    ensures Stop(table, id, 0) == 0
    ensures AllAtHome(Insert(table, id))
  {
    var h, v := Home(id, |table|), Probe(table, id, 0);
    assert Slot(h, 0, |table|) == h;
    if v != FREE {
      HomesDistinct(|table|, v, id);
    }
  }

  /** While all ids are below the table size, the search stops at its first probe. */
  lemma {:induction false} PerfectOnWindow(sz: nat, ids: seq<nat>, id: nat)
    requires sz % H_MULT != 0
    requires id < sz && forall i :: 0 <= i < |ids| ==> ids[i] < sz
    ensures AllAtHome(Fill(sz, ids))
    ensures Stop(Fill(sz, ids), id, 0) == 0
  {
    if |ids| > 0 {
      var front, last := ids[..|ids| - 1], ids[|ids| - 1];
      PerfectOnWindow(sz, front, last);
      FirstProbeStops(Fill(sz, front), last);
    }
    FirstProbeStops(Fill(sz, ids), id);
  }
}
