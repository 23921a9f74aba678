/**
  Steps 1 to 4 of the web client's `optimizarEventos` (web/app.js): for each listed group, the
  events of each subject are spread over the days of the group's shift, then over the whole grid,
  and any event still without a slot is forced into the first slot its group leaves free.
 */
module Constructive {
  import opened Seqs
  import opened Domain
  import opened Occupancy
  import Generation
  import Fallback

  /** What step 3 or 4 did to an event; `Kept` events were never given a slot. */
  datatype Tag = Kept | Window(vespertino: bool) | Expanded | Forced

  /** Hours of one subject that may share a day within one cycle: 1 for up to three hours, else 2. */
  function MaxPerDay(horasTotales: nat): (r: nat)
    ensures 1 <= r <= 2
    ensures r == 1 <==> horasTotales <= 3
  {
    if horasTotales <= 3 then 1 else 2
  }

  /** The grid after recording group `g` and professor `p` at every slot of `s`, in order. */
  function RecordAll(o: Occ, s: seq<Slot>, g: int, p: int): Occ
  {
    if |s| == 0 then o else Record(RecordAll(o, s[..|s| - 1], g, p), s[|s| - 1], g, p)
  }

  lemma RecordAllSnoc(o: Occ, s: seq<Slot>, x: Slot, g: int, p: int)
    ensures RecordAll(o, s + [x], g, p) == Record(RecordAll(o, s, g, p), x, g, p)
  {
    assert (s + [x])[..|s|] == s;
  }

  /** What `RecordAll` adds is exactly the slots of `s`, paired with `g` and with `p`. */
  lemma {:induction false} RecordAllMembers(o: Occ, s: seq<Slot>, g: int, p: int)
    ensures forall q :: q in RecordAll(o, s, g, p).grupos <==> q in o.grupos || exists k :: 0 <= k < |s| && q == (s[k], g)
    ensures forall q :: q in RecordAll(o, s, g, p).profesores <==> q in o.profesores || exists k :: 0 <= k < |s| && q == (s[k], p)
  {
    if |s| > 0 {
      var n := |s| - 1;
      RecordAllMembers(o, s[..n], g, p);
      forall q | q in o.grupos || exists k :: 0 <= k < |s| && q == (s[k], g)
        ensures q in RecordAll(o, s, g, p).grupos
      {
        if q !in o.grupos && q != (s[n], g) {
          var k :| 0 <= k < |s| && q == (s[k], g);
          assert s[..n][k] == s[k];
        }
      }
      forall q | q in o.profesores || exists k :: 0 <= k < |s| && q == (s[k], p)
        ensures q in RecordAll(o, s, g, p).profesores
      {
        if q !in o.profesores && q != (s[n], p) {
          var k :| 0 <= k < |s| && q == (s[k], p);
          assert s[..n][k] == s[k];
        }
      }
    }
  }

  lemma {:induction false} RecordAllGrows(o: Occ, s: seq<Slot>, g: int, p: int)
    ensures o.grupos <= RecordAll(o, s, g, p).grupos && o.profesores <= RecordAll(o, s, g, p).profesores
  {
    if |s| > 0 {
      RecordAllGrows(o, s[..|s| - 1], g, p);
    }
  }

  lemma {:induction false} RecordAllAppend(o: Occ, a: seq<Slot>, b: seq<Slot>, g: int, p: int)
    ensures RecordAll(o, a + b, g, p) == RecordAll(RecordAll(o, a, g, p), b, g, p)
  {
    if |b| == 0 {
      assert a + b == a;
    } else {
      var n := |b| - 1;
      assert (a + b)[..|a + b| - 1] == a + b[..n];
      RecordAllAppend(o, a, b[..n], g, p);
    }
  }

  /** Slots that were free of group `g` and professor `p` in `o`, on the grid, pairwise distinct. */
  predicate FreshSlots(o: Occ, g: int, p: int, s: seq<Slot>)
  {
    (forall k :: 0 <= k < |s| ==> ValidSlot(s[k]) && Free(o, g, p, true, s[k]))
    && forall i, j :: 0 <= i < j < |s| ==> s[i] != s[j]
  }

  lemma FreshSnoc(o: Occ, g: int, p: int, s: seq<Slot>, x: Slot)
    requires FreshSlots(o, g, p, s) && ValidSlot(x) && Free(RecordAll(o, s, g, p), g, p, true, x)
    ensures FreshSlots(o, g, p, s + [x])
  {
    RecordAllMembers(o, s, g, p);
    forall k | 0 <= k < |s| ensures s[k] != x {
      assert (s[k], g) in RecordAll(o, s, g, p).grupos;
    }
  }

  lemma FreshAppend(o: Occ, g: int, p: int, a: seq<Slot>, b: seq<Slot>)
    requires FreshSlots(o, g, p, a) && FreshSlots(RecordAll(o, a, g, p), g, p, b)
    ensures FreshSlots(o, g, p, a + b)
  {
    var s := a + b;
    RecordAllMembers(o, a, g, p);
    forall i, j | 0 <= i < j < |s| ensures s[i] != s[j] {
      if j >= |a| && i < |a| {
        assert (a[i], g) in RecordAll(o, a, g, p).grupos;
        assert s[j] == b[j - |a|];
      }
    }
  }

  /** What the hour loop of one day has established once hours `lo` to `h - 1` are scanned. */
  ghost predicate DayScanned(o: Occ, g: int, p: int, d: int, lo: int, hi: int, h: int, hs: seq<Slot>)
  {
    FreshSlots(o, g, p, hs)
    && (forall k :: 0 <= k < |hs| ==> hs[k].dia == d && lo <= hs[k].hora < h && hs[k].hora <= hi)
    && (forall i, j :: 0 <= i < j < |hs| ==> hs[i].hora < hs[j].hora)
    && forall t: Slot :: t.dia == d && lo <= t.hora < h ==> !Free(RecordAll(o, hs, g, p), g, p, true, t)
  }

  /** Taking the free slot `(d, h)`. */
  lemma DayTake(o: Occ, g: int, p: int, d: int, lo: int, hi: int, h: int, hs: seq<Slot>)
    requires 0 <= d < Days && 0 <= lo <= h <= hi < Hours
    requires DayScanned(o, g, p, d, lo, hi, h, hs)
    requires Free(RecordAll(o, hs, g, p), g, p, true, Slot(d, h))
    ensures DayScanned(o, g, p, d, lo, hi, h + 1, hs + [Slot(d, h)])
  {
    FreshSnoc(o, g, p, hs, Slot(d, h));
    DayTakeOrder(d, lo, hi, h, hs);
    DayTakeFull(o, g, p, d, lo, h, hs);
  }

  lemma DayTakeOrder(d: int, lo: int, hi: int, h: int, hs: seq<Slot>)
    requires lo <= h <= hi
    requires forall k :: 0 <= k < |hs| ==> hs[k].dia == d && lo <= hs[k].hora < h && hs[k].hora <= hi
    requires forall i, j :: 0 <= i < j < |hs| ==> hs[i].hora < hs[j].hora
    ensures var hs' := hs + [Slot(d, h)];
      (forall k :: 0 <= k < |hs'| ==> hs'[k].dia == d && lo <= hs'[k].hora < h + 1 && hs'[k].hora <= hi)
      && forall i, j :: 0 <= i < j < |hs'| ==> hs'[i].hora < hs'[j].hora
  {
    var hs' := hs + [Slot(d, h)];
    assert forall k :: 0 <= k < |hs| ==> hs'[k] == hs[k];
  }

  lemma DayTakeFull(o: Occ, g: int, p: int, d: int, lo: int, h: int, hs: seq<Slot>)
    requires forall t: Slot :: t.dia == d && lo <= t.hora < h ==> !Free(RecordAll(o, hs, g, p), g, p, true, t)
    ensures forall t: Slot :: t.dia == d && lo <= t.hora < h + 1 ==> !Free(RecordAll(o, hs + [Slot(d, h)], g, p), g, p, true, t)
  {
    var x := Slot(d, h);
    RecordAllSnoc(o, hs, x, g, p);
    var before := RecordAll(o, hs, g, p);
    var after := RecordAll(o, hs + [x], g, p);
    assert before.grupos <= after.grupos;
    forall t: Slot | t.dia == d && lo <= t.hora < h + 1 ensures !Free(after, g, p, true, t) {
      if t.hora < h {
        assert (t, g) in before.grupos || (t, p) in before.profesores;
      } else {
        assert t == x;
      }
    }
  }

  /** Passing over the taken slot `(d, h)`. */
  lemma DaySkip(o: Occ, g: int, p: int, d: int, lo: int, hi: int, h: int, hs: seq<Slot>)
    requires DayScanned(o, g, p, d, lo, hi, h, hs)
    requires !Free(RecordAll(o, hs, g, p), g, p, true, Slot(d, h))
    ensures DayScanned(o, g, p, d, lo, hi, h + 1, hs)
  {
    forall t: Slot | t.dia == d && lo <= t.hora < h + 1 ensures !Free(RecordAll(o, hs, g, p), g, p, true, t) {
      if t.hora == h {
        assert t == Slot(d, h);
      }
    }
  }

  /** The whole window of the day has been scanned. */
  lemma DayExit(o: Occ, g: int, p: int, d: int, lo: int, hi: int, h: int, hs: seq<Slot>)
    requires DayScanned(o, g, p, d, lo, hi, h, hs) && hi < h
    ensures forall t: Slot :: t.dia == d && lo <= t.hora <= hi ==> !Free(RecordAll(o, hs, g, p), g, p, true, t)
  {
  }

  /**
    The innermost loop of phase 1 for one day: hours `lo` to `hi` in order, taking each slot where
    neither the group nor the professor is recorded, until `need` events are placed or the day holds
    `cap` of them. When it stops short of both, no hour of the window is left free that day.
   */
  method FillDay(o: Occ, g: int, p: int, d: int, lo: int, hi: int, need: nat, cap: nat) returns (hs: seq<Slot>)
    requires 0 <= d < Days && 0 <= lo && hi < Hours
    ensures |hs| <= need && |hs| <= cap
    ensures FreshSlots(o, g, p, hs)
    ensures forall k :: 0 <= k < |hs| ==> hs[k].dia == d && lo <= hs[k].hora <= hi
    ensures forall i, j :: 0 <= i < j < |hs| ==> hs[i].hora < hs[j].hora
    ensures |hs| > 0 ==> forall t: Slot :: t.dia == d && lo <= t.hora < hs[|hs| - 1].hora ==> !Free(RecordAll(o, hs, g, p), g, p, true, t)
    ensures |hs| < need && |hs| < cap ==> WindowFull(RecordAll(o, hs, g, p), g, p, d, lo, hi)
  {
    hs := [];
    var h := lo;
    while h <= hi && |hs| < need && |hs| < cap
      invariant lo <= h
      invariant |hs| <= need && |hs| <= cap
      invariant DayScanned(o, g, p, d, lo, hi, h, hs)
    {
      if Free(RecordAll(o, hs, g, p), g, p, true, Slot(d, h)) {
        DayTake(o, g, p, d, lo, hi, h, hs);
        hs := hs + [Slot(d, h)];
      } else {
        DaySkip(o, g, p, d, lo, hi, h, hs);
      }
      h := h + 1;
    }
    if |hs| < need && |hs| < cap {
      DayExit(o, g, p, d, lo, hi, h, hs);
    }
  }

  /** No hour of day `d`'s window `[lo, hi]` is free for group `g` and professor `p`. */
  ghost predicate WindowFull(o: Occ, g: int, p: int, d: int, lo: int, hi: int)
  {
    forall t: Slot :: t.dia == d && lo <= t.hora <= hi ==> !Free(o, g, p, true, t)
  }

  lemma WindowFullGrows(o: Occ, o': Occ, g: int, p: int, d: int, lo: int, hi: int)
    requires WindowFull(o, g, p, d, lo, hi) && o.grupos <= o'.grupos && o.profesores <= o'.profesores
    ensures WindowFull(o', g, p, d, lo, hi)
  {
  }

  /** (cycle, day) pairs in the order the phase visits them. */
  predicate KeyLt(c1: nat, d1: int, c2: nat, d2: int)
  {
    c1 < c2 || (c1 == c2 && d1 < d2)
  }

  /**
    The placements of phase 1 come in visiting order, and no (cycle, day) holds more than `cap`
    of them.
   */
  predicate CycleDayBound(slots: seq<Slot>, cycles: seq<nat>, cap: nat)
    requires |slots| == |cycles|
  {
    (forall i, j :: 0 <= i < j < |slots| ==>
      KeyLt(cycles[i], slots[i].dia, cycles[j], slots[j].dia) || (cycles[i] == cycles[j] && slots[i].dia == slots[j].dia))
    && forall i, j :: (0 <= i <= j < |slots| && cycles[i] == cycles[j] && slots[i].dia == slots[j].dia) ==> j - i < cap
  }

  lemma ChunkAppend(slots: seq<Slot>, cycles: seq<nat>, hs: seq<Slot>, c: nat, d: int, cap: nat)
    requires |slots| == |cycles| && CycleDayBound(slots, cycles, cap)
    requires forall k :: 0 <= k < |slots| ==> KeyLt(cycles[k], slots[k].dia, c, d)
    requires forall k :: 0 <= k < |hs| ==> hs[k].dia == d
    requires |hs| <= cap
    ensures CycleDayBound(slots + hs, cycles + seq(|hs|, _ => c), cap)
  {
    var s := slots + hs;
    var cs := cycles + seq(|hs|, _ => c);
    forall i, j | 0 <= i < j < |s|
      ensures KeyLt(cs[i], s[i].dia, cs[j], s[j].dia) || (cs[i] == cs[j] && s[i].dia == s[j].dia)
    {
      if j >= |slots| {
        assert cs[j] == c && s[j].dia == d;
        if i >= |slots| {
          assert cs[i] == c && s[i].dia == d;
        }
      }
    }
    forall i, j | 0 <= i <= j < |s| && cs[i] == cs[j] && s[i].dia == s[j].dia ensures j - i < cap {
      if j >= |slots| {
        assert cs[j] == c && s[j].dia == d;
        if i < |slots| {
          assert false;
        }
      }
    }
  }

  /** How many placements phase 1 made on day `d` of cycle `c`. */
  function Placed(slots: seq<Slot>, cycles: seq<nat>, c: nat, d: int): nat
    requires |slots| == |cycles|
  {
    if |slots| == 0 then 0
    else
      var n := |slots| - 1;
      Placed(slots[..n], cycles[..n], c, d) + (if cycles[n] == c && slots[n].dia == d then 1 else 0)
  }

  /** A day's chunk adds its length to its own (cycle, day) and nothing to the others. */
  lemma {:induction false} PlacedAppend(slots: seq<Slot>, cycles: seq<nat>, hs: seq<Slot>, c0: nat, d0: int, c: nat, d: int)
    requires |slots| == |cycles|
    requires forall k :: 0 <= k < |hs| ==> hs[k].dia == d0
    ensures Placed(slots + hs, cycles + seq(|hs|, _ => c0), c, d)
         == Placed(slots, cycles, c, d) + (if c == c0 && d == d0 then |hs| else 0)
  {
    var cs := seq(|hs|, _ => c0);
    if |hs| == 0 {
      assert slots + hs == slots && cycles + cs == cycles;
    } else {
      var n := |hs| - 1;
      var cs' := seq(n, _ => c0);
      PlacedAppend(slots, cycles, hs[..n], c0, d0, c, d);
      assert (slots + hs)[..|slots| + n] == slots + hs[..n];
      assert (cycles + cs)[..|slots| + n] == cycles + cs';
      assert (slots + hs)[|slots| + n] == hs[n];
      assert (cycles + cs)[|slots| + n] == c0;
    }
  }

  /** Nothing has been placed yet at a (cycle, day) that every placement precedes. */
  lemma {:induction false} PlacedNone(slots: seq<Slot>, cycles: seq<nat>, c: nat, d: int)
    requires |slots| == |cycles|
    requires forall k :: 0 <= k < |slots| ==> KeyLt(cycles[k], slots[k].dia, c, d)
    ensures Placed(slots, cycles, c, d) == 0
  {
    if |slots| > 0 {
      var n := |slots| - 1;
      assert forall k :: 0 <= k < n ==> slots[..n][k] == slots[k] && cycles[..n][k] == cycles[k];
      PlacedNone(slots[..n], cycles[..n], c, d);
    }
  }

  /** Every (cycle, day) visited before `(c, d)` got its `cap` placements or had no free window hour left. */
  ghost predicate CyclesDone(o: Occ, g: int, p: int, lo: int, hi: int, slots: seq<Slot>, cycles: seq<nat>, cap: nat, c: nat, d: int)
    requires |slots| == |cycles|
  {
    forall c': nat, d' :: 0 <= d' < Days && KeyLt(c', d', c, d) ==>
      Placed(slots, cycles, c', d') == cap || WindowFull(RecordAll(o, slots, g, p), g, p, d', lo, hi)
  }

  /** Day `d` of cycle `c` ended either with `cap` placements or with its window full. */
  lemma DayDone(o: Occ, g: int, p: int, lo: int, hi: int, slots: seq<Slot>, cycles: seq<nat>, hs: seq<Slot>, cap: nat, c: nat, d: int)
    requires |slots| == |cycles| && 0 <= d < Days
    requires CyclesDone(o, g, p, lo, hi, slots, cycles, cap, c, d)
    requires forall k :: 0 <= k < |slots| ==> KeyLt(cycles[k], slots[k].dia, c, d)
    requires forall k :: 0 <= k < |hs| ==> hs[k].dia == d
    requires |hs| == cap || WindowFull(RecordAll(RecordAll(o, slots, g, p), hs, g, p), g, p, d, lo, hi)
    ensures CyclesDone(o, g, p, lo, hi, slots + hs, cycles + seq(|hs|, _ => c), cap, c, d + 1)
  {
    var slots', cycles' := slots + hs, cycles + seq(|hs|, _ => c);
    var o1, o2 := RecordAll(o, slots, g, p), RecordAll(o, slots', g, p);
    RecordAllAppend(o, slots, hs, g, p);
    RecordAllGrows(o1, hs, g, p);
    PlacedNone(slots, cycles, c, d);
    forall c': nat, d' | 0 <= d' < Days && KeyLt(c', d', c, d + 1)
      ensures Placed(slots', cycles', c', d') == cap || WindowFull(o2, g, p, d', lo, hi)
    {
      PlacedAppend(slots, cycles, hs, c, d, c', d');
      if KeyLt(c', d', c, d) && Placed(slots, cycles, c', d') != cap {
        WindowFullGrows(o1, o2, g, p, d', lo, hi);
      }
    }
  }

  /**
    Phase 1 for one subject of `n` hours: up to three cycles over the five days, each day taking at
    most `MaxPerDay(n)` free hours of the shift window `[lo, hi]`. It stops short of `n` only when
    every day of every cycle got its quota or had no free window hour left.
   */
  method SpreadOverDays(o: Occ, g: int, p: int, n: nat, lo: int, hi: int) returns (slots: seq<Slot>, cycles: seq<nat>)
    requires 0 <= lo && hi < Hours
    ensures |slots| == |cycles| <= n
    ensures FreshSlots(o, g, p, slots)
    ensures forall k :: 0 <= k < |slots| ==> lo <= slots[k].hora <= hi && cycles[k] < 3
    ensures CycleDayBound(slots, cycles, MaxPerDay(n))
    ensures |slots| < n ==> forall c: nat, d :: c < 3 && 0 <= d < Days ==>
      Placed(slots, cycles, c, d) == MaxPerDay(n) || WindowFull(RecordAll(o, slots, g, p), g, p, d, lo, hi)
  {
    var cap := MaxPerDay(n);
    slots, cycles := [], [];
    var c := 0;
    while c < 3 && |slots| < n
      invariant c <= 3
      invariant |slots| == |cycles| <= n
      invariant FreshSlots(o, g, p, slots)
      invariant forall k :: 0 <= k < |slots| ==> lo <= slots[k].hora <= hi && cycles[k] < c
      invariant CycleDayBound(slots, cycles, cap)
      invariant |slots| < n ==> CyclesDone(o, g, p, lo, hi, slots, cycles, cap, c, 0)
    {
      slots, cycles := OneCycle(o, g, p, n, lo, hi, c, slots, cycles);
      if |slots| < n {
        NextCycle(o, g, p, lo, hi, slots, cycles, cap, c);
      }
      c := c + 1;
    }
  }

  /** One cycle of phase 1: the five days in order, each through `FillDay`, until `n` are placed. */
  method OneCycle(o: Occ, g: int, p: int, n: nat, lo: int, hi: int, c: nat, slots0: seq<Slot>, cycles0: seq<nat>)
    returns (slots: seq<Slot>, cycles: seq<nat>)
    requires 0 <= lo && hi < Hours
    requires |slots0| == |cycles0| <= n
    requires FreshSlots(o, g, p, slots0)
    requires forall k :: 0 <= k < |slots0| ==> lo <= slots0[k].hora <= hi && cycles0[k] < c
    requires CycleDayBound(slots0, cycles0, MaxPerDay(n))
    requires |slots0| < n ==> CyclesDone(o, g, p, lo, hi, slots0, cycles0, MaxPerDay(n), c, 0)
    ensures |slots| == |cycles| <= n
    ensures FreshSlots(o, g, p, slots)
    ensures forall k :: 0 <= k < |slots| ==> lo <= slots[k].hora <= hi && cycles[k] <= c
    ensures CycleDayBound(slots, cycles, MaxPerDay(n))
    ensures |slots| < n ==> CyclesDone(o, g, p, lo, hi, slots, cycles, MaxPerDay(n), c, Days)
  {
    slots, cycles := slots0, cycles0;
    var d := 0;
    while d < Days && |slots| < n
      invariant 0 <= d <= Days
      invariant CycleState(o, g, p, n, lo, hi, c, d, slots, cycles)
    {
      var hs := FillDay(RecordAll(o, slots, g, p), g, p, d, lo, hi, n - |slots|, MaxPerDay(n));
      DayStep(o, g, p, n, lo, hi, c, d, slots, cycles, hs);
      slots, cycles := slots + hs, cycles + seq(|hs|, _ => c);
      d := d + 1;
    }
  }

  /** What the day loop of cycle `c` has established before day `d`. */
  ghost predicate CycleState(o: Occ, g: int, p: int, n: nat, lo: int, hi: int, c: nat, d: int, slots: seq<Slot>, cycles: seq<nat>)
  {
    |slots| == |cycles| <= n && FreshSlots(o, g, p, slots)
    && (forall k :: 0 <= k < |slots| ==> lo <= slots[k].hora <= hi && cycles[k] <= c && KeyLt(cycles[k], slots[k].dia, c, d))
    && CycleDayBound(slots, cycles, MaxPerDay(n))
    && (|slots| < n ==> CyclesDone(o, g, p, lo, hi, slots, cycles, MaxPerDay(n), c, d))
  }

  /** Appending what `FillDay` took on day `d`. */
  lemma DayStep(o: Occ, g: int, p: int, n: nat, lo: int, hi: int, c: nat, d: int, slots: seq<Slot>, cycles: seq<nat>, hs: seq<Slot>)
    requires 0 <= d < Days && |slots| < n
    requires CycleState(o, g, p, n, lo, hi, c, d, slots, cycles)
    requires |hs| <= n - |slots| && |hs| <= MaxPerDay(n)
    requires FreshSlots(RecordAll(o, slots, g, p), g, p, hs)
    requires forall k :: 0 <= k < |hs| ==> hs[k].dia == d && lo <= hs[k].hora <= hi
    requires |hs| < n - |slots| && |hs| < MaxPerDay(n) ==> WindowFull(RecordAll(RecordAll(o, slots, g, p), hs, g, p), g, p, d, lo, hi)
    ensures CycleState(o, g, p, n, lo, hi, c, d + 1, slots + hs, cycles + seq(|hs|, _ => c))
  {
    var cap := MaxPerDay(n);
    var slots', cycles' := slots + hs, cycles + seq(|hs|, _ => c);
    ChunkAppend(slots, cycles, hs, c, d, cap);
    FreshAppend(o, g, p, slots, hs);
    if |slots'| < n {
      DayDone(o, g, p, lo, hi, slots, cycles, hs, cap, c, d);
    }
    forall k | 0 <= k < |slots'| ensures lo <= slots'[k].hora <= hi && cycles'[k] <= c && KeyLt(cycles'[k], slots'[k].dia, c, d + 1) {
      if k >= |slots| {
        assert slots'[k] == hs[k - |slots|] && cycles'[k] == c;
      }
    }
  }

  lemma NextCycle(o: Occ, g: int, p: int, lo: int, hi: int, slots: seq<Slot>, cycles: seq<nat>, cap: nat, c: nat)
    requires |slots| == |cycles| && CyclesDone(o, g, p, lo, hi, slots, cycles, cap, c, Days)
    ensures CyclesDone(o, g, p, lo, hi, slots, cycles, cap, c + 1, 0)
  {
    forall c': nat, d' | 0 <= d' < Days && KeyLt(c', d', c + 1, 0)
      ensures Placed(slots, cycles, c', d') == cap || WindowFull(RecordAll(o, slots, g, p), g, p, d', lo, hi)
    {
      assert KeyLt(c', d', c, Days);
    }
  }

  /**
    Phase 2: the whole grid, day by day and hour by hour, checking group and professor. It takes
    slots in scan order, and every grid slot it passed before the last one taken is no longer free
    for the pair: it takes exactly the first free slots. When it stops short, no slot of the grid
    is left free for the pair.
   */
  method ExpandRange(o: Occ, g: int, p: int, need: nat) returns (hs: seq<Slot>)
    ensures |hs| <= need
    ensures FreshSlots(o, g, p, hs)
    ensures forall i, j :: 0 <= i < j < |hs| ==> Before(hs[i], hs[j])
    ensures |hs| > 0 ==> forall t :: ValidSlot(t) && Before(t, hs[|hs| - 1]) ==> !Free(RecordAll(o, hs, g, p), g, p, true, t)
    ensures |hs| < need ==> forall t :: ValidSlot(t) ==> !Free(RecordAll(o, hs, g, p), g, p, true, t)
  {
    hs := [];
    var d := 0;
    while d < Days && |hs| < need
      invariant 0 <= d <= Days
      invariant ExpandScanned(o, g, p, need, d, hs)
    {
      var day := FillDay(RecordAll(o, hs, g, p), g, p, d, 0, Hours - 1, need - |hs|, need - |hs|);
      ExpandStep(o, g, p, need, d, hs, day);
      hs := hs + day;
      d := d + 1;
    }
  }

  /** What phase 2 has established once days `0` to `d - 1` are scanned. */
  ghost predicate ExpandScanned(o: Occ, g: int, p: int, need: nat, d: int, hs: seq<Slot>)
  {
    |hs| <= need
    && FreshSlots(o, g, p, hs)
    && (forall k :: 0 <= k < |hs| ==> hs[k].dia < d)
    && (forall i, j :: 0 <= i < j < |hs| ==> Before(hs[i], hs[j]))
    && (|hs| > 0 ==> forall t :: ValidSlot(t) && Before(t, hs[|hs| - 1]) ==> !Free(RecordAll(o, hs, g, p), g, p, true, t))
    && (|hs| < need ==> forall t :: ValidSlot(t) && t.dia < d ==> !Free(RecordAll(o, hs, g, p), g, p, true, t))
  }

  /** Appending what `FillDay` took on day `d`. */
  lemma ExpandStep(o: Occ, g: int, p: int, need: nat, d: int, hs: seq<Slot>, day: seq<Slot>)
    requires 0 <= d < Days && |hs| < need
    requires ExpandScanned(o, g, p, need, d, hs)
    requires |day| <= need - |hs|
    requires FreshSlots(RecordAll(o, hs, g, p), g, p, day)
    requires forall k :: 0 <= k < |day| ==> day[k].dia == d
    requires forall i, j :: 0 <= i < j < |day| ==> day[i].hora < day[j].hora
    requires |day| > 0 ==> forall t: Slot :: t.dia == d && 0 <= t.hora < day[|day| - 1].hora ==>
      !Free(RecordAll(RecordAll(o, hs, g, p), day, g, p), g, p, true, t)
    requires |day| < need - |hs| ==> WindowFull(RecordAll(RecordAll(o, hs, g, p), day, g, p), g, p, d, 0, Hours - 1)
    ensures ExpandScanned(o, g, p, need, d + 1, hs + day)
  {
    var o' := RecordAll(o, hs, g, p);
    FreshAppend(o, g, p, hs, day);
    RecordAllAppend(o, hs, day, g, p);
    RecordAllGrows(o', day, g, p);
    ExpandOrder(hs, day, d);
    if |day| > 0 {
      ExpandFirstFit(o, g, p, d, hs, day);
    } else {
      assert hs + day == hs;
    }
    if |hs + day| < need {
      ExpandDayFull(o, g, p, d, hs, day);
    }
  }

  /** When day `d` stops short, the days up to `d` leave no grid slot free. */
  lemma ExpandDayFull(o: Occ, g: int, p: int, d: int, hs: seq<Slot>, day: seq<Slot>)
    requires forall t :: ValidSlot(t) && t.dia < d ==> !Free(RecordAll(o, hs, g, p), g, p, true, t)
    requires WindowFull(RecordAll(RecordAll(o, hs, g, p), day, g, p), g, p, d, 0, Hours - 1)
    requires RecordAll(o, hs + day, g, p) == RecordAll(RecordAll(o, hs, g, p), day, g, p)
    ensures forall t :: ValidSlot(t) && t.dia < d + 1 ==> !Free(RecordAll(o, hs + day, g, p), g, p, true, t)
  {
    var o' := RecordAll(o, hs, g, p);
    RecordAllGrows(o', day, g, p);
    forall t | ValidSlot(t) && t.dia < d + 1 ensures !Free(RecordAll(o', day, g, p), g, p, true, t) {
      if t.dia < d {
        assert !Free(o', g, p, true, t);
      }
    }
  }

  /** Slots of earlier days followed by ascending hours of day `d` stay in scan order. */
  lemma ExpandOrder(hs: seq<Slot>, day: seq<Slot>, d: int)
    requires forall k :: 0 <= k < |hs| ==> hs[k].dia < d
    requires forall i, j :: 0 <= i < j < |hs| ==> Before(hs[i], hs[j])
    requires forall k :: 0 <= k < |day| ==> day[k].dia == d
    requires forall i, j :: 0 <= i < j < |day| ==> day[i].hora < day[j].hora
    ensures forall k :: 0 <= k < |hs + day| ==> (hs + day)[k].dia < d + 1
    ensures forall i, j :: 0 <= i < j < |hs + day| ==> Before((hs + day)[i], (hs + day)[j])
  {
    var s := hs + day;
    forall i, j | 0 <= i < j < |s| ensures Before(s[i], s[j]) {
      if j < |hs| {
        assert s[i] == hs[i] && s[j] == hs[j];
      } else if i < |hs| {
        assert s[i] == hs[i] && s[j] == day[j - |hs|];
      } else {
        assert s[i] == day[i - |hs|] && s[j] == day[j - |hs|];
      }
    }
  }

  /**
    After day `d` takes `day`, no grid slot before its last one is free: earlier days were full
    already (the loop had not stopped), and the day's own scan is first fit.
   */
  lemma ExpandFirstFit(o: Occ, g: int, p: int, d: int, hs: seq<Slot>, day: seq<Slot>)
    requires |day| > 0 && day[|day| - 1].dia == d
    requires forall t :: ValidSlot(t) && t.dia < d ==> !Free(RecordAll(o, hs, g, p), g, p, true, t)
    requires forall t: Slot :: t.dia == d && 0 <= t.hora < day[|day| - 1].hora ==> !Free(RecordAll(RecordAll(o, hs, g, p), day, g, p), g, p, true, t)
    requires RecordAll(o, hs + day, g, p) == RecordAll(RecordAll(o, hs, g, p), day, g, p)
    ensures forall t :: ValidSlot(t) && Before(t, (hs + day)[|hs + day| - 1]) ==> !Free(RecordAll(o, hs + day, g, p), g, p, true, t)
  {
    var o' := RecordAll(o, hs, g, p);
    RecordAllGrows(o', day, g, p);
    assert (hs + day)[|hs + day| - 1] == day[|day| - 1];
    forall t | ValidSlot(t) && Before(t, day[|day| - 1]) ensures !Free(RecordAll(o', day, g, p), g, p, true, t) {
      if t.dia < d {
        assert !Free(o', g, p, true, t);
      }
    }
  }

  /** Phase 2's slots keep their scan order and first fit once appended to phase 1's. */
  lemma PhaseTwoJoin(o: Occ, g: int, p: int, a: seq<Slot>, b: seq<Slot>)
    requires forall i, j :: 0 <= i < j < |b| ==> Before(b[i], b[j])
    requires |b| > 0 ==> forall t :: ValidSlot(t) && Before(t, b[|b| - 1]) ==> !Free(RecordAll(RecordAll(o, a, g, p), b, g, p), g, p, true, t)
    ensures forall i, j :: |a| <= i < j < |a + b| ==> Before((a + b)[i], (a + b)[j])
    ensures |b| > 0 ==> forall t :: ValidSlot(t) && Before(t, (a + b)[|a + b| - 1]) ==> !Free(RecordAll(o, a + b, g, p), g, p, true, t)
  {
    RecordAllAppend(o, a, b, g, p);
    forall i, j | |a| <= i < j < |a + b| ensures Before((a + b)[i], (a + b)[j]) {
      assert (a + b)[i] == b[i - |a|] && (a + b)[j] == b[j - |a|];
    }
    if |b| > 0 {
      assert (a + b)[|a + b| - 1] == b[|b| - 1];
    }
  }

  /**
    One subject of one group (`eventosMateria`): the slots given, in order, to its first events;
    the first `enVentana` of them come from phase 1. Phase 2 runs only when phase 1 stopped short,
    that is when every day of every cycle either got its daily quota or had no free window hour.
    Fewer than `n` slots means the grid had no slot left free of both the group and the professor.
   */
  method PlaceSubject(o: Occ, g: int, p: int, n: nat, lo: int, hi: int)
    returns (slots: seq<Slot>, enVentana: nat, cycles: seq<nat>)
    requires 0 <= lo && hi < Hours
    ensures enVentana == |cycles| <= |slots| <= n
    ensures FreshSlots(o, g, p, slots)
    ensures forall k :: 0 <= k < enVentana ==> lo <= slots[k].hora <= hi && cycles[k] < 3
    ensures CycleDayBound(slots[..enVentana], cycles, MaxPerDay(n))
    ensures enVentana < n ==> forall c: nat, d :: c < 3 && 0 <= d < Days ==>
      Placed(slots[..enVentana], cycles, c, d) == MaxPerDay(n) || WindowFull(RecordAll(o, slots[..enVentana], g, p), g, p, d, lo, hi)
    ensures |slots| < n ==> forall t :: ValidSlot(t) ==> !Free(RecordAll(o, slots, g, p), g, p, true, t)
    ensures forall i, j :: enVentana <= i < j < |slots| ==> Before(slots[i], slots[j])
    ensures |slots| > enVentana ==> forall t :: ValidSlot(t) && Before(t, slots[|slots| - 1]) ==> !Free(RecordAll(o, slots, g, p), g, p, true, t)
  {
    slots, cycles := SpreadOverDays(o, g, p, n, lo, hi);
    enVentana := |slots|;
    assert slots[..enVentana] == slots;
    if |slots| < n {
      var more := ExpandRange(RecordAll(o, slots, g, p), g, p, n - |slots|);
      FreshAppend(o, g, p, slots, more);
      RecordAllAppend(o, slots, more, g, p);
      PhaseTwoJoin(o, g, p, slots, more);
      slots := slots + more;
      assert slots[..enVentana] == slots[..enVentana][..enVentana];
    }
  }

  // ---------------------------------------------------------------- buckets of step 2 and 3

  /** Positions, ascending, of the first `n` events that belong to group `g` (`eventosPorGrupo`). */
  function GroupEvents(evs: seq<Event>, g: int, n: nat): (r: seq<nat>)
    requires n <= |evs|
    ensures forall k: nat :: k in r <==> k < n && evs[k].grupo == g
    ensures forall k :: 0 <= k < |r| ==> r[k] < n
    ensures forall i, j :: 0 <= i < j < |r| ==> r[i] < r[j]
  {
    if n == 0 then []
    else
      var r := GroupEvents(evs, g, n - 1);
      assert forall k :: 0 <= k < |r| ==> r[k] in r;
      r + (if evs[n - 1].grupo == g then [n - 1] else [])
  }

  /** The positions of `idxs` whose event has subject `m`, in the same order (`eventosPorMateria[m]`). */
  function SubjectEvents(evs: seq<Event>, idxs: seq<nat>, m: int): (r: seq<nat>)
    requires forall k :: 0 <= k < |idxs| ==> idxs[k] < |evs|
    ensures forall v :: v in r <==> v in idxs && evs[v].materia == m
  {
    if |idxs| == 0 then []
    else (if evs[idxs[0]].materia == m then [idxs[0]] else []) + SubjectEvents(evs, idxs[1..], m)
  }

  lemma {:induction false} SubjectEventsAscending(evs: seq<Event>, idxs: seq<nat>, m: int)
    requires forall k :: 0 <= k < |idxs| ==> idxs[k] < |evs|
    requires forall i, j :: 0 <= i < j < |idxs| ==> idxs[i] < idxs[j]
    ensures NoDups(SubjectEvents(evs, idxs, m))
    ensures forall i, j :: 0 <= i < j < |SubjectEvents(evs, idxs, m)| ==> SubjectEvents(evs, idxs, m)[i] < SubjectEvents(evs, idxs, m)[j]
  {
    if |idxs| > 0 {
      var t := SubjectEvents(evs, idxs[1..], m);
      SubjectEventsAscending(evs, idxs[1..], m);
      forall k | 0 <= k < |t| ensures idxs[0] < t[k] {
        assert t[k] in t;
        var j :| 0 <= j < |idxs[1..]| && idxs[1..][j] == t[k];
        assert idxs[1..][j] == idxs[j + 1];
      }
    }
  }

  /** The subjects of a group's events, in first-appearance order. */
  function SubjectsOf(evs: seq<Event>, idxs: seq<nat>): (r: seq<int>)
    requires forall k :: 0 <= k < |idxs| ==> idxs[k] < |evs|
    ensures NoDups(r)
    ensures forall m :: m in r <==> exists v :: v in idxs && evs[v].materia == m
  {
    var ms := seq(|idxs|, k requires 0 <= k < |idxs| => evs[idxs[k]].materia);
    var r := Distinct(ms);
    assert forall m :: m in r <==> m in Elems(ms);
    forall m | m in r ensures exists v :: v in idxs && evs[v].materia == m {
      var k :| 0 <= k < |ms| && ms[k] == m;
      assert idxs[k] in idxs;
    }
    forall m | exists v :: v in idxs && evs[v].materia == m ensures m in r {
      var v :| v in idxs && evs[v].materia == m;
      var k :| 0 <= k < |idxs| && idxs[k] == v;
      assert ms[k] == m;
      assert m in Elems(ms);
    }
    r
  }

  /** A subject bucket of group `g`: its events, distinct, all of `g` and of subject `b.0`. */
  predicate GoodBucket(evs: seq<Event>, g: int, b: (int, seq<nat>))
  {
    |b.1| > 0
    && (forall k :: 0 <= k < |b.1| ==> b.1[k] < |evs| && evs[b.1[k]].grupo == g && evs[b.1[k]].materia == b.0)
    && NoDups(b.1)
  }

  /** A bucket holds every event of its group and subject, the earliest first. */
  predicate WholeCourse(evs: seq<Event>, g: int, b: (int, seq<nat>))
  {
    (forall v :: 0 <= v < |evs| && evs[v].grupo == g && evs[v].materia == b.0 ==> v in b.1)
    && forall k :: 0 <= k < |b.1| ==> b.1[0] <= b.1[k]
  }

  /** Each subject paired with its events, in first-appearance order. */
  function SubjectPairs(evs: seq<Event>, g: int): (r: seq<(int, seq<nat>)>)
    ensures Firsts(r) == SubjectsOf(evs, GroupEvents(evs, g, |evs|))
    ensures forall i :: 0 <= i < |r| ==> GoodBucket(evs, g, r[i]) && WholeCourse(evs, g, r[i])
  {
    var idxs := GroupEvents(evs, g, |evs|);
    var ms := SubjectsOf(evs, idxs);
    var r := seq(|ms|, i requires 0 <= i < |ms| => (ms[i], SubjectEvents(evs, idxs, ms[i])));
    forall i | 0 <= i < |r| ensures GoodBucket(evs, g, r[i]) && WholeCourse(evs, g, r[i]) {
      assert ms[i] in ms;
      CourseBucket(evs, g, ms[i]);
    }
    r
  }

  /** The bucket of a subject the group has. */
  lemma CourseBucket(evs: seq<Event>, g: int, m: int)
    requires m in SubjectsOf(evs, GroupEvents(evs, g, |evs|))
    ensures var b := (m, SubjectEvents(evs, GroupEvents(evs, g, |evs|), m)); GoodBucket(evs, g, b) && WholeCourse(evs, g, b)
  {
    var idxs := GroupEvents(evs, g, |evs|);
    var es := SubjectEvents(evs, idxs, m);
    var v :| v in idxs && evs[v].materia == m;
    assert v in es;
    SubjectEventsAscending(evs, idxs, m);
    CourseBucketMembers(evs, g, m, idxs, es);
  }

  lemma CourseBucketMembers(evs: seq<Event>, g: int, m: int, idxs: seq<nat>, es: seq<nat>)
    requires forall k: nat :: k in idxs <==> k < |evs| && evs[k].grupo == g
    requires forall v :: v in es <==> v in idxs && evs[v].materia == m
    requires |es| > 0 && NoDups(es) && forall i, j :: 0 <= i < j < |es| ==> es[i] < es[j]
    ensures GoodBucket(evs, g, (m, es)) && WholeCourse(evs, g, (m, es))
  {
    forall k | 0 <= k < |es| ensures es[k] < |evs| && evs[es[k]].grupo == g && evs[es[k]].materia == m {
      assert es[k] in es;
    }
    forall k | 0 <= k < |es| ensures es[0] <= es[k] {
      if k > 0 {
        assert es[0] < es[k];
      }
    }
  }

  /** Every event of group `g` has its subject among the buckets. */
  lemma SubjectPairsCover(evs: seq<Event>, g: int, v: nat)
    requires v < |evs| && evs[v].grupo == g
    ensures evs[v].materia in Firsts(SubjectPairs(evs, g))
  {
    var idxs := GroupEvents(evs, g, |evs|);
    assert v in idxs;
  }

  /**
    The subject buckets of group `g` in the order `Object.keys(eventosPorMateria)` visits them:
    non-negative subject ids ascending, then the others in first-appearance order. Every subject
    of the group appears exactly once.
   */
  function SubjectBuckets(evs: seq<Event>, g: int): (r: seq<(int, seq<nat>)>)
    ensures forall i :: 0 <= i < |r| ==> GoodBucket(evs, g, r[i]) && WholeCourse(evs, g, r[i])
    ensures multiset(Firsts(r)) == multiset(SubjectsOf(evs, GroupEvents(evs, g, |evs|)))
  {
    var pairs := SubjectPairs(evs, g);
    var r := Generation.JsKeyOrder(pairs);
    forall i | 0 <= i < |r| ensures GoodBucket(evs, g, r[i]) && WholeCourse(evs, g, r[i]) {
      assert r[i] in multiset(r);
      var j :| 0 <= j < |pairs| && pairs[j] == r[i];
    }
    r
  }

  /** Where key `m` sits in a list of (key, value) pairs. */
  function KeyIndex<V>(r: seq<(int, V)>, m: int): (i: nat)
    requires m in multiset(Firsts(r))
    ensures i < |r| && r[i].0 == m
  {
    assert m in Firsts(r);
    if r[0].0 == m then 0
    else
      assert Firsts(r) == [r[0].0] + Firsts(r[1..]);
      1 + KeyIndex(r[1..], m)
  }

  /** Every event of group `g` lies in one of the group's buckets. */
  lemma SubjectBucketsCover(evs: seq<Event>, g: int, v: nat)
    requires v < |evs| && evs[v].grupo == g
    ensures exists i :: 0 <= i < |SubjectBuckets(evs, g)| && v in SubjectBuckets(evs, g)[i].1
  {
    var r := SubjectBuckets(evs, g);
    SubjectPairsCover(evs, g, v);
    var m := evs[v].materia;
    assert m in multiset(SubjectsOf(evs, GroupEvents(evs, g, |evs|)));
    var i := KeyIndex(r, m);
    assert WholeCourse(evs, g, r[i]);
  }

  // ---------------------------------------------------------------- what steps 3 and 4 maintain

  /** Every event of a group and subject has the same professor, as the generators produce them. */
  predicate OneProfessorPerCourse(evs: seq<Event>)
  {
    forall i, j :: (0 <= i < |evs| && 0 <= j < |evs| && evs[i].grupo == evs[j].grupo
                    && evs[i].materia == evs[j].materia) ==> evs[i].profesor == evs[j].profesor
  }

  /** The server's generator, given a dictionary-shaped table, keeps one professor per course. */
  lemma ServerOneProfessorPerCourse(t: Generation.Table, materias: seq<Generation.Materia>, numAulas: nat)
    requires Generation.DictShaped(t)
    ensures OneProfessorPerCourse(Generation.GenerarEventosIniciales(t, materias, numAulas))
  {
    var r := Generation.GenerarEventosIniciales(t, materias, numAulas);
    forall i, j | 0 <= i < |r| && 0 <= j < |r| && r[i].grupo == r[j].grupo && r[i].materia == r[j].materia
      ensures r[i].profesor == r[j].profesor
    {
      Generation.TableAssignsUnique(t, r[i].grupo, r[i].materia, r[i].profesor, r[j].profesor);
    }
  }

  /** So does the web client's generator when the table is not empty. */
  lemma WebOneProfessorPerCourse(t: Generation.Table, materias: seq<Generation.Materia>, grupos: seq<Generation.Grupo>, numProfesores: nat, numAulas: nat)
    requires Generation.DictShaped(t) && |t| > 0
    ensures OneProfessorPerCourse(Generation.GenerarEventosInicialesJs(t, materias, grupos, numProfesores, numAulas))
  {
    var r := Generation.GenerarEventosInicialesJs(t, materias, grupos, numProfesores, numAulas);
    forall i, j | 0 <= i < |r| && 0 <= j < |r| && r[i].grupo == r[j].grupo && r[i].materia == r[j].materia
      ensures r[i].profesor == r[j].profesor
    {
      Generation.TableAssignsUnique(t, r[i].grupo, r[i].materia, r[i].profesor, r[j].profesor);
    }
  }

  /**
    With an empty table the web client's rotation also keeps one professor per course, provided
    groups and subjects have distinct ids: a group and subject fix the rotation position.
   */
  lemma FallbackOneProfessorPerCourse(materias: seq<Generation.Materia>, grupos: seq<Generation.Grupo>, numProfesores: nat, numAulas: nat)
    requires numProfesores > 0
    requires forall a, b :: 0 <= a < b < |grupos| ==> grupos[a].id != grupos[b].id
    requires forall a, b :: 0 <= a < b < |materias| ==> materias[a].id != materias[b].id
    ensures OneProfessorPerCourse(Generation.GenerarEventosInicialesJs([], materias, grupos, numProfesores, numAulas))
  {
    var r := Generation.GenerarEventosInicialesJs([], materias, grupos, numProfesores, numAulas);
    forall x, y | 0 <= x < |r| && 0 <= y < |r| && r[x].grupo == r[y].grupo && r[x].materia == r[y].materia
      ensures r[x].profesor == r[y].profesor
    {
      Generation.RotatedSameProfessor(r[x], r[y], grupos, materias, numProfesores, numAulas);
    }
  }

  /**
    So does the Python system's generator when each group's table names a subject at most once
    (the table is a dictionary of dictionaries).
   */
  lemma SistemaOneProfessorPerCourse(grupos: seq<Generation.Grupo>, asign: map<int, Generation.Entries>, materias: seq<Generation.Materia>,
                                     aulas: seq<Generation.Aula>, draw: int -> (nat, nat))
    requires forall k :: k in asign ==> NoDups(Firsts(asign[k]))
    ensures OneProfessorPerCourse(Generation.SistemaEvents(grupos, asign, materias, aulas, draw, 0))
  {
    var r := Generation.SistemaEvents(grupos, asign, materias, aulas, draw, 0);
    Generation.SistemaEventsShape(grupos, asign, materias, aulas, draw);
    forall i, j | 0 <= i < |r| && 0 <= j < |r| && r[i].grupo == r[j].grupo && r[i].materia == r[j].materia
      ensures r[i].profesor == r[j].profesor
    {
      assert Generation.SistemaGenerated(r[i], grupos, asign, materias, aulas, i);
      assert Generation.SistemaGenerated(r[j], grupos, asign, materias, aulas, j);
      KeyedUnique(asign[r[i].grupo], (r[i].materia, r[i].profesor), (r[j].materia, r[j].profesor));
    }
  }

  /** Still without a usable slot, as step 4's filter `dia < 0 || hora < 0` sees it. */
  predicate NotPlaced(s: Slot)
  {
    s.dia < 0 || s.hora < 0
  }

  /** `j` is the first event, in list order, of event `k`'s group and subject. */
  predicate FirstOfCourse(evs: seq<Event>, j: nat, k: nat)
  {
    j <= k < |evs| && evs[j].grupo == evs[k].grupo && evs[j].materia == evs[k].materia
    && forall i :: 0 <= i < j ==> evs[i].grupo != evs[k].grupo || evs[i].materia != evs[k].materia
  }

  /**
    No slot of the grid is free of event `k`'s group and of the professor of the first event of
    its group and subject, the professor phases 1 and 2 check for the whole subject.
   */
  ghost predicate Stuck(evs: seq<Event>, occ: Occ, k: nat)
  {
    exists j: nat :: FirstOfCourse(evs, j, k) && forall t :: ValidSlot(t) ==> !Free(occ, evs[k].grupo, evs[j].profesor, true, t)
  }

  lemma StuckGrows(evs: seq<Event>, occ: Occ, occ': Occ, k: nat)
    requires Stuck(evs, occ, k) && occ.grupos <= occ'.grupos && occ.profesores <= occ'.profesores
    ensures Stuck(evs, occ', k)
  {
    var j: nat :| FirstOfCourse(evs, j, k) && forall t :: ValidSlot(t) ==> !Free(occ, evs[k].grupo, evs[j].profesor, true, t);
    assert forall t :: ValidSlot(t) ==> !Free(occ', evs[k].grupo, evs[j].profesor, true, t);
  }

  /** The head of a whole bucket is the first event of each of its events' course. */
  lemma BucketHead(evs: seq<Event>, g: int, b: (int, seq<nat>), k: nat)
    requires GoodBucket(evs, g, b) && WholeCourse(evs, g, b) && k in b.1
    ensures FirstOfCourse(evs, b.1[0], k)
  {
    var a :| 0 <= a < |b.1| && b.1[a] == k;
    assert b.1[0] <= k;
    forall i | i in b.1 ensures b.1[0] <= i {
      var c :| 0 <= c < |b.1| && b.1[c] == i;
    }
  }

  predicate ByPhases(t: Tag)
  {
    t.Window? || t == Expanded
  }

  /** Events given a slot never share it with another such event of their group. */
  predicate GroupSlotsDistinct(r: seq<Event>, tag: seq<Tag>)
    requires |r| == |tag|
  {
    forall i, j :: (0 <= i < |r| && 0 <= j < |r| && i != j && tag[i] != Kept && tag[j] != Kept
                    && r[i].grupo == r[j].grupo) ==> r[i].slot != r[j].slot
  }

  /** Events placed by phases 1 and 2 never share a slot with another such event of their professor. */
  predicate ProfSlotsDistinct(r: seq<Event>, tag: seq<Tag>)
    requires |r| == |tag|
  {
    forall i, j :: (0 <= i < |r| && 0 <= j < |r| && i != j && ByPhases(tag[i]) && ByPhases(tag[j])
                    && r[i].profesor == r[j].profesor) ==> r[i].slot != r[j].slot
  }

  /** Slot `s` lies in the shift window `vespertino` names, and a group record with id `g` has that shift. */
  predicate InShiftOf(grupos: seq<Generation.Grupo>, g: int, s: Slot, vespertino: bool)
  {
    var w := Fallback.ShiftWindow(vespertino);
    w.0 <= s.hora <= w.1
    && exists gi :: 0 <= gi < |grupos| && grupos[gi].id == g && Fallback.EveningName(grupos[gi].nombre) == vespertino
  }

  /** What holds of event `k` during steps 3 and 4. */
  ghost predicate EventOk(evs: seq<Event>, grupos: seq<Generation.Grupo>, r: seq<Event>, tag: seq<Tag>, occ: Occ, k: nat)
    requires k < |evs| == |r| == |tag|
  {
    r[k] == evs[k].(slot := r[k].slot)
    && (tag[k] == Kept ==> r[k] == evs[k])
    && (tag[k] == Forced ==> NotPlaced(evs[k].slot))
    && (tag[k] != Kept ==> ValidSlot(r[k].slot) && (r[k].slot, r[k].grupo) in occ.grupos)
    && (OneProfessorPerCourse(evs) && tag[k] != Kept ==> (r[k].slot, r[k].profesor) in occ.profesores)
    && (tag[k].Window? ==> InShiftOf(grupos, r[k].grupo, r[k].slot, tag[k].vespertino))
  }

  /** The invariant of steps 3 and 4 over the events `r`, their tags and the occupancy grid. */
  ghost predicate Sound(evs: seq<Event>, grupos: seq<Generation.Grupo>, r: seq<Event>, tag: seq<Tag>, occ: Occ)
  {
    |r| == |evs| == |tag|
    && (forall k :: 0 <= k < |r| ==> EventOk(evs, grupos, r, tag, occ, k))
    && GroupSlotsDistinct(r, tag)
    && (OneProfessorPerCourse(evs) ==> ProfSlotsDistinct(r, tag))
  }

  /** `r'` and `tag'` are `r` and `tag` with the `k`-th event of `items` moved to `slots[k]`. */
  ghost predicate Assigned(r: seq<Event>, tag: seq<Tag>, items: seq<nat>, slots: seq<Slot>, enVentana: nat, v: bool,
                           r': seq<Event>, tag': seq<Tag>)
    requires |slots| <= |items| && |r| == |tag|
  {
    |r'| == |r| && |tag'| == |tag|
    && (forall k :: 0 <= k < |slots| ==> items[k] < |r| && r'[items[k]] == r[items[k]].(slot := slots[k])
                                         && tag'[items[k]] == (if k < enVentana then Window(v) else Expanded))
    && (forall j :: 0 <= j < |r| && j !in items[..|slots|] ==> r'[j] == r[j] && tag'[j] == tag[j])
  }

  /** The assignments `evento.slot.dia = dia; evento.slot.hora = hora` of one subject. */
  method AssignSlots(r: seq<Event>, tag: seq<Tag>, items: seq<nat>, slots: seq<Slot>, enVentana: nat, v: bool)
    returns (r': seq<Event>, tag': seq<Tag>)
    requires |r| == |tag| && |slots| <= |items| && NoDups(items)
    requires forall k :: 0 <= k < |items| ==> items[k] < |r|
    ensures Assigned(r, tag, items, slots, enVentana, v, r', tag')
  {
    r', tag' := r, tag;
    var k := 0;
    while k < |slots|
      invariant 0 <= k <= |slots|
      invariant Assigned(r, tag, items, slots[..k], enVentana, v, r', tag')
    {
      var j := items[k];
      assert forall a :: 0 <= a < k ==> items[a] != j;
      assert items[..k + 1] == items[..k] + [j];
      r' := r'[j := r[j].(slot := slots[k])];
      tag' := tag'[j := if k < enVentana then Window(v) else Expanded];
      k := k + 1;
    }
    assert slots[..k] == slots;
  }

  /** One subject's placement, with everything the step needs to keep `Sound`. */
  ghost predicate SubjectPlaced(evs: seq<Event>, grupos: seq<Generation.Grupo>, r: seq<Event>, tag: seq<Tag>, occ: Occ,
                                gi: nat, b: (int, seq<nat>), slots: seq<Slot>, enVentana: nat,
                                r': seq<Event>, tag': seq<Tag>, occ': Occ)
  {
    gi < |grupos| && GoodBucket(evs, grupos[gi].id, b) && |slots| <= |b.1| && enVentana <= |slots|
    && |r| == |evs| == |tag|
    && var g := grupos[gi].id;
    var p := evs[b.1[0]].profesor;
    var v := Fallback.EveningName(grupos[gi].nombre);
    FreshSlots(occ, g, p, slots)
    && (forall k :: 0 <= k < enVentana ==> Fallback.ShiftWindow(v).0 <= slots[k].hora <= Fallback.ShiftWindow(v).1)
    && Assigned(r, tag, b.1, slots, enVentana, v, r', tag')
    && occ' == RecordAll(occ, slots, g, p)
  }

  lemma SubjectPointwise(evs: seq<Event>, grupos: seq<Generation.Grupo>, r: seq<Event>, tag: seq<Tag>, occ: Occ,
                         gi: nat, b: (int, seq<nat>), slots: seq<Slot>, enVentana: nat,
                         r': seq<Event>, tag': seq<Tag>, occ': Occ)
    requires Sound(evs, grupos, r, tag, occ)
    requires SubjectPlaced(evs, grupos, r, tag, occ, gi, b, slots, enVentana, r', tag', occ')
    ensures forall k :: 0 <= k < |r'| ==> EventOk(evs, grupos, r', tag', occ', k)
  {
    var g := grupos[gi].id;
    var p := evs[b.1[0]].profesor;
    RecordAllMembers(occ, slots, g, p);
    RecordAllGrows(occ, slots, g, p);
    forall k | 0 <= k < |r'| ensures EventOk(evs, grupos, r', tag', occ', k) {
      assert EventOk(evs, grupos, r, tag, occ, k);
      if k in b.1[..|slots|] {
        var a :| 0 <= a < |slots| && b.1[a] == k;
        assert (slots[a], g) in occ'.grupos;
        assert (slots[a], p) in occ'.profesores;
        if OneProfessorPerCourse(evs) {
          assert evs[k].profesor == p;
        }
      }
    }
  }

  lemma SubjectGroupsDistinct(evs: seq<Event>, grupos: seq<Generation.Grupo>, r: seq<Event>, tag: seq<Tag>, occ: Occ,
                              gi: nat, b: (int, seq<nat>), slots: seq<Slot>, enVentana: nat,
                              r': seq<Event>, tag': seq<Tag>, occ': Occ)
    requires Sound(evs, grupos, r, tag, occ)
    requires SubjectPlaced(evs, grupos, r, tag, occ, gi, b, slots, enVentana, r', tag', occ')
    ensures GroupSlotsDistinct(r', tag')
  {
    var g := grupos[gi].id;
    var items := b.1;
    forall i, j | 0 <= i < |r'| && 0 <= j < |r'| && i != j && tag'[i] != Kept && tag'[j] != Kept && r'[i].grupo == r'[j].grupo
      ensures r'[i].slot != r'[j].slot
    {
      assert EventOk(evs, grupos, r, tag, occ, i) && EventOk(evs, grupos, r, tag, occ, j);
      var newI := i in items[..|slots|];
      var newJ := j in items[..|slots|];
      if newI && newJ {
        var a :| 0 <= a < |slots| && items[a] == i;
        var c :| 0 <= c < |slots| && items[c] == j;
      } else if newI {
        var a :| 0 <= a < |slots| && items[a] == i;
        assert (r[j].slot, g) in occ.grupos;
      } else if newJ {
        var c :| 0 <= c < |slots| && items[c] == j;
        assert (r[i].slot, g) in occ.grupos;
      }
    }
  }

  lemma SubjectProfsDistinct(evs: seq<Event>, grupos: seq<Generation.Grupo>, r: seq<Event>, tag: seq<Tag>, occ: Occ,
                             gi: nat, b: (int, seq<nat>), slots: seq<Slot>, enVentana: nat,
                             r': seq<Event>, tag': seq<Tag>, occ': Occ)
    requires Sound(evs, grupos, r, tag, occ) && OneProfessorPerCourse(evs)
    requires SubjectPlaced(evs, grupos, r, tag, occ, gi, b, slots, enVentana, r', tag', occ')
    ensures ProfSlotsDistinct(r', tag')
  {
    var items := b.1;
    var p := evs[items[0]].profesor;
    forall i, j | 0 <= i < |r'| && 0 <= j < |r'| && i != j && ByPhases(tag'[i]) && ByPhases(tag'[j]) && r'[i].profesor == r'[j].profesor
      ensures r'[i].slot != r'[j].slot
    {
      assert EventOk(evs, grupos, r, tag, occ, i) && EventOk(evs, grupos, r, tag, occ, j);
      var newI := i in items[..|slots|];
      var newJ := j in items[..|slots|];
      if newI && newJ {
        var a :| 0 <= a < |slots| && items[a] == i;
        var c :| 0 <= c < |slots| && items[c] == j;
      } else if newI {
        var a :| 0 <= a < |slots| && items[a] == i;
        assert evs[i].profesor == p;
        assert (r[j].slot, p) in occ.profesores;
      } else if newJ {
        var c :| 0 <= c < |slots| && items[c] == j;
        assert evs[j].profesor == p;
        assert (r[i].slot, p) in occ.profesores;
      }
    }
  }

  /** One iteration of `Object.keys(eventosPorMateria).forEach`: phases 1 and 2 for one subject. */
  method PlaceBucket(evs: seq<Event>, grupos: seq<Generation.Grupo>, r: seq<Event>, tag: seq<Tag>, occ: Occ,
                     gi: nat, b: (int, seq<nat>))
    returns (r': seq<Event>, tag': seq<Tag>, occ': Occ)
    requires Sound(evs, grupos, r, tag, occ)
    requires gi < |grupos| && GoodBucket(evs, grupos[gi].id, b) && WholeCourse(evs, grupos[gi].id, b)
    ensures Sound(evs, grupos, r', tag', occ')
    ensures forall j :: 0 <= j < |r| && j !in b.1 ==> r'[j] == r[j] && tag'[j] == tag[j]
    ensures occ.grupos <= occ'.grupos && occ.profesores <= occ'.profesores
    ensures forall j :: 0 <= j < |r| && tag'[j] == Forced ==> tag[j] == Forced
    ensures forall k :: k in b.1 && tag'[k] == Kept ==> Stuck(evs, occ', k)
  {
    var g := grupos[gi].id;
    var v := Fallback.EveningName(grupos[gi].nombre);
    var w := Fallback.ShiftWindow(v);
    var items := b.1;
    var p := evs[items[0]].profesor;
    var slots, enVentana, cycles := PlaceSubject(occ, g, p, |items|, w.0, w.1);
    r', tag' := AssignSlots(r, tag, items, slots, enVentana, v);
    occ' := RecordAll(occ, slots, g, p);
    assert SubjectPlaced(evs, grupos, r, tag, occ, gi, b, slots, enVentana, r', tag', occ');
    SubjectPointwise(evs, grupos, r, tag, occ, gi, b, slots, enVentana, r', tag', occ');
    SubjectGroupsDistinct(evs, grupos, r, tag, occ, gi, b, slots, enVentana, r', tag', occ');
    if OneProfessorPerCourse(evs) {
      SubjectProfsDistinct(evs, grupos, r, tag, occ, gi, b, slots, enVentana, r', tag', occ');
    }
    RecordAllGrows(occ, slots, g, p);
    BucketStuck(evs, g, b, r, tag, occ, slots, enVentana, v, r', tag');
  }

  /** What phases 1 and 2 leave of a subject: its unplaced events are stuck. */
  lemma BucketStuck(evs: seq<Event>, g: int, b: (int, seq<nat>), r: seq<Event>, tag: seq<Tag>, occ: Occ,
                    slots: seq<Slot>, enVentana: nat, v: bool, r': seq<Event>, tag': seq<Tag>)
    requires GoodBucket(evs, g, b) && WholeCourse(evs, g, b) && |slots| <= |b.1| && |r| == |tag| == |evs|
    requires Assigned(r, tag, b.1, slots, enVentana, v, r', tag')
    requires |slots| < |b.1| ==> forall t :: ValidSlot(t) ==> !Free(RecordAll(occ, slots, g, evs[b.1[0]].profesor), g, evs[b.1[0]].profesor, true, t)
    ensures forall j :: 0 <= j < |r| && tag'[j] == Forced ==> tag[j] == Forced
    ensures forall k :: k in b.1 && tag'[k] == Kept ==> Stuck(evs, RecordAll(occ, slots, g, evs[b.1[0]].profesor), k)
  {
    var p := evs[b.1[0]].profesor;
    forall j | j in b.1[..|slots|] ensures j < |tag'| && (tag'[j] == Window(v) || tag'[j] == Expanded) {
      var a :| 0 <= a < |slots| && b.1[..|slots|][a] == j;
      assert b.1[a] == j;
    }
    assert b.1[..|b.1|] == b.1;
    forall k | k in b.1 && tag'[k] == Kept ensures Stuck(evs, RecordAll(occ, slots, g, p), k) {
      BucketHead(evs, g, b, k);
    }
  }

  /** Step 3 for the group record `grupos[gi]`: its subject buckets in key order. */
  method PlaceGroup(evs: seq<Event>, grupos: seq<Generation.Grupo>, r: seq<Event>, tag: seq<Tag>, occ: Occ, gi: nat)
    returns (r': seq<Event>, tag': seq<Tag>, occ': Occ)
    requires Sound(evs, grupos, r, tag, occ) && gi < |grupos|
    ensures Sound(evs, grupos, r', tag', occ')
    ensures forall j :: 0 <= j < |r| && evs[j].grupo != grupos[gi].id ==> r'[j] == r[j] && tag'[j] == tag[j]
    ensures occ.grupos <= occ'.grupos && occ.profesores <= occ'.profesores
    ensures forall j :: 0 <= j < |r| && tag'[j] == Forced ==> tag[j] == Forced
    ensures forall k :: 0 <= k < |r| && evs[k].grupo == grupos[gi].id && tag'[k] == Kept ==> Stuck(evs, occ', k)
  {
    var g := grupos[gi].id;
    var bs := SubjectBuckets(evs, g);
    r', tag', occ' := r, tag, occ;
    var i := 0;
    while i < |bs|
      invariant 0 <= i <= |bs|
      invariant Sound(evs, grupos, r', tag', occ')
      invariant GroupSoFar(evs, g, bs, i, r, tag, occ, r', tag', occ')
    {
      assert GoodBucket(evs, g, bs[i]) && WholeCourse(evs, g, bs[i]);
      var r2, tag2, occ2 := PlaceBucket(evs, grupos, r', tag', occ', gi, bs[i]);
      GroupSoFarStep(evs, g, bs, i, r, tag, occ, r', tag', occ', r2, tag2, occ2);
      r', tag', occ' := r2, tag2, occ2;
      i := i + 1;
    }
    GroupStuck(evs, g, tag', occ');
  }

  /** What the bucket loop of group `g` has kept and established after `i` buckets. */
  ghost predicate GroupSoFar(evs: seq<Event>, g: int, bs: seq<(int, seq<nat>)>, i: nat,
                             r: seq<Event>, tag: seq<Tag>, occ: Occ, r': seq<Event>, tag': seq<Tag>, occ': Occ)
  {
    |r| == |tag| == |r'| == |tag'| == |evs|
    && (forall j :: 0 <= j < |r| && evs[j].grupo != g ==> r'[j] == r[j] && tag'[j] == tag[j])
    && occ.grupos <= occ'.grupos && occ.profesores <= occ'.profesores
    && (forall j :: 0 <= j < |r| && tag'[j] == Forced ==> tag[j] == Forced)
    && BucketsStuck(evs, bs, i, tag', occ')
  }

  lemma GroupSoFarStep(evs: seq<Event>, g: int, bs: seq<(int, seq<nat>)>, i: nat,
                       r: seq<Event>, tag: seq<Tag>, occ: Occ, r1: seq<Event>, tag1: seq<Tag>, occ1: Occ,
                       r2: seq<Event>, tag2: seq<Tag>, occ2: Occ)
    requires i < |bs| && GoodBucket(evs, g, bs[i])
    requires GroupSoFar(evs, g, bs, i, r, tag, occ, r1, tag1, occ1)
    requires |r2| == |tag2| == |evs|
    requires forall j :: 0 <= j < |r1| && j !in bs[i].1 ==> r2[j] == r1[j] && tag2[j] == tag1[j]
    requires occ1.grupos <= occ2.grupos && occ1.profesores <= occ2.profesores
    requires forall j :: 0 <= j < |r1| && tag2[j] == Forced ==> tag1[j] == Forced
    requires forall k :: k in bs[i].1 && tag2[k] == Kept ==> Stuck(evs, occ2, k)
    ensures GroupSoFar(evs, g, bs, i + 1, r, tag, occ, r2, tag2, occ2)
  {
    BucketsStuckStep(evs, bs, i, tag1, occ1, tag2, occ2);
  }

  /** Once all its buckets are through, every unplaced event of the group is stuck. */
  lemma GroupStuck(evs: seq<Event>, g: int, tag: seq<Tag>, occ: Occ)
    requires |tag| == |evs|
    requires BucketsStuck(evs, SubjectBuckets(evs, g), |SubjectBuckets(evs, g)|, tag, occ)
    ensures forall k :: 0 <= k < |evs| && evs[k].grupo == g && tag[k] == Kept ==> Stuck(evs, occ, k)
  {
    forall k | 0 <= k < |evs| && evs[k].grupo == g && tag[k] == Kept ensures Stuck(evs, occ, k) {
      SubjectBucketsCover(evs, g, k);
    }
  }

  /** Every still unplaced event of the first `i` buckets is stuck. */
  ghost predicate BucketsStuck(evs: seq<Event>, bs: seq<(int, seq<nat>)>, i: nat, tag: seq<Tag>, occ: Occ)
  {
    forall a, k :: 0 <= a < i && a < |bs| && k in bs[a].1 && 0 <= k < |tag| && tag[k] == Kept ==> Stuck(evs, occ, k)
  }

  lemma BucketsStuckStep(evs: seq<Event>, bs: seq<(int, seq<nat>)>, i: nat, tag: seq<Tag>, occ: Occ, tag': seq<Tag>, occ': Occ)
    requires i < |bs| && |tag'| == |tag| && BucketsStuck(evs, bs, i, tag, occ)
    requires forall j :: 0 <= j < |tag| && j !in bs[i].1 ==> tag'[j] == tag[j]
    requires occ.grupos <= occ'.grupos && occ.profesores <= occ'.profesores
    requires forall k :: k in bs[i].1 && 0 <= k < |tag'| && tag'[k] == Kept ==> Stuck(evs, occ', k)
    ensures BucketsStuck(evs, bs, i + 1, tag', occ')
  {
    forall a, k | 0 <= a < i + 1 && a < |bs| && k in bs[a].1 && 0 <= k < |tag'| && tag'[k] == Kept ensures Stuck(evs, occ', k) {
      if k !in bs[i].1 {
        StuckGrows(evs, occ, occ', k);
      }
    }
  }

  /** Step 4 for event `k`: if it has no slot yet, the first slot of the grid its group leaves free. */
  method ForceOne(evs: seq<Event>, grupos: seq<Generation.Grupo>, r: seq<Event>, tag: seq<Tag>, occ: Occ, k: nat)
    returns (r': seq<Event>, tag': seq<Tag>, occ': Occ)
    requires Sound(evs, grupos, r, tag, occ) && k < |r|
    ensures Sound(evs, grupos, r', tag', occ')
    ensures occ.grupos <= occ'.grupos
    ensures forall j :: 0 <= j < |r| && j != k ==> r'[j] == r[j] && tag'[j] == tag[j]
    ensures !NotPlaced(r[k].slot) ==> r'[k] == r[k] && tag'[k] == tag[k]
    ensures NotPlaced(r'[k].slot) ==> forall t :: ValidSlot(t) ==> (t, r'[k].grupo) in occ'.grupos
    ensures occ.profesores <= occ'.profesores
    ensures tag'[k] != tag[k] ==> tag[k] == Kept && tag'[k] == Forced
  {
    r', tag', occ' := r, tag, occ;
    var e := r[k];
    if NotPlaced(e.slot) {
      assert EventOk(evs, grupos, r, tag, occ, k);
      var s := FirstFree(occ, e.grupo, e.profesor, false, 0, Hours - 1);
      if s.Some? {
        var t := s.value;
        r' := r[k := e.(slot := t)];
        tag' := tag[k := Forced];
        occ' := Record(occ, t, e.grupo, e.profesor);
        forall j | 0 <= j < |r'| ensures EventOk(evs, grupos, r', tag', occ', j) {
          assert EventOk(evs, grupos, r, tag, occ, j);
        }
        forall i, j | 0 <= i < |r'| && 0 <= j < |r'| && i != j && tag'[i] != Kept && tag'[j] != Kept && r'[i].grupo == r'[j].grupo
          ensures r'[i].slot != r'[j].slot
        {
          assert EventOk(evs, grupos, r, tag, occ, i) && EventOk(evs, grupos, r, tag, occ, j);
        }
      } else {
        forall t | ValidSlot(t) ensures (t, e.grupo) in occ.grupos {
          assert InWindow(t, 0, Hours - 1);
        }
      }
    }
  }

  /** Every event of the first `n` group records that phases 1 and 2 left unplaced is stuck. */
  ghost predicate ListedStuck(evs: seq<Event>, grupos: seq<Generation.Grupo>, n: nat, tag: seq<Tag>, occ: Occ)
  {
    forall k, a :: (0 <= k < |tag| && k < |evs| && 0 <= a < n && a < |grupos| && grupos[a].id == evs[k].grupo
                    && (tag[k] == Kept || tag[k] == Forced)) ==> Stuck(evs, occ, k)
  }

  lemma ListedStuckStep(evs: seq<Event>, grupos: seq<Generation.Grupo>, gi: nat, tag: seq<Tag>, occ: Occ, tag': seq<Tag>, occ': Occ)
    requires gi < |grupos| && |tag| == |tag'| == |evs|
    requires ListedStuck(evs, grupos, gi, tag, occ) && forall j :: 0 <= j < |tag| ==> tag[j] != Forced
    requires forall j :: 0 <= j < |tag| && evs[j].grupo != grupos[gi].id ==> tag'[j] == tag[j]
    requires occ.grupos <= occ'.grupos && occ.profesores <= occ'.profesores
    requires forall j :: 0 <= j < |tag| && tag'[j] == Forced ==> tag[j] == Forced
    requires forall k :: 0 <= k < |tag| && evs[k].grupo == grupos[gi].id && tag'[k] == Kept ==> Stuck(evs, occ', k)
    ensures ListedStuck(evs, grupos, gi + 1, tag', occ') && forall j :: 0 <= j < |tag'| ==> tag'[j] != Forced
  {
    forall k, a | 0 <= k < |tag'| && k < |evs| && 0 <= a < gi + 1 && a < |grupos| && grupos[a].id == evs[k].grupo
                  && (tag'[k] == Kept || tag'[k] == Forced)
      ensures Stuck(evs, occ', k)
    {
      if evs[k].grupo != grupos[gi].id {
        StuckGrows(evs, occ, occ', k);
      }
    }
  }

  /** Step 4 turns only unplaced events into forced ones. */
  lemma ListedStuckForce(evs: seq<Event>, grupos: seq<Generation.Grupo>, tag: seq<Tag>, tag': seq<Tag>, occ: Occ, k: nat)
    requires k < |tag| == |tag'| && ListedStuck(evs, grupos, |grupos|, tag, occ)
    requires forall j :: 0 <= j < |tag| && j != k ==> tag'[j] == tag[j]
    requires tag'[k] != tag[k] ==> tag[k] == Kept && tag'[k] == Forced
    ensures ListedStuck(evs, grupos, |grupos|, tag', occ)
  {
  }

  /**
    Steps 1 to 4 of `optimizarEventos`. Group records are visited in list order and, within each,
    subjects in `Object.keys` order; a subject's hours go first to its group's shift window, at
    most `MaxPerDay` of them per day and cycle, then anywhere on the grid, always where neither the
    group nor the professor is recorded. Step 4 then forces every event still without a slot into
    the first slot its group leaves free, checking the group only. `tag` says what happened to
    each event.
   */
  method ConstruirHorario(evs: seq<Event>, grupos: seq<Generation.Grupo>) returns (r: seq<Event>, tag: seq<Tag>, occ: Occ, occFases: Occ)
    ensures |r| == |evs| == |tag|
    ensures forall k :: 0 <= k < |r| ==> r[k] == evs[k].(slot := r[k].slot)
    ensures forall k :: 0 <= k < |r| && tag[k] == Kept ==> r[k] == evs[k]
    ensures forall k :: 0 <= k < |r| && tag[k] != Kept ==> ValidSlot(r[k].slot)
    ensures forall k :: 0 <= k < |r| && tag[k] == Forced ==> NotPlaced(evs[k].slot)
    ensures forall k :: 0 <= k < |r| && tag[k].Window? ==> InShiftOf(grupos, r[k].grupo, r[k].slot, tag[k].vespertino)
    ensures GroupSlotsDistinct(r, tag)
    ensures OneProfessorPerCourse(evs) ==> ProfSlotsDistinct(r, tag)
    ensures forall k :: 0 <= k < |r| && NotPlaced(r[k].slot) ==>
      tag[k] == Kept && forall t :: ValidSlot(t) ==> (t, r[k].grupo) in occ.grupos
    ensures occFases.grupos <= occ.grupos && occFases.profesores <= occ.profesores
    ensures forall k, a :: 0 <= k < |r| && 0 <= a < |grupos| && grupos[a].id == evs[k].grupo && tag[k] == Forced ==>
      Stuck(evs, occFases, k)
  {
    r, tag, occ := evs, seq(|evs|, _ => Kept), EmptyOcc;
    var gi := 0;
    while gi < |grupos|
      invariant 0 <= gi <= |grupos|
      invariant Sound(evs, grupos, r, tag, occ)
      invariant forall j :: 0 <= j < |tag| ==> tag[j] != Forced
      invariant ListedStuck(evs, grupos, gi, tag, occ)
    {
      var r2, tag2, occ2 := PlaceGroup(evs, grupos, r, tag, occ, gi);
      ListedStuckStep(evs, grupos, gi, tag, occ, tag2, occ2);
      r, tag, occ := r2, tag2, occ2;
      gi := gi + 1;
    }
    occFases := occ;
    var k := 0;
    while k < |r|
      invariant 0 <= k <= |r|
      invariant Sound(evs, grupos, r, tag, occ)
      invariant forall j :: 0 <= j < k && NotPlaced(r[j].slot) ==> forall t :: ValidSlot(t) ==> (t, r[j].grupo) in occ.grupos
      invariant occFases.grupos <= occ.grupos && occFases.profesores <= occ.profesores
      invariant ListedStuck(evs, grupos, |grupos|, tag, occFases)
    {
      var r2, tag2, occ2 := ForceOne(evs, grupos, r, tag, occ, k);
      ListedStuckForce(evs, grupos, tag, tag2, occFases, k);
      r, tag, occ := r2, tag2, occ2;
      k := k + 1;
    }
    forall k | 0 <= k < |r|
      ensures r[k] == evs[k].(slot := r[k].slot) && (tag[k] == Kept ==> r[k] == evs[k])
      ensures tag[k] != Kept ==> ValidSlot(r[k].slot)
      ensures tag[k] == Forced ==> NotPlaced(evs[k].slot)
      ensures tag[k].Window? ==> InShiftOf(grupos, r[k].grupo, r[k].slot, tag[k].vespertino)
    {
      assert EventOk(evs, grupos, r, tag, occ, k);
    }
  }
}
