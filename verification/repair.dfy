/**
  Step 5 of the web client's `optimizarEventos` (web/app.js): up to 300 rounds of local repair.
  Each round picks one event from the conflict list, tries it at every slot whose move is not
  tabu, and keeps the best of them only when it beats the origin slot's own count.
 */
module Repair {
  import opened Seqs
  import opened Domain
  import opened Occupancy
  import opened Conflicts
  import Tabu

  /** Rounds of the repair loop. */
  const MaxIter: nat := 300

  /** The tabu key `${evento.id}-${dia}-${hora}`: the rendering is injective for slots on the grid. */
  datatype MoveKey = MoveKey(id: int, dia: int, hora: int)

  function KeyOf(id: int, s: Slot): MoveKey
  {
    MoveKey(id, s.dia, s.hora)
  }

  /** Slot `t` has been tried once the scan stands at `(d, h)`. */
  predicate Scanned(t: Slot, d: int, h: int)
  {
    Before(t, Slot(d, h))
  }

  /** `t` is a slot the scan may try for event `i`: on the grid and not tabu. */
  predicate Open(r: seq<Event>, i: nat, tabu: seq<MoveKey>, t: Slot)
    requires i < |r|
  {
    ValidSlot(t) && KeyOf(r[i].id, t) !in tabu
  }

  /** `best` is empty exactly while no open slot has been tried. */
  ghost predicate NoneState(r: seq<Event>, i: nat, tabu: seq<MoveKey>, d: int, h: int, best: Option<Slot>)
    requires i < |r|
  {
    best.None? <==> forall t :: Open(r, i, tabu, t) && Scanned(t, d, h) ==> false
  }

  /** `best` is a tried open slot of least total count, the earliest such in scan order. */
  ghost predicate BestState(r: seq<Event>, i: nat, tabu: seq<MoveKey>, d: int, h: int, best: Option<Slot>, bestCount: nat)
    requires i < |r|
  {
    best.Some? ==>
      Open(r, i, tabu, best.value) && Scanned(best.value, d, h)
      && bestCount == JsHardCount(MoveTo(r, i, best.value))
      && forall t :: Open(r, i, tabu, t) && Scanned(t, d, h) ==>
           bestCount <= JsHardCount(MoveTo(r, i, t)) && (Before(t, best.value) ==> bestCount < JsHardCount(MoveTo(r, i, t)))
  }

  /** `last` is the latest open slot tried, and exists exactly when `best` does. */
  ghost predicate LastState(r: seq<Event>, i: nat, tabu: seq<MoveKey>, d: int, h: int, best: Option<Slot>, last: Option<Slot>)
    requires i < |r|
  {
    (last.Some? <==> best.Some?)
    && (last.Some? ==> Open(r, i, tabu, last.value) && Scanned(last.value, d, h)
                       && forall t :: Open(r, i, tabu, t) && Scanned(t, d, h) ==> t == last.value || Before(t, last.value))
  }

  /** What the scan has established over the slots it has tried. */
  ghost predicate ScanState(r: seq<Event>, i: nat, tabu: seq<MoveKey>, d: int, h: int,
                            best: Option<Slot>, bestCount: nat, last: Option<Slot>)
    requires i < |r|
  {
    NoneState(r, i, tabu, d, h, best) && BestState(r, i, tabu, d, h, best, bestCount) && LastState(r, i, tabu, d, h, best, last)
  }

  /**
    Trying slot `t`: a non-tabu slot becomes the last one tried, and the best one when it is the
    first found or its total count is strictly smaller.
   */
  function Try(r: seq<Event>, i: nat, tabu: seq<MoveKey>, t: Slot, best: Option<Slot>, bestCount: nat, last: Option<Slot>)
    : (res: (Option<Slot>, nat, Option<Slot>))
    requires i < |r|
    ensures KeyOf(r[i].id, t) in tabu ==> res == (best, bestCount, last)
    ensures KeyOf(r[i].id, t) !in tabu ==> res.2 == Some(t)
    ensures KeyOf(r[i].id, t) !in tabu && (best.None? || JsHardCount(MoveTo(r, i, t)) < bestCount) ==>
      res.0 == Some(t) && res.1 == JsHardCount(MoveTo(r, i, t))
    ensures KeyOf(r[i].id, t) !in tabu && best.Some? && bestCount <= JsHardCount(MoveTo(r, i, t)) ==>
      res.0 == best && res.1 == bestCount
  {
    if KeyOf(r[i].id, t) in tabu then (best, bestCount, last)
    else
      var c := JsHardCount(MoveTo(r, i, t));
      if best.None? || c < bestCount then (Some(t), c, Some(t)) else (best, bestCount, Some(t))
  }

  /** The slots tried once the scan passes `(d, h)` are those tried before, and `(d, h)`. */
  lemma ScannedStep(d: int, h: int)
    ensures forall u :: Scanned(u, d, h + 1) <==> Scanned(u, d, h) || u == Slot(d, h)
  {
  }

  /** Trying slot `(d, h)`: the scan moves one step. */
  lemma ScanStep(r: seq<Event>, i: nat, tabu: seq<MoveKey>, d: int, h: int,
                 best: Option<Slot>, bestCount: nat, last: Option<Slot>)
    requires i < |r| && 0 <= d < Days && 0 <= h < Hours
    requires ScanState(r, i, tabu, d, h, best, bestCount, last)
    ensures var n := Try(r, i, tabu, Slot(d, h), best, bestCount, last);
      ScanState(r, i, tabu, d, h + 1, n.0, n.1, n.2)
  {
    var n := Try(r, i, tabu, Slot(d, h), best, bestCount, last);
    ScannedStep(d, h);
    StepNone(r, i, tabu, d, h, best, bestCount, last);
    StepBest(r, i, tabu, d, h, best, bestCount, last);
    StepLast(r, i, tabu, d, h, best, bestCount, last);
  }

  lemma StepNone(r: seq<Event>, i: nat, tabu: seq<MoveKey>, d: int, h: int,
                 best: Option<Slot>, bestCount: nat, last: Option<Slot>)
    requires i < |r| && 0 <= d < Days && 0 <= h < Hours
    requires NoneState(r, i, tabu, d, h, best)
    requires forall u :: Scanned(u, d, h + 1) <==> Scanned(u, d, h) || u == Slot(d, h)
    ensures NoneState(r, i, tabu, d, h + 1, Try(r, i, tabu, Slot(d, h), best, bestCount, last).0)
  {
    var t := Slot(d, h);
    if KeyOf(r[i].id, t) in tabu {
      forall u | Open(r, i, tabu, u) && Scanned(u, d, h + 1) ensures Scanned(u, d, h) {
        assert u != t;
      }
    } else {
      assert Open(r, i, tabu, t) && Scanned(t, d, h + 1);
    }
  }

  lemma StepBest(r: seq<Event>, i: nat, tabu: seq<MoveKey>, d: int, h: int,
                 best: Option<Slot>, bestCount: nat, last: Option<Slot>)
    requires i < |r| && 0 <= d < Days && 0 <= h < Hours
    requires NoneState(r, i, tabu, d, h, best) && BestState(r, i, tabu, d, h, best, bestCount)
    requires forall u :: Scanned(u, d, h + 1) <==> Scanned(u, d, h) || u == Slot(d, h)
    ensures var n := Try(r, i, tabu, Slot(d, h), best, bestCount, last);
      BestState(r, i, tabu, d, h + 1, n.0, n.1)
  {
    var t := Slot(d, h);
    var n := Try(r, i, tabu, t, best, bestCount, last);
    if KeyOf(r[i].id, t) in tabu {
      assert n.0 == best && n.1 == bestCount;
      BestSkip(r, i, tabu, d, h, best, bestCount);
    } else {
      var c := JsHardCount(MoveTo(r, i, t));
      if best.None? || c < bestCount {
        assert n.0 == Some(t) && n.1 == c;
        BestTake(r, i, tabu, d, h, best, bestCount);
      } else {
        assert n.0 == best && n.1 == bestCount;
        BestKeep(r, i, tabu, d, h, best, bestCount);
      }
    }
  }

  /** A tabu slot changes nothing. */
  lemma BestSkip(r: seq<Event>, i: nat, tabu: seq<MoveKey>, d: int, h: int, best: Option<Slot>, bestCount: nat)
    requires i < |r| && KeyOf(r[i].id, Slot(d, h)) in tabu
    requires BestState(r, i, tabu, d, h, best, bestCount)
    requires forall u :: Scanned(u, d, h + 1) <==> Scanned(u, d, h) || u == Slot(d, h)
    ensures BestState(r, i, tabu, d, h + 1, best, bestCount)
  {
    forall u | Open(r, i, tabu, u) && Scanned(u, d, h + 1) ensures Scanned(u, d, h) {
      assert u != Slot(d, h);
    }
  }

  /** An open slot cheaper than every slot tried so far becomes the best one. */
  lemma BestTake(r: seq<Event>, i: nat, tabu: seq<MoveKey>, d: int, h: int, best: Option<Slot>, bestCount: nat)
    requires i < |r| && 0 <= d < Days && 0 <= h < Hours && KeyOf(r[i].id, Slot(d, h)) !in tabu
    requires best.None? || JsHardCount(MoveTo(r, i, Slot(d, h))) < bestCount
    requires NoneState(r, i, tabu, d, h, best) && BestState(r, i, tabu, d, h, best, bestCount)
    requires forall u :: Scanned(u, d, h + 1) <==> Scanned(u, d, h) || u == Slot(d, h)
    ensures BestState(r, i, tabu, d, h + 1, Some(Slot(d, h)), JsHardCount(MoveTo(r, i, Slot(d, h))))
  {
    var t := Slot(d, h);
    var c := JsHardCount(MoveTo(r, i, t));
    forall u | Open(r, i, tabu, u) && Scanned(u, d, h + 1)
      ensures c <= JsHardCount(MoveTo(r, i, u)) && (Before(u, t) ==> c < JsHardCount(MoveTo(r, i, u)))
    {
      if u != t {
        assert Scanned(u, d, h);
      }
    }
    assert Open(r, i, tabu, t) && Scanned(t, d, h + 1);
  }

  /** An open slot no cheaper than the best one leaves the best one in place. */
  lemma BestKeep(r: seq<Event>, i: nat, tabu: seq<MoveKey>, d: int, h: int, best: Option<Slot>, bestCount: nat)
    requires i < |r| && best.Some? && bestCount <= JsHardCount(MoveTo(r, i, Slot(d, h)))
    requires BestState(r, i, tabu, d, h, best, bestCount)
    requires forall u :: Scanned(u, d, h + 1) <==> Scanned(u, d, h) || u == Slot(d, h)
    ensures BestState(r, i, tabu, d, h + 1, best, bestCount)
  {
    var t := Slot(d, h);
    assert Before(best.value, t);
    forall u | Open(r, i, tabu, u) && Scanned(u, d, h + 1)
      ensures bestCount <= JsHardCount(MoveTo(r, i, u)) && (Before(u, best.value) ==> bestCount < JsHardCount(MoveTo(r, i, u)))
    {
      if u != t {
        assert Scanned(u, d, h);
      }
    }
  }

  lemma StepLast(r: seq<Event>, i: nat, tabu: seq<MoveKey>, d: int, h: int,
                 best: Option<Slot>, bestCount: nat, last: Option<Slot>)
    requires i < |r| && 0 <= d < Days && 0 <= h < Hours
    requires LastState(r, i, tabu, d, h, best, last)
    requires forall u :: Scanned(u, d, h + 1) <==> Scanned(u, d, h) || u == Slot(d, h)
    ensures var n := Try(r, i, tabu, Slot(d, h), best, bestCount, last);
      LastState(r, i, tabu, d, h + 1, n.0, n.2)
  {
  }

  /** Moving on to the next day. */
  lemma ScanNextDay(r: seq<Event>, i: nat, tabu: seq<MoveKey>, d: int,
                    best: Option<Slot>, bestCount: nat, last: Option<Slot>)
    requires i < |r|
    requires ScanState(r, i, tabu, d, Hours, best, bestCount, last)
    ensures ScanState(r, i, tabu, d + 1, 0, best, bestCount, last)
  {
    forall u | Open(r, i, tabu, u) && Scanned(u, d + 1, 0) ensures Scanned(u, d, Hours) {
    }
    forall u | Scanned(u, d, Hours) ensures Scanned(u, d + 1, 0) {
    }
  }

  /**
    The search for `mejorSlot`: every slot day by day and hour by hour, skipping tabu moves, keeping
    the first slot with the strictly smallest total count. `last` is where the event is left when
    the scan ends: the last slot tried.
   */
  method ScanSlots(r: seq<Event>, i: nat, tabu: seq<MoveKey>) returns (best: Option<Slot>, bestCount: nat, last: Option<Slot>)
    requires i < |r|
    ensures best.None? <==> forall t :: ValidSlot(t) ==> KeyOf(r[i].id, t) in tabu
    ensures best.Some? ==> Open(r, i, tabu, best.value) && bestCount == JsHardCount(MoveTo(r, i, best.value))
    ensures best.Some? ==> forall t :: Open(r, i, tabu, t) ==>
      bestCount <= JsHardCount(MoveTo(r, i, t)) && (Before(t, best.value) ==> bestCount < JsHardCount(MoveTo(r, i, t)))
    ensures last.Some? <==> best.Some?
    ensures last.Some? ==> Open(r, i, tabu, last.value) && forall t :: Open(r, i, tabu, t) ==> t == last.value || Before(t, last.value)
  {
    best, bestCount, last := None, 0, None;
    var d := 0;
    while d < Days
      invariant 0 <= d <= Days
      invariant ScanState(r, i, tabu, d, 0, best, bestCount, last)
    {
      best, bestCount, last := ScanDay(r, i, tabu, d, best, bestCount, last);
      d := d + 1;
    }
    ScanDone(r, i, tabu, best, bestCount, last);
  }

  /** The hours of day `d`, in order. */
  method ScanDay(r: seq<Event>, i: nat, tabu: seq<MoveKey>, d: int, best0: Option<Slot>, bestCount0: nat, last0: Option<Slot>)
    returns (best: Option<Slot>, bestCount: nat, last: Option<Slot>)
    requires i < |r| && 0 <= d < Days
    requires ScanState(r, i, tabu, d, 0, best0, bestCount0, last0)
    ensures ScanState(r, i, tabu, d + 1, 0, best, bestCount, last)
  {
    best, bestCount, last := best0, bestCount0, last0;
    var h := 0;
    while h < Hours
      invariant 0 <= h <= Hours
      invariant ScanState(r, i, tabu, d, h, best, bestCount, last)
    {
      ScanStep(r, i, tabu, d, h, best, bestCount, last);
      var n := Try(r, i, tabu, Slot(d, h), best, bestCount, last);
      best, bestCount, last := n.0, n.1, n.2;
      h := h + 1;
    }
    ScanNextDay(r, i, tabu, d, best, bestCount, last);
  }

  /** Once the scan has passed Friday, every slot of the grid has been tried. */
  lemma ScanDone(r: seq<Event>, i: nat, tabu: seq<MoveKey>, best: Option<Slot>, bestCount: nat, last: Option<Slot>)
    requires i < |r|
    requires ScanState(r, i, tabu, Days, 0, best, bestCount, last)
    ensures best.None? <==> forall t :: ValidSlot(t) ==> KeyOf(r[i].id, t) in tabu
    ensures best.Some? ==> Open(r, i, tabu, best.value) && bestCount == JsHardCount(MoveTo(r, i, best.value))
    ensures best.Some? ==> forall t :: Open(r, i, tabu, t) ==>
      bestCount <= JsHardCount(MoveTo(r, i, t)) && (Before(t, best.value) ==> bestCount < JsHardCount(MoveTo(r, i, t)))
    ensures last.Some? <==> best.Some?
    ensures last.Some? ==> Open(r, i, tabu, last.value) && forall t :: Open(r, i, tabu, t) ==> t == last.value || Before(t, last.value)
  {
    forall t | ValidSlot(t) ensures Scanned(t, Days, 0) {
    }
    if best.None? {
      forall t | ValidSlot(t) ensures KeyOf(r[i].id, t) in tabu {
        assert !(Open(r, i, tabu, t) && Scanned(t, Days, 0));
      }
    }
  }

  /**
    `calcularConflictosEnSlot(slotOriginal.dia, slotOriginal.hora)` as the code evaluates it: after
    the scan, with event `i` still sitting at the last slot tried.
   */
  function OriginCount(r: seq<Event>, i: nat, last: Option<Slot>): nat
    requires i < |r|
  {
    var cur := if last.Some? then MoveTo(r, i, last.value) else r;
    JsSlotConflicts(cur, r[i].slot.dia, r[i].slot.hora)
  }

  /** The origin's count never exceeds the total: leaving a slot cannot add conflicts there. */
  lemma OriginCountBound(r: seq<Event>, i: nat, last: Option<Slot>)
    requires i < |r|
    ensures OriginCount(r, i, last) <= JsHardCount(r)
  {
    var s := r[i].slot;
    SlotConflictsIsBucketTerm(r, s.dia, s.hora);
    if last.Some? {
      if last.value == s {
        assert MoveTo(r, i, last.value) == r;
      } else {
        SlotConflictsAfterLeaving(r, i, last.value);
      }
    }
  }

  /**
    One round for the chosen event `i`: the move to `best` is kept exactly when a slot was found
    and its total count is below the origin's count; its key then enters the tabu list. Otherwise
    the event goes back to where it was and nothing changes.
   */
  method RepairStep(r: seq<Event>, tabu: seq<MoveKey>, i: nat)
    returns (r': seq<Event>, tabu': seq<MoveKey>, best: Option<Slot>, last: Option<Slot>, accepted: bool)
    requires i < |r|
    ensures best.None? <==> forall t :: ValidSlot(t) ==> KeyOf(r[i].id, t) in tabu
    ensures best.Some? ==> Open(r, i, tabu, best.value)
    ensures best.Some? ==> forall t :: Open(r, i, tabu, t) ==>
      JsHardCount(MoveTo(r, i, best.value)) <= JsHardCount(MoveTo(r, i, t))
      && (Before(t, best.value) ==> JsHardCount(MoveTo(r, i, best.value)) < JsHardCount(MoveTo(r, i, t)))
    ensures last.Some? <==> best.Some?
    ensures last.Some? ==> Open(r, i, tabu, last.value) && forall t :: Open(r, i, tabu, t) ==> t == last.value || Before(t, last.value)
    ensures accepted <==> best.Some? && JsHardCount(MoveTo(r, i, best.value)) < OriginCount(r, i, last)
    ensures accepted ==> r' == MoveTo(r, i, best.value) && tabu' == Tabu.Push(tabu, KeyOf(r[i].id, best.value))
    ensures accepted ==> JsHardCount(r') < JsHardCount(r)
    ensures !accepted ==> r' == r && tabu' == tabu
  {
    var bestCount;
    best, bestCount, last := ScanSlots(r, i, tabu);
    var local := OriginCount(r, i, last);
    OriginCountBound(r, i, last);
    if best.Some? && bestCount < local {
      r' := MoveTo(r, i, best.value);
      tabu' := Tabu.Push(tabu, KeyOf(r[i].id, best.value));
      accepted := true;
    } else {
      r', tabu', accepted := r, tabu, false;
    }
  }

  /** The tabu list as the loop keeps it: at most 30 distinct keys, each naming a slot of the grid. */
  predicate TabuOk(tabu: seq<MoveKey>)
  {
    |tabu| <= Tabu.Capacity && NoDups(tabu) && forall k :: 0 <= k < |tabu| ==> ValidSlot(Slot(tabu[k].dia, tabu[k].hora))
  }

  /** What the repair loop keeps from round to round. */
  predicate Progress(evs: seq<Event>, r: seq<Event>, tabu: seq<MoveKey>, moves: nat)
  {
    |r| == |evs|
    && (forall k :: 0 <= k < |r| ==> r[k] == evs[k].(slot := r[k].slot))
    && (forall k :: 0 <= k < |r| && r[k] != evs[k] ==> ValidSlot(r[k].slot))
    && JsHardCount(r) + moves <= JsHardCount(evs)
    && TabuOk(tabu) && |tabu| <= moves
  }

  /** One round keeps the loop's invariant: a kept move is one more move, on the grid, and lowers the count. */
  lemma RoundKeeps(evs: seq<Event>, r: seq<Event>, tabu: seq<MoveKey>, moves: nat, i: nat,
                   r': seq<Event>, tabu': seq<MoveKey>, best: Option<Slot>, accepted: bool)
    requires Progress(evs, r, tabu, moves) && i < |r|
    requires accepted ==> (best.Some? && Open(r, i, tabu, best.value) && r' == MoveTo(r, i, best.value)
                           && tabu' == Tabu.Push(tabu, KeyOf(r[i].id, best.value)) && JsHardCount(r') < JsHardCount(r))
    requires !accepted ==> r' == r && tabu' == tabu
    ensures Progress(evs, r', tabu', if accepted then moves + 1 else moves)
  {
    if accepted {
      var key := KeyOf(r[i].id, best.value);
      Tabu.PushNoDups(tabu, key);
      forall k | 0 <= k < |r'| && r'[k] != evs[k] ensures ValidSlot(r'[k].slot) {
        if k != i {
          assert r'[k] == r[k];
        }
      }
    }
  }

  /**
    The repair loop. `pick(iter)` stands for `Math.random()` in round `iter`: the chosen event is
    entry `pick(iter) mod n` of the conflict list. `iters` is the round at which the loop stopped,
    `moves` the number of moves it kept.
   */
  method BuscarTabu(evs: seq<Event>, pick: nat -> nat) returns (r: seq<Event>, tabu: seq<MoveKey>, iters: nat, moves: nat)
    ensures |r| == |evs|
    ensures forall k :: 0 <= k < |r| ==> r[k] == evs[k].(slot := r[k].slot)
    ensures forall k :: 0 <= k < |r| && r[k] != evs[k] ==> ValidSlot(r[k].slot)
    ensures iters <= MaxIter
    ensures iters < MaxIter ==> |ConflictingEvents(r)| == 0 && ClashFree(r)
    ensures JsHardCount(r) + moves <= JsHardCount(evs)
    ensures TabuOk(tabu) && |tabu| <= moves
  {
    r, tabu, iters, moves := evs, [], 0, 0;
    while iters < MaxIter
      invariant iters <= MaxIter
      invariant Progress(evs, r, tabu, moves)
    {
      var conf := ConflictingEvents(r);
      if |conf| == 0 {
        ConflictingEventsEmptyIff(r);
        return;
      }
      var i := conf[pick(iters) % |conf|];
      var r', tabu', best, last, accepted := RepairStep(r, tabu, i);
      RoundKeeps(evs, r, tabu, moves, i, r', tabu', best, accepted);
      if accepted {
        moves := moves + 1;
      }
      r, tabu := r', tabu';
      iters := iters + 1;
    }
  }
}
