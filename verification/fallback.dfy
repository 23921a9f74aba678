/**
  The server's pure-Python optimiser (`optimizar_python`), used when the compiled optimiser is not
  available: a single greedy first-fit pass over the events, then the hard-conflict count and a
  quality figure of its own. Despite its parameters it performs no tabu search: the iteration
  budget and the tabu size are ignored.
 */
module Fallback {
  import opened Seqs
  import opened Domain
  import opened Occupancy
  import opened Conflicts
  import Generation

  // ---------------------------------------------------------------- shift of a group

  /** `'-3' in nombre`. */
  function HasDashThree(s: string): (r: bool)
    ensures r <==> exists i :: 0 <= i < |s| - 1 && s[i] == '-' && s[i + 1] == '3'
  {
    if |s| < 2 then false
    else if s[0] == '-' && s[1] == '3' then true
    else
      var r := HasDashThree(s[1..]);
      assert forall i :: 0 < i < |s| - 1 ==> s[i] == s[1..][i - 1] && s[i + 1] == s[1..][i];
      r
  }

  /**
    The evening groups: `ITI 1-1`, `ITI 8-2` and every group whose name contains `-3`; all other
    groups study in the morning.
   */
  predicate EveningName(nombre: string)
  {
    nombre == "ITI 1-1" || HasDashThree(nombre) || nombre == "ITI 8-2"
  }

  /** The first group record with the given id (`next(...)` over the group list). */
  function FindGrupo(grupos: seq<Generation.Grupo>, id: int): (r: Option<Generation.Grupo>)
    ensures r.None? <==> forall k :: 0 <= k < |grupos| ==> grupos[k].id != id
    ensures r.Some? ==> exists k :: (0 <= k < |grupos| && grupos[k] == r.value && grupos[k].id == id
                                     && forall j :: 0 <= j < k ==> grupos[j].id != id)
  {
    if |grupos| == 0 then None
    else if grupos[0].id == id then Some(grupos[0])
    else
      var r := FindGrupo(grupos[1..], id);
      assert forall j :: 0 < j < |grupos| ==> grupos[j] == grupos[1..][j - 1];
      if r.Some? then
        var k :| 0 <= k < |grupos[1..]| && grupos[1..][k] == r.value && grupos[1..][k].id == id
          && forall j :: 0 <= j < k ==> grupos[1..][j].id != id;
        assert grupos[k + 1] == r.value;
        r
      else r
  }

  /** `es_vespertino`: false for a group id that is not in the list. */
  function EsVespertino(grupos: seq<Generation.Grupo>, id: int): (r: bool)
    ensures r <==> exists k :: (0 <= k < |grupos| && grupos[k].id == id && EveningName(grupos[k].nombre)
                                && forall j :: 0 <= j < k ==> grupos[j].id != id)
  {
    var g := FindGrupo(grupos, id);
    if g.None? then false
    else
      var k :| 0 <= k < |grupos| && grupos[k] == g.value && grupos[k].id == id && forall j :: 0 <= j < k ==> grupos[j].id != id;
      assert forall k' :: 0 <= k' < |grupos| && grupos[k'].id == id && (forall j :: 0 <= j < k' ==> grupos[j].id != id) ==> k' == k;
      EveningName(g.value.nombre)
  }

  /** Lowest and highest period of the first phase: 7 to 13 in the evening, 0 to 7 in the morning. */
  function ShiftWindow(vespertino: bool): (r: (int, int))
    ensures 0 <= r.0 <= r.1 < Hours
    ensures vespertino ==> r == (7, 13)
    ensures !vespertino ==> r == (0, 7)
  {
    if vespertino then (7, 13) else (0, 7)
  }

  // ---------------------------------------------------------------- quality

  /** `100.0 if conflictos_duros == 0 else max(0, 100.0 - conflictos_duros * 10)`. */
  function FallbackQuality(duros: int): (q: real)
    ensures duros == 0 ==> q == 100.0
    ensures duros != 0 && duros <= 10 ==> q == 100.0 - 10.0 * (duros as real)
    ensures duros >= 10 ==> q == 0.0
    ensures duros >= 0 ==> 0.0 <= q <= 100.0
    ensures duros >= 0 ==> (q == 100.0 <==> duros == 0)
  {
    if duros == 0 then 100.0
    else
      var c := 100.0 - (duros as real) * 10.0;
      if c < 0.0 then 0.0 else c
  }

  /**
    The two quality rules disagree on infeasible timetables: the fallback rates one to nine hard
    conflicts above zero, while `calcular_calidad` rates every infeasible solution 0.
   */
  lemma QualityRulesDiffer(duros: int)
    requires 0 < duros < 10
    ensures FallbackQuality(duros) > 0.0 && Quality(duros, 0) == 0.0
  {
  }

  /** The two rules agree on feasible timetables, where the fallback reports no soft penalty. */
  lemma QualityRulesAgreeWhenFeasible()
    ensures FallbackQuality(0) == Quality(0, 0) == 100.0
  {
  }

  // ---------------------------------------------------------------- the greedy pass

  /** How an event fared: placed in its shift window, placed by the whole-grid fallback, or not placed. */
  datatype Placement = Unplaced | InShift | Anywhere

  /** The result dictionary: events, hard count, soft penalty (always 0) and quality. */
  datatype FallbackResult = FallbackResult(eventos: seq<Event>, duros: int, blandas: int, calidad: real)

  /** The group of each event, in order. */
  function GroupIdsOf(evs: seq<Event>): (r: seq<int>)
    ensures |r| == |evs| && forall i :: 0 <= i < |evs| ==> r[i] == evs[i].grupo
  {
    seq(|evs|, i requires 0 <= i < |evs| => evs[i].grupo)
  }

  /** How many events belong to group `g`. */
  function EventsOfGroup(evs: seq<Event>, g: int): nat
  {
    Count(GroupIdsOf(evs), g)
  }

  lemma CountPrefixStep(s: seq<int>, m: nat, g: int)
    requires m < |s|
    ensures Count(s[..m + 1], g) == Count(s[..m], g) + (if s[m] == g then 1 else 0)
    ensures Count(s[..m + 1], g) <= Count(s, g)
  {
    assert s[..m + 1][..m] == s[..m];
    assert s == s[..m + 1] + s[m + 1..];
    CountConcat(s[..m + 1], s[m + 1..], g);
  }

  /** Group and professor pairs recorded by the events placed among the first `n`. */
  function PlacedGroups(r: seq<Event>, how: seq<Placement>, n: nat): set<(Slot, int)>
    requires n <= |r| == |how|
  {
    set j | 0 <= j < n && how[j] != Unplaced :: (r[j].slot, r[j].grupo)
  }

  function PlacedProfs(r: seq<Event>, how: seq<Placement>, n: nat): set<(Slot, int)>
    requires n <= |r| == |how|
  {
    set j | 0 <= j < n && how[j] != Unplaced :: (r[j].slot, r[j].profesor)
  }

  /** The occupancy grid as event `n` finds it: what the events placed before it recorded. */
  function OccBefore(r: seq<Event>, how: seq<Placement>, n: nat): Occ
    requires n <= |r| == |how|
  {
    Occ(PlacedGroups(r, how, n), PlacedProfs(r, how, n))
  }

  /** `s` is the first slot of the window, in scan order, that is free. */
  ghost predicate FirstFit(o: Occ, g: int, p: int, conProfesor: bool, lo: int, hi: int, s: Slot)
  {
    InWindow(s, lo, hi) && Free(o, g, p, conProfesor, s)
    && forall t :: InWindow(t, lo, hi) && Before(t, s) ==> !Free(o, g, p, conProfesor, t)
  }

  /** No slot of the window is free. */
  ghost predicate NoneFree(o: Occ, g: int, p: int, conProfesor: bool, lo: int, hi: int)
  {
    forall t :: InWindow(t, lo, hi) ==> !Free(o, g, p, conProfesor, t)
  }

  /** What the pass decided for an event `e`, which ended at `s`, given the grid `o` it found. */
  ghost predicate Decision(grupos: seq<Generation.Grupo>, o: Occ, e: Event, s: Slot, tag: Placement)
  {
    var w := ShiftWindow(EsVespertino(grupos, e.grupo));
    match tag
    case InShift => FirstFit(o, e.grupo, e.profesor, true, w.0, w.1, s)
    case Anywhere => NoneFree(o, e.grupo, e.profesor, true, w.0, w.1) && FirstFit(o, e.grupo, e.profesor, false, 0, Hours - 1, s)
    case Unplaced => NoneFree(o, e.grupo, e.profesor, false, 0, Hours - 1) && s == e.slot
  }

  /** Event `j` of the output was placed as the pass's rule prescribes. */
  ghost predicate Decided(evs: seq<Event>, grupos: seq<Generation.Grupo>, r: seq<Event>, how: seq<Placement>, j: nat)
    requires j < |evs| == |r| == |how|
  {
    Decision(grupos, OccBefore(r, how, j), evs[j], r[j].slot, how[j])
  }

  /** One event: its shift window first, the whole grid for its group alone second. */
  method PlaceEvent(o: Occ, e: Event, grupos: seq<Generation.Grupo>) returns (s: Option<Slot>, tag: Placement)
    ensures s.Some? <==> tag != Unplaced
    ensures Decision(grupos, o, e, if s.Some? then s.value else e.slot, tag)
  {
    var w := ShiftWindow(EsVespertino(grupos, e.grupo));
    s := FirstFree(o, e.grupo, e.profesor, true, w.0, w.1);
    tag := InShift;
    if s.None? {
      s := FirstFree(o, e.grupo, e.profesor, false, 0, Hours - 1);
      tag := if s.Some? then Anywhere else Unplaced;
    }
  }

  /** Changing entry `i` leaves the grid seen by events up to `i` and their decisions as they were. */
  lemma FrameStep(evs: seq<Event>, grupos: seq<Generation.Grupo>, r: seq<Event>, how: seq<Placement>,
                  r': seq<Event>, how': seq<Placement>, i: nat)
    requires i < |evs| == |r| == |how| == |r'| == |how'|
    requires forall j :: 0 <= j < |r| && j != i ==> r'[j] == r[j] && how'[j] == how[j]
    requires forall j :: 0 <= j < i ==> Decided(evs, grupos, r, how, j)
    ensures forall j :: 0 <= j <= i ==> OccBefore(r', how', j) == OccBefore(r, how, j)
    ensures forall j :: 0 <= j < i ==> Decided(evs, grupos, r', how', j)
  {
    forall j | 0 <= j <= i ensures OccBefore(r', how', j) == OccBefore(r, how, j) {
      assert PlacedGroups(r', how', j) == PlacedGroups(r, how, j);
      assert PlacedProfs(r', how', j) == PlacedProfs(r, how, j);
    }
    forall j | 0 <= j < i ensures Decided(evs, grupos, r', how', j) {
      assert Decided(evs, grupos, r, how, j);
      assert OccBefore(r', how', j) == OccBefore(r, how, j);
    }
  }

  /** The occupancy the next event finds adds the current event's pairs when it is placed. */
  lemma OccBeforeStep(r: seq<Event>, how: seq<Placement>, n: nat)
    requires n < |r| == |how|
    ensures how[n] != Unplaced ==> OccBefore(r, how, n + 1) == Record(OccBefore(r, how, n), r[n].slot, r[n].grupo, r[n].profesor)
    ensures how[n] == Unplaced ==> OccBefore(r, how, n + 1) == OccBefore(r, how, n)
  {
    assert PlacedGroups(r, how, n + 1) == PlacedGroups(r, how, n) + (if how[n] != Unplaced then {(r[n].slot, r[n].grupo)} else {});
    assert PlacedProfs(r, how, n + 1) == PlacedProfs(r, how, n) + (if how[n] != Unplaced then {(r[n].slot, r[n].profesor)} else {});
  }

  /** What the pass has established once the first `i` events are handled. */
  ghost predicate PassState(evs: seq<Event>, grupos: seq<Generation.Grupo>, r: seq<Event>, how: seq<Placement>, occ: Occ, i: nat)
  {
    i <= |evs| == |r| == |how|
    && (forall j :: 0 <= j < |evs| ==> r[j] == evs[j].(slot := r[j].slot))
    && (forall j :: i <= j < |evs| ==> r[j] == evs[j])
    && occ == OccBefore(r, how, i)
    && (forall j :: 0 <= j < i ==> Decided(evs, grupos, r, how, j))
  }

  /** The loop body: places event `i` and records it. */
  method PassStep(evs: seq<Event>, grupos: seq<Generation.Grupo>, r: seq<Event>, how: seq<Placement>, occ: Occ, i: nat)
    returns (r': seq<Event>, how': seq<Placement>, occ': Occ)
    requires i < |evs| && PassState(evs, grupos, r, how, occ, i)
    ensures PassState(evs, grupos, r', how', occ', i + 1)
  {
    var e := evs[i];
    var s, tag := PlaceEvent(occ, e, grupos);
    r' := if s.Some? then r[i := e.(slot := s.value)] else r;
    how' := how[i := tag];
    FrameStep(evs, grupos, r, how, r', how', i);
    OccBeforeStep(r', how', i);
    assert Decided(evs, grupos, r', how', i);
    occ' := if s.Some? then Record(occ, s.value, e.grupo, e.profesor) else occ;
  }

  /**
    `optimizar_python`. Each event in turn goes to the first day-major slot of its shift window
    where neither its group nor its professor is recorded; failing that, to the first slot of the
    whole grid where its group is not recorded; failing both it keeps the slot it came with.
    `how` reports which of the three happened to each event.
   */
  method OptimizarPython(evs: seq<Event>, grupos: seq<Generation.Grupo>) returns (res: FallbackResult, how: seq<Placement>)
    ensures |res.eventos| == |evs| == |how|
    ensures forall i :: 0 <= i < |evs| ==> res.eventos[i] == evs[i].(slot := res.eventos[i].slot)
    ensures forall i :: 0 <= i < |evs| ==> Decided(evs, grupos, res.eventos, how, i)
    ensures forall i, j :: (0 <= i < j < |evs| && how[i] != Unplaced && how[j] != Unplaced
                            && res.eventos[i].slot == res.eventos[j].slot) ==> res.eventos[i].grupo != res.eventos[j].grupo
    ensures forall i :: 0 <= i < |evs| && EventsOfGroup(evs, evs[i].grupo) <= SlotCount ==> how[i] != Unplaced
    ensures res.duros == HardConflicts(res.eventos)
    ensures res.duros == 0 <==> ClashFree(res.eventos)
    ensures res.blandas == 0 && res.calidad == FallbackQuality(res.duros)
  {
    var r := evs;
    how := seq(|evs|, _ => Unplaced);
    var occ := EmptyOcc;
    var i := 0;
    assert OccBefore(r, how, 0) == EmptyOcc;
    while i < |evs|
      invariant 0 <= i <= |evs| == |r| == |how|
      invariant PassState(evs, grupos, r, how, occ, i)
    {
      r, how, occ := PassStep(evs, grupos, r, how, occ, i);
      i := i + 1;
    }
    GroupsNeverShareSlot(evs, grupos, r, how);
    SmallGroupsPlaced(evs, grupos, r, how);
    var duros := HardCount(r);
    res := FallbackResult(r, duros, 0, FallbackQuality(duros));
  }

  /** Only the group is checked in the second phase, so the placed events never share a group and slot. */
  lemma GroupsNeverShareSlot(evs: seq<Event>, grupos: seq<Generation.Grupo>, r: seq<Event>, how: seq<Placement>)
    requires |evs| == |r| == |how|
    requires forall j :: 0 <= j < |evs| ==> Decided(evs, grupos, r, how, j)
    requires forall j :: 0 <= j < |evs| ==> r[j] == evs[j].(slot := r[j].slot)
    ensures forall i, j :: (0 <= i < j < |evs| && how[i] != Unplaced && how[j] != Unplaced
                            && r[i].slot == r[j].slot) ==> r[i].grupo != r[j].grupo
  {
    forall i, j | 0 <= i < j < |evs| && how[i] != Unplaced && how[j] != Unplaced && r[i].slot == r[j].slot
      ensures r[i].grupo != r[j].grupo
    {
      assert (r[i].slot, r[i].grupo) in PlacedGroups(r, how, j);
      assert Decided(evs, grupos, r, how, j);
    }
  }

  /** Each placed event of group `g` before position `n` accounts for at most one recorded slot of `g`. */
  lemma {:induction false} PlacedSlotsBound(r: seq<Event>, how: seq<Placement>, n: nat, g: int)
    requires n <= |r| == |how|
    ensures |SlotsOfGroup(PlacedGroups(r, how, n), g)| <= Count(GroupIdsOf(r)[..n], g)
  {
    if n > 0 {
      var m := n - 1;
      PlacedSlotsBound(r, how, m, g);
      OccBeforeStep(r, how, m);
      CountPrefixStep(GroupIdsOf(r), m, g);
      if how[m] != Unplaced {
        SlotsOfGroupGrow(PlacedGroups(r, how, m), r[m].slot, r[m].grupo, g);
      }
    }
  }

  /** A group with at most 70 events always finds a slot: the grid has 70 slots and each event takes one. */
  lemma SmallGroupsPlaced(evs: seq<Event>, grupos: seq<Generation.Grupo>, r: seq<Event>, how: seq<Placement>)
    requires |evs| == |r| == |how|
    requires forall j :: 0 <= j < |evs| ==> Decided(evs, grupos, r, how, j)
    requires forall j :: 0 <= j < |evs| ==> r[j] == evs[j].(slot := r[j].slot)
    ensures forall i :: 0 <= i < |evs| && EventsOfGroup(evs, evs[i].grupo) <= SlotCount ==> how[i] != Unplaced
  {
    assert GroupIdsOf(r) == GroupIdsOf(evs);
    forall i | 0 <= i < |evs| && EventsOfGroup(evs, evs[i].grupo) <= SlotCount ensures how[i] != Unplaced {
      var g := evs[i].grupo;
      if how[i] == Unplaced {
        assert Decided(evs, grupos, r, how, i);
        var occ := PlacedGroups(r, how, i);
        PlacedSlotsBound(r, how, i, g);
        CountPrefixStep(GroupIdsOf(evs), i, g);
        assert |SlotsOfGroup(occ, g)| < SlotCount;
        FreeSlotExists(occ, g);
        var t :| ValidSlot(t) && (t, g) !in occ;
        assert InWindow(t, 0, Hours - 1);
        assert false;
      }
    }
  }

  /**
    The conflict count of the pass: per slot, repeated professors plus repeated groups, computed as
    `len(list) - len(set(list))` over the events of each slot.
   */
  method HardCount(evs: seq<Event>) returns (c: int)
    ensures c == HardConflicts(evs)
    ensures c == 0 <==> ClashFree(evs)
  {
    c := PyHardCount(evs);
    HardCountsAgree(evs);
    HardConflictsZeroIff(evs);
  }
}
