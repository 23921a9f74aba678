/**
  The whole of the web client's `optimizarEventos` (web/app.js): the constructive steps 1 to 4,
  the repair loop of step 5, the compaction of step 6 and the final `calcularConflictos` count,
  both with the compaction as written and with the corrected pass of README.md's Findings.
 */
module Pipeline {
  import opened Domain
  import opened Seqs
  import opened Conflicts
  import Generation
  import Constructive
  import Repair
  import Compaction

  /** Only the slot of each event changes between `a` and `b`. */
  predicate SameEvents(a: seq<Event>, b: seq<Event>)
  {
    |a| == |b| && forall k :: 0 <= k < |a| ==> b[k] == a[k].(slot := b[k].slot)
  }

  lemma SameEventsIds(a: seq<Event>, b: seq<Event>)
    requires SameEvents(a, b) && Compaction.UniqueIds(a)
    ensures Compaction.UniqueIds(b)
  {
    forall i, j | 0 <= i < |b| && 0 <= j < |b| && i != j ensures b[i].id != b[j].id {
      assert b[i].id == a[i].id && b[j].id == a[j].id;
    }
  }

  /** No slot holds two events of the same professor. */
  predicate ProfClashFree(evs: seq<Event>)
  {
    forall i, j :: 0 <= i < j < |evs| && evs[i].slot == evs[j].slot ==> evs[i].profesor != evs[j].profesor
  }

  lemma ProfRepeatsZero(evs: seq<Event>)
    requires Repeats(ProfKeys(evs)) == 0
    ensures ProfClashFree(evs)
  {
    RepeatsZeroIffNoDups(ProfKeys(evs));
    forall i, j | 0 <= i < j < |evs| && evs[i].slot == evs[j].slot ensures evs[i].profesor != evs[j].profesor {
      assert ProfKeys(evs)[i] != ProfKeys(evs)[j];
    }
  }

  /**
    Steps 1 to 5 of `optimizarEventos`: the constructive placement and the repair loop. `pick`
    stands for the random choices of the repair loop; `iters` is the round at which it stopped.
   */
  method Construct(evs: seq<Event>, grupos: seq<Generation.Grupo>, pick: nat -> nat)
    returns (r: seq<Event>, iters: nat)
    ensures SameEvents(evs, r)
    ensures forall k :: 0 <= k < |r| ==> r[k].slot == evs[k].slot || ValidSlot(r[k].slot)
    ensures iters <= Repair.MaxIter
    ensures iters < Repair.MaxIter ==> ClashFree(r)
  {
    var built, tag, occ, _ := Constructive.ConstruirHorario(evs, grupos);
    var tabu, moves;
    r, tabu, iters, moves := Repair.BuscarTabu(built, pick);
    forall k | 0 <= k < |r| ensures r[k].slot == evs[k].slot || ValidSlot(r[k].slot) {
      if r[k].slot != evs[k].slot && r[k] == built[k] {
        assert tag[k] != Constructive.Kept;
      }
    }
  }

  /**
    `optimizarEventos` as written, followed by `calcularConflictos().duros`: `antes` is the timetable
    after step 5 and `r` the one after `compactarHorarios`. An early stop of the repair loop leaves
    `antes` clash-free. The compaction as written keeps every day and, with unique ids, adds no
    professor clash, but it may move an event off the grid or onto another event of its group
    (README.md, Findings), so it promises only a professor-clash-free `r`.
   */
  method OptimizarEventos(evs: seq<Event>, grupos: seq<Generation.Grupo>, pick: nat -> nat)
    returns (r: seq<Event>, iters: nat, duros: nat, antes: seq<Event>)
    ensures SameEvents(evs, antes) && SameEvents(antes, r)
    ensures forall k :: 0 <= k < |antes| ==> antes[k].slot == evs[k].slot || ValidSlot(antes[k].slot)
    ensures forall k :: 0 <= k < |r| ==> r[k].slot.dia == antes[k].slot.dia
    ensures forall k :: 0 <= k < |r| && r[k] != antes[k] ==>
      (exists gi :: 0 <= gi < |grupos| && grupos[gi].id == r[k].grupo) && 0 <= r[k].slot.dia < Days
    ensures iters <= Repair.MaxIter
    ensures duros == HardConflicts(r)
    ensures duros == 0 <==> ClashFree(r)
    ensures iters < Repair.MaxIter ==> ClashFree(antes)
    ensures Compaction.UniqueIds(evs) && iters < Repair.MaxIter ==> ProfClashFree(r)
  {
    antes, iters := Construct(evs, grupos, pick);
    r := Compaction.CompactarHorarios(antes, grupos);
    HardCountsAgree(r);
    duros := JsHardCount(r);
    HardConflictsZeroIff(r);
    if Compaction.UniqueIds(evs) && iters < Repair.MaxIter {
      SameEventsIds(evs, antes);
      HardConflictsZeroIff(antes);
      ProfRepeatsZero(r);
    }
  }

  /**
    `optimizarEventos` with the corrected compaction of README.md's Findings: every moved event
    lands on the grid, and with unique ids, stopping before the last repair round means no hard
    conflict at all.
   */
  method OptimizarEventosCorregido(evs: seq<Event>, grupos: seq<Generation.Grupo>, pick: nat -> nat)
    returns (r: seq<Event>, iters: nat, duros: nat)
    ensures SameEvents(evs, r)
    ensures forall k :: 0 <= k < |r| ==> r[k].slot == evs[k].slot || ValidSlot(r[k].slot)
    ensures iters <= Repair.MaxIter
    ensures duros == HardConflicts(r)
    ensures duros == 0 <==> ClashFree(r)
    ensures Compaction.UniqueIds(evs) && iters < Repair.MaxIter ==> duros == 0
  {
    var antes;
    antes, iters := Construct(evs, grupos, pick);
    r := Compaction.CompactarCorregido(antes, grupos);
    HardCountsAgree(r);
    duros := JsHardCount(r);
    HardConflictsZeroIff(r);
    forall k | 0 <= k < |r| ensures r[k].slot == evs[k].slot || ValidSlot(r[k].slot) {
      if r[k] != antes[k] {
        assert ValidSlot(r[k].slot);
      }
    }
    if Compaction.UniqueIds(evs) && iters < Repair.MaxIter {
      SameEventsIds(evs, antes);
      HardConflictsZeroIff(antes);
    }
  }
}
