/**
  The shared data layout of the timetabling engine: the 5-day x 14-period weekly grid,
  slot identifiers, scheduled events and the scored solution with its quality rule.
 */
module Domain {

  /** Monday (0) to Friday (4). */
  const Days: int := 5
  /** Fourteen 55-minute periods per day, numbered 0 to 13. */
  const Hours: int := 14
  const SlotCount: int := 70

  /** A (day, period) position of the weekly grid. Events that are not yet placed carry (-1, -1). */
  datatype Slot = Slot(dia: int, hora: int)

  const Unassigned: Slot := Slot(-1, -1)

  predicate ValidSlot(s: Slot)
  {
    0 <= s.dia < Days && 0 <= s.hora < Hours
  }

  /** The slot with canonical identifier `k` (the inverse of `SlotId` on the grid). */
  function SlotOfId(k: int): (s: Slot)
    requires 0 <= k < SlotCount
    ensures ValidSlot(s)
  {
    Slot(k / Hours, k % Hours)
  }

  /** Canonical slot identifier `dia * 14 + hora` (`Slot::get_id`). */
  function SlotId(s: Slot): (r: int)
    ensures ValidSlot(s) ==> 0 <= r < SlotCount
    ensures ValidSlot(s) ==> SlotOfId(r) == s
  {
    s.dia * Hours + s.hora
  }

  /** Every identifier of the grid names exactly one valid slot. */
  lemma SlotOfIdRoundTrip(k: int)
    requires 0 <= k < SlotCount
    ensures SlotId(SlotOfId(k)) == k
  {
  }

  /** Distinct valid slots have distinct identifiers. */
  lemma SlotIdInjective(s: Slot, t: Slot)
    requires ValidSlot(s) && ValidSlot(t)
    ensures SlotId(s) == SlotId(t) <==> s == t
  {
    if SlotId(s) == SlotId(t) {
      assert SlotOfId(SlotId(s)) == s;
    }
  }

  /** Outside the grid the identifier is not unique: period 14 of Monday is period 0 of Tuesday. */
  lemma SlotIdCollidesOutsideGrid()
    ensures SlotId(Slot(0, 14)) == SlotId(Slot(1, 0)) && Slot(0, 14) != Slot(1, 0)
  {
  }

  /** The 70 grid slots in day-major order (day 0 periods 0..13, then day 1, ...). */
  function GridOrder(): (r: seq<Slot>)
    ensures |r| == SlotCount
    ensures forall k :: 0 <= k < SlotCount ==> r[k] == SlotOfId(k)
  {
    seq(SlotCount, k requires 0 <= k < SlotCount => SlotOfId(k))
  }

  /** One scheduled occurrence: a subject taught by a professor to a group in a room at a slot. */
  datatype Event = Event(id: int, materia: int, profesor: int, grupo: int, aula: int, slot: Slot)

  /** The default-constructed slot, event and solution of the engine's data layout. */
  function DefaultSlot(): Slot { Slot(0, 0) }

  function DefaultEvent(): Event { Event(0, 0, 0, 0, -1, DefaultSlot()) }

  /** A scored timetable: events plus hard-conflict count, soft penalty and quality in percent. */
  datatype Solution = Solution(eventos: seq<Event>, duros: int, blandas: int, calidad: real)

  function DefaultSolution(): Solution { Solution([], 0, 0, 0.0) }

  /**
    Quality of a solution (`Solucion::calcular_calidad`): infeasible solutions are rated at the
    floor; feasible ones lose one point per ten points of soft penalty, never going below zero.
    The C++ computes in `double`; here the arithmetic is exact.
   */
  function Quality(duros: int, blandas: int): (q: real)
    ensures duros != 0 ==> q == 0.0
    ensures duros == 0 && blandas <= 1000 ==> q == 100.0 - (blandas as real) / 10.0
    ensures duros == 0 && blandas >= 1000 ==> q == 0.0
    ensures blandas >= 0 ==> 0.0 <= q <= 100.0
    ensures q > 0.0 <==> duros == 0 && blandas < 1000
    ensures blandas >= 0 ==> (q == 100.0 <==> duros == 0 && blandas == 0)
  {
    if duros == 0 then
      var c := 100.0 - (blandas as real) / 10.0;
      if c < 0.0 then 0.0 else c
    else 0.0
  }

  /** `Solucion::calcular_calidad`: recomputes the cached quality and leaves everything else as it is. */
  function CalcularCalidad(s: Solution): (r: Solution)
    ensures r.eventos == s.eventos && r.duros == s.duros && r.blandas == s.blandas
    ensures r.calidad == Quality(s.duros, s.blandas)
  {
    s.(calidad := Quality(s.duros, s.blandas))
  }

  /** More soft penalty never yields a better feasible quality. */
  lemma QualityAntitone(duros: int, b1: int, b2: int)
    requires b1 <= b2
    ensures Quality(duros, b2) <= Quality(duros, b1)
  {
  }

  /**
    A default event has no room (-1) and sits at slot (0, 0); a default solution is empty with all
    scores zero, and recomputing its quality rates it 100, not the 0 it is constructed with.
   */
  lemma DefaultsAreEmpty()
    ensures DefaultEvent().aula == -1 && DefaultEvent().slot == Slot(0, 0) && ValidSlot(DefaultEvent().slot)
    ensures DefaultSolution().eventos == [] && DefaultSolution().duros == 0
    ensures DefaultSolution().blandas == 0 && DefaultSolution().calidad == 0.0
    ensures CalcularCalidad(DefaultSolution()).calidad == 100.0
  {
  }
}
