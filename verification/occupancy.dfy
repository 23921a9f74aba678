/**
  The 5 x 14 occupancy grid both constructive placers keep (`ocupacion[dia][hora]`, a set of
  groups and a set of professors per slot), and the day-major first-fit search over it.
 */
module Occupancy {
  import opened Seqs
  import opened Domain

  /** The grid as two sets of (slot, id) pairs: which groups and which professors each slot holds. */
  datatype Occ = Occ(grupos: set<(Slot, int)>, profesores: set<(Slot, int)>)

  const EmptyOcc: Occ := Occ({}, {})

  /** Slot `s` holds neither group `g` nor, when `conProfesor`, professor `p`. */
  predicate Free(o: Occ, g: int, p: int, conProfesor: bool, s: Slot)
  {
    (s, g) !in o.grupos && (!conProfesor || (s, p) !in o.profesores)
  }

  /** Marks group `g` and professor `p` as busy at `s` (the two `.add` calls). */
  function Record(o: Occ, s: Slot, g: int, p: int): (r: Occ)
    ensures (s, g) in r.grupos && (s, p) in r.profesores
    ensures o.grupos <= r.grupos && o.profesores <= r.profesores
    ensures |r.grupos - o.grupos| <= 1
  {
    var r := Occ(o.grupos + {(s, g)}, o.profesores + {(s, p)});
    assert r.grupos - o.grupos <= {(s, g)};
    r
  }

  /** Day-major scan order: slot `s` is visited before slot `t`. */
  predicate Before(s: Slot, t: Slot)
  {
    s.dia < t.dia || (s.dia == t.dia && s.hora < t.hora)
  }

  /** The scan order is the order of canonical slot identifiers. */
  lemma BeforeIsIdOrder(s: Slot, t: Slot)
    requires ValidSlot(s) && ValidSlot(t)
    ensures Before(s, t) <==> SlotId(s) < SlotId(t)
  {
    if s.dia < t.dia {
      assert SlotId(s) < (s.dia + 1) * Hours <= t.dia * Hours <= SlotId(t);
    } else if s.dia > t.dia {
      assert SlotId(t) < (t.dia + 1) * Hours <= s.dia * Hours <= SlotId(s);
    }
  }

  /** Slot `s` lies on one of the five days, with its period in `[lo, hi]`. */
  predicate InWindow(s: Slot, lo: int, hi: int)
  {
    0 <= s.dia < Days && lo <= s.hora <= hi
  }

  /**
    The first slot, scanning day by day and period `lo` to `hi` within each day, that is free of the
    group and (when asked) of the professor; `None` when every slot of the window is taken.
   */
  method FirstFree(o: Occ, g: int, p: int, conProfesor: bool, lo: int, hi: int) returns (r: Option<Slot>)
    ensures r.Some? ==> InWindow(r.value, lo, hi) && Free(o, g, p, conProfesor, r.value)
    ensures r.Some? ==> forall t :: InWindow(t, lo, hi) && Before(t, r.value) ==> !Free(o, g, p, conProfesor, t)
    ensures r.None? <==> forall t :: InWindow(t, lo, hi) ==> !Free(o, g, p, conProfesor, t)
  {
    var d := 0;
    while d < Days
      invariant 0 <= d <= Days
      invariant forall t :: InWindow(t, lo, hi) && t.dia < d ==> !Free(o, g, p, conProfesor, t)
    {
      var h := lo;
      while h <= hi
        invariant lo <= h
        invariant forall t :: InWindow(t, lo, hi) && t.dia == d && t.hora < h ==> !Free(o, g, p, conProfesor, t)
      {
        if Free(o, g, p, conProfesor, Slot(d, h)) {
          return Some(Slot(d, h));
        }
        h := h + 1;
      }
      d := d + 1;
    }
    return None;
  }

  /** The slots at which group `g` is recorded. */
  function SlotsOfGroup(occ: set<(Slot, int)>, g: int): set<Slot>
  {
    set q | q in occ && q.1 == g :: q.0
  }

  lemma SlotsOfGroupGrow(occ: set<(Slot, int)>, s: Slot, g': int, g: int)
    ensures SlotsOfGroup(occ + {(s, g')}, g) == SlotsOfGroup(occ, g) + (if g' == g then {s} else {})
  {
  }

  /** The 70 grid slots are distinct. */
  lemma GridOrderDistinct()
    ensures NoDups(GridOrder())
    ensures |Elems(GridOrder())| == SlotCount
  {
    var r := GridOrder();
    forall i, j | 0 <= i < j < |r| ensures r[i] != r[j] {
      SlotOfIdRoundTrip(i);
      SlotOfIdRoundTrip(j);
    }
    NoDupsCardinality(r);
  }

  /**
    A group recorded at fewer than 70 slots has a free slot somewhere on the grid: the fallback
    searches cannot fail for a group with at most 70 events.
   */
  lemma FreeSlotExists(occ: set<(Slot, int)>, g: int)
    requires |SlotsOfGroup(occ, g)| < SlotCount
    ensures exists t :: ValidSlot(t) && (t, g) !in occ
  {
    var all := Elems(GridOrder());
    GridOrderDistinct();
    if forall t :: ValidSlot(t) ==> (t, g) in occ {
      assert all <= SlotsOfGroup(occ, g) by {
        forall t | t in all ensures t in SlotsOfGroup(occ, g) {
          var k :| 0 <= k < SlotCount && GridOrder()[k] == t;
          assert ValidSlot(t);
          assert (t, g) in occ;
        }
      }
      assert |all| <= |SlotsOfGroup(occ, g)| by {
        SubsetCardinality(all, SlotsOfGroup(occ, g));
      }
      assert false;
    }
  }

  lemma SubsetCardinality<T>(a: set<T>, b: set<T>)
    requires a <= b
    ensures |a| <= |b|
  {
    assert b == a + (b - a);
  }
}
