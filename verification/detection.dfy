/**
  The report-side conflict detector of the Python system (`detectar_conflictos`): one pass per
  resource (professor, group, room) keyed by (slot id, resource id), remembering the first event
  that held each key and reporting every later holder together with that first one; then one soft
  entry per event placed in a slot its professor does not want.
 */
module Detection {
  import opened Seqs
  import opened Domain
  import opened Conflicts

  /** Weight of a professor-preference violation (`PESO_PREFERENCIAS`). */
  const PesoPreferencias: int := 15

  datatype HardKind = ProfessorClash | GroupClash | RoomClash

  /**
    One reported conflict. A hard entry names the first holder of the key and the event that
    clashes with it; a soft entry names the single offending event and its penalty.
   */
  datatype Conflict =
    | Hard(kind: HardKind, slot: Slot, eventos: seq<int>)
    | Soft(slot: Slot, penalizacion: int, eventos: seq<int>)

  /** A professor record as far as the detector reads it: id and the slot ids it does not want. */
  datatype Profesor = Profesor(id: int, preferencias: seq<int>)

  // ---------------------------------------------------------------- per-key duplicate passes

  function Resource(kind: HardKind, e: Event): int
  {
    match kind
    case ProfessorClash => e.profesor
    case GroupClash => e.grupo
    case RoomClash => e.aula
  }

  /** The dictionary key of one pass: `(dia * 14 + hora, resource id)`. */
  function KeyOf(kind: HardKind, e: Event): (int, int)
  {
    (SlotId(e.slot), Resource(kind, e))
  }

  /** The room pass skips events without a room (`aula_id < 0`); the other passes see every event. */
  predicate Counted(kind: HardKind, e: Event)
  {
    kind != RoomClash || e.aula >= 0
  }

  /** Keys of the events a pass looks at, in event order. */
  function CountedKeys(kind: HardKind, evs: seq<Event>): seq<(int, int)>
  {
    if |evs| == 0 then []
    else
      var n := |evs| - 1;
      CountedKeys(kind, evs[..n]) + (if Counted(kind, evs[n]) then [KeyOf(kind, evs[n])] else [])
  }

  /** The first-holder dictionary (`ocupacion_*`) after the pass has seen `evs`. */
  function Holders(kind: HardKind, evs: seq<Event>): map<(int, int), int>
  {
    if |evs| == 0 then map[]
    else
      var n := |evs| - 1;
      var h := Holders(kind, evs[..n]);
      var e := evs[n];
      if Counted(kind, e) && KeyOf(kind, e) !in h then h[KeyOf(kind, e) := e.id] else h
  }

  /** The entries one pass appends, in event order. */
  function DupEntries(kind: HardKind, evs: seq<Event>): seq<Conflict>
  {
    if |evs| == 0 then []
    else
      var n := |evs| - 1;
      var h := Holders(kind, evs[..n]);
      var e := evs[n];
      DupEntries(kind, evs[..n])
        + (if Counted(kind, e) && KeyOf(kind, e) in h then [Hard(kind, e.slot, [h[KeyOf(kind, e)], e.id])] else [])
  }

  /** Event `i` is the first event the pass sees with its key. */
  predicate FirstHolder(kind: HardKind, evs: seq<Event>, i: int)
    requires 0 <= i < |evs|
  {
    Counted(kind, evs[i]) && forall j :: 0 <= j < i && Counted(kind, evs[j]) ==> KeyOf(kind, evs[j]) != KeyOf(kind, evs[i])
  }

  /** The dictionary holds a key exactly when some counted event has it, mapped to the first such event's id. */
  lemma {:induction false} HoldersFirst(kind: HardKind, evs: seq<Event>, k: (int, int))
    ensures k in Holders(kind, evs) <==> k in CountedKeys(kind, evs)
    ensures k in Holders(kind, evs) ==>
      exists i :: 0 <= i < |evs| && FirstHolder(kind, evs, i) && KeyOf(kind, evs[i]) == k && Holders(kind, evs)[k] == evs[i].id
  {
    if |evs| > 0 {
      var n := |evs| - 1;
      var p := evs[..n];
      var e := evs[n];
      HoldersFirst(kind, p, k);
      if k in Holders(kind, p) {
        var i :| 0 <= i < n && FirstHolder(kind, p, i) && KeyOf(kind, p[i]) == k && Holders(kind, p)[k] == p[i].id;
        assert evs[i] == p[i];
        forall j | 0 <= j < i && Counted(kind, evs[j]) ensures KeyOf(kind, evs[j]) != KeyOf(kind, evs[i]) {
          assert evs[j] == p[j];
        }
      } else if k in Holders(kind, evs) {
        assert Counted(kind, e) && KeyOf(kind, e) == k;
        forall j | 0 <= j < n && Counted(kind, evs[j]) ensures KeyOf(kind, evs[j]) != k {
          assert evs[j] == p[j];
          CountedKeysMember(kind, p, j);
        }
      }
    }
  }

  lemma {:induction false} CountedKeysMember(kind: HardKind, evs: seq<Event>, j: int)
    requires 0 <= j < |evs| && Counted(kind, evs[j])
    ensures KeyOf(kind, evs[j]) in CountedKeys(kind, evs)
  {
    var n := |evs| - 1;
    if j < n {
      CountedKeysMember(kind, evs[..n], j);
    }
  }

  /** Each pass reports exactly one entry per repeated key: k - 1 entries for a key held k times. */
  lemma {:induction false} DupEntriesCount(kind: HardKind, evs: seq<Event>)
    ensures |DupEntries(kind, evs)| == Repeats(CountedKeys(kind, evs))
  {
    if |evs| > 0 {
      var n := |evs| - 1;
      var e := evs[n];
      DupEntriesCount(kind, evs[..n]);
      HoldersFirst(kind, evs[..n], KeyOf(kind, e));
      if Counted(kind, e) {
        assert CountedKeys(kind, evs) == CountedKeys(kind, evs[..n]) + [KeyOf(kind, e)];
        RepeatsSnoc(CountedKeys(kind, evs[..n]), KeyOf(kind, e));
      } else {
        assert CountedKeys(kind, evs) == CountedKeys(kind, evs[..n]);
      }
    }
  }

  /** Entry `c` reports event `j` together with event `i`, the first holder of the same key. */
  ghost predicate PairedEntry(kind: HardKind, evs: seq<Event>, c: Conflict)
  {
    exists i, j :: 0 <= i < j < |evs| && FirstHolder(kind, evs, i) && Counted(kind, evs[j])
      && KeyOf(kind, evs[i]) == KeyOf(kind, evs[j]) && c == Hard(kind, evs[j].slot, [evs[i].id, evs[j].id])
  }

  /**
    Every entry of a pass pairs an event with the first earlier event holding the same key: the
    reported ids are those of that first holder and of the clashing event, in this order.
   */
  lemma {:induction false} DupEntriesPairing(kind: HardKind, evs: seq<Event>)
    ensures forall c :: c in DupEntries(kind, evs) ==> PairedEntry(kind, evs, c)
  {
    if |evs| > 0 {
      var n := |evs| - 1;
      var p := evs[..n];
      var e := evs[n];
      DupEntriesPairing(kind, p);
      forall c | c in DupEntries(kind, evs) ensures PairedEntry(kind, evs, c) {
        if c in DupEntries(kind, p) {
          var i, j :| 0 <= i < j < |p| && FirstHolder(kind, p, i) && Counted(kind, p[j])
            && KeyOf(kind, p[i]) == KeyOf(kind, p[j]) && c == Hard(kind, p[j].slot, [p[i].id, p[j].id]);
          FirstHolderPrefix(kind, evs, n, i);
          assert evs[j] == p[j];
        } else {
          var k := KeyOf(kind, e);
          HoldersFirst(kind, p, k);
          var i :| 0 <= i < n && FirstHolder(kind, p, i) && KeyOf(kind, p[i]) == k && Holders(kind, p)[k] == p[i].id;
          FirstHolderPrefix(kind, evs, n, i);
          assert c == Hard(kind, evs[n].slot, [evs[i].id, evs[n].id]);
        }
      }
    }
  }

  lemma FirstHolderPrefix(kind: HardKind, evs: seq<Event>, n: nat, i: int)
    requires 0 <= i < n <= |evs| && FirstHolder(kind, evs[..n], i)
    ensures FirstHolder(kind, evs, i)
  {
    forall j | 0 <= j < i && Counted(kind, evs[j]) ensures KeyOf(kind, evs[j]) != KeyOf(kind, evs[i]) {
      assert evs[j] == evs[..n][j];
    }
  }

  // ---------------------------------------------------------------- relation to the reference count

  /** Inside the grid the (slot id, resource) key identifies the (slot, resource) pair. */
  lemma {:induction false} CountedKeysAreProfKeys(evs: seq<Event>)
    requires forall i :: 0 <= i < |evs| ==> ValidSlot(evs[i].slot)
    ensures Repeats(CountedKeys(ProfessorClash, evs)) == Repeats(ProfKeys(evs))
    ensures Repeats(CountedKeys(GroupClash, evs)) == Repeats(GroupKeys(evs))
  {
    CountedProfKeys(evs);
    CountedGroupKeys(evs);
  }

  lemma CountedProfKeys(evs: seq<Event>)
    requires forall i :: 0 <= i < |evs| ==> ValidSlot(evs[i].slot)
    ensures Repeats(CountedKeys(ProfessorClash, evs)) == Repeats(ProfKeys(evs))
  {
    var f := (k: (Slot, int)) => (SlotId(k.0), k.1);
    KeysRenamed(evs, ProfessorClash);
    SlotKeysInjective(ProfKeys(evs));
    RepeatsInjectiveMap(ProfKeys(evs), CountedKeys(ProfessorClash, evs), f);
  }

  lemma CountedGroupKeys(evs: seq<Event>)
    requires forall i :: 0 <= i < |evs| ==> ValidSlot(evs[i].slot)
    ensures Repeats(CountedKeys(GroupClash, evs)) == Repeats(GroupKeys(evs))
  {
    var f := (k: (Slot, int)) => (SlotId(k.0), k.1);
    KeysRenamed(evs, GroupClash);
    SlotKeysInjective(GroupKeys(evs));
    RepeatsInjectiveMap(GroupKeys(evs), CountedKeys(GroupClash, evs), f);
  }

  /** On the grid, keys that agree once the slot is replaced by its id are the same key. */
  lemma SlotKeysInjective(keys: seq<(Slot, int)>)
    requires forall i :: 0 <= i < |keys| ==> ValidSlot(keys[i].0)
    ensures forall x, y :: x in keys && y in keys && (SlotId(x.0), x.1) == (SlotId(y.0), y.1) ==> x == y
  {
    forall x, y | x in keys && y in keys && (SlotId(x.0), x.1) == (SlotId(y.0), y.1) ensures x == y {
      var i :| 0 <= i < |keys| && keys[i] == x;
      var j :| 0 <= j < |keys| && keys[j] == y;
      SlotIdInjective(x.0, y.0);
    }
  }

  /** The professor and group passes see every event, keyed by the slot id in place of the slot. */
  lemma {:induction false} KeysRenamed(evs: seq<Event>, kind: HardKind)
    requires kind != RoomClash
    ensures |CountedKeys(kind, evs)| == |evs|
    ensures forall i :: 0 <= i < |evs| ==> CountedKeys(kind, evs)[i] == KeyOf(kind, evs[i])
  {
    if |evs| > 0 {
      var n := |evs| - 1;
      KeysRenamed(evs[..n], kind);
      forall i | 0 <= i < n ensures CountedKeys(kind, evs)[i] == KeyOf(kind, evs[i]) {
        assert evs[..n][i] == evs[i];
      }
    }
  }

  /**
    On the grid, the professor and group passes together report exactly as many clashes as the
    web client and the fallback optimiser count.
   */
  lemma DetectionAgreesOnGrid(evs: seq<Event>)
    requires forall i :: 0 <= i < |evs| ==> ValidSlot(evs[i].slot)
    ensures |DupEntries(ProfessorClash, evs)| + |DupEntries(GroupClash, evs)| == HardConflicts(evs)
    ensures |DupEntries(ProfessorClash, evs)| + |DupEntries(GroupClash, evs)| == JsHardCount(evs)
  {
    DupEntriesCount(ProfessorClash, evs);
    DupEntriesCount(GroupClash, evs);
    CountedKeysAreProfKeys(evs);
    HardCountsAgree(evs);
  }

  /**
    Off the grid the slot id is ambiguous: one professor at periods (0, 14) and (1, 0) is reported
    as a clash although the two slots differ.
   */
  lemma DetectionCollidesOffGrid()
    ensures var evs := [Event(0, 0, 7, 1, -1, Slot(0, 14)), Event(1, 0, 7, 2, -1, Slot(1, 0))];
      |DupEntries(ProfessorClash, evs)| == 1 && HardConflicts(evs) == 0
  {
    var evs := [Event(0, 0, 7, 1, -1, Slot(0, 14)), Event(1, 0, 7, 2, -1, Slot(1, 0))];
    DupEntriesCount(ProfessorClash, evs);
    assert evs[..1] == [evs[0]];
    assert CountedKeys(ProfessorClash, evs) == [(14, 7), (14, 7)];
    RepeatsSnoc([(14, 7)], (14, 7));
    assert Repeats([(14, 7)]) == 0;
    HardConflictsZeroIff(evs);
  }

  // ---------------------------------------------------------------- preference violations

  /** `profs[k]` is the first record with id `id`. */
  predicate FirstWithId(profs: seq<Profesor>, id: int, k: int)
  {
    0 <= k < |profs| && profs[k].id == id && forall j :: 0 <= j < k ==> profs[j].id != id
  }

  /** The first professor record with id `id` (`next(...)` over the professor list). */
  function FindProfesor(profs: seq<Profesor>, id: int): (r: Option<Profesor>)
    ensures r.None? <==> forall k :: 0 <= k < |profs| ==> profs[k].id != id
    ensures r.Some? ==> exists k :: FirstWithId(profs, id, k) && profs[k] == r.value
  {
    if |profs| == 0 then None
    else if profs[0].id == id then
      assert FirstWithId(profs, id, 0);
      Some(profs[0])
    else
      var r := FindProfesor(profs[1..], id);
      if r.Some? then
        var k :| FirstWithId(profs[1..], id, k) && profs[1..][k] == r.value;
        assert FirstWithId(profs, id, k + 1);
        r
      else r
  }

  /** The event sits in a slot its (first-found) professor record does not want. */
  predicate Unwanted(profs: seq<Profesor>, e: Event)
  {
    var p := FindProfesor(profs, e.profesor);
    p.Some? && SlotId(e.slot) in p.value.preferencias
  }

  /** The soft part of the report: one entry per unwanted placement, in event order. */
  function PreferenceEntries(evs: seq<Event>, profs: seq<Profesor>): (r: seq<Conflict>)
    ensures |r| <= |evs|
    ensures forall c :: c in r ==> c.Soft? && c.penalizacion == PesoPreferencias && |c.eventos| == 1
  {
    if |evs| == 0 then []
    else
      var e := evs[0];
      (if Unwanted(profs, e) then [Soft(e.slot, PesoPreferencias, [e.id])] else []) + PreferenceEntries(evs[1..], profs)
  }

  /** An event is reported as a preference violation exactly when its professor does not want its slot. */
  lemma {:induction false} PreferenceEntriesExact(evs: seq<Event>, profs: seq<Profesor>)
    ensures forall i :: 0 <= i < |evs| && Unwanted(profs, evs[i]) ==>
      Soft(evs[i].slot, PesoPreferencias, [evs[i].id]) in PreferenceEntries(evs, profs)
    ensures forall c :: c in PreferenceEntries(evs, profs) ==>
      exists i :: 0 <= i < |evs| && Unwanted(profs, evs[i]) && c == Soft(evs[i].slot, PesoPreferencias, [evs[i].id])
  {
    if |evs| > 0 {
      PreferenceEntriesExact(evs[1..], profs);
      forall i | 0 < i < |evs| ensures evs[i] == evs[1..][i - 1] {
      }
      forall c | c in PreferenceEntries(evs, profs)
        ensures exists i :: 0 <= i < |evs| && Unwanted(profs, evs[i]) && c == Soft(evs[i].slot, PesoPreferencias, [evs[i].id])
      {
        if c in PreferenceEntries(evs[1..], profs) {
          var i :| 0 <= i < |evs[1..]| && Unwanted(profs, evs[1..][i]) && c == Soft(evs[1..][i].slot, PesoPreferencias, [evs[1..][i].id]);
          assert evs[i + 1] == evs[1..][i];
        }
      }
    }
  }

  // ---------------------------------------------------------------- the full report

  /** Position of an entry's section in the report: professor, group, room clashes, then soft entries. */
  function Section(c: Conflict): nat
  {
    match c
    case Hard(kind, _, _) => (match kind case ProfessorClash => 0 case GroupClash => 1 case RoomClash => 2)
    case Soft(_, _, _) => 3
  }

  /** `detectar_conflictos`: the three duplicate passes followed by the preference pass. */
  function DetectarConflictos(evs: seq<Event>, profs: seq<Profesor>): seq<Conflict>
  {
    DupEntries(ProfessorClash, evs) + DupEntries(GroupClash, evs) + DupEntries(RoomClash, evs)
      + PreferenceEntries(evs, profs)
  }

  lemma {:induction false} DupEntriesKind(kind: HardKind, evs: seq<Event>)
    ensures forall c :: c in DupEntries(kind, evs) ==> c.Hard? && c.kind == kind && |c.eventos| == 2
  {
    if |evs| > 0 {
      DupEntriesKind(kind, evs[..|evs| - 1]);
    }
  }

  /**
    The report lists professor clashes, then group clashes, then room clashes, then preference
    violations; its hard entries number the professor and group repeats plus the room repeats
    among events that have a room.
   */
  lemma DetectarConflictosShape(evs: seq<Event>, profs: seq<Profesor>)
    ensures forall a, b :: 0 <= a < b < |DetectarConflictos(evs, profs)| ==>
      Section(DetectarConflictos(evs, profs)[a]) <= Section(DetectarConflictos(evs, profs)[b])
    ensures |DetectarConflictos(evs, profs)| == Repeats(CountedKeys(ProfessorClash, evs))
      + Repeats(CountedKeys(GroupClash, evs)) + Repeats(CountedKeys(RoomClash, evs))
      + |PreferenceEntries(evs, profs)|
  {
    var p, g, r, s := DupEntries(ProfessorClash, evs), DupEntries(GroupClash, evs), DupEntries(RoomClash, evs),
      PreferenceEntries(evs, profs);
    DupEntriesKind(ProfessorClash, evs);
    DupEntriesKind(GroupClash, evs);
    DupEntriesKind(RoomClash, evs);
    DupEntriesCount(ProfessorClash, evs);
    DupEntriesCount(GroupClash, evs);
    DupEntriesCount(RoomClash, evs);
    InSections(p, 0);
    InSections(g, 1);
    InSections(r, 2);
    InSections(s, 3);
    SectionsOrdered(p, g, r, s);
  }

  /** Every entry of `cs` belongs to section `n`. */
  predicate AllInSection(cs: seq<Conflict>, n: nat)
  {
    forall k :: 0 <= k < |cs| ==> Section(cs[k]) == n
  }

  lemma InSections(cs: seq<Conflict>, n: nat)
    requires n <= 3
    requires n < 3 ==> forall c :: c in cs ==> c.Hard? && c.kind == (if n == 0 then ProfessorClash else if n == 1 then GroupClash else RoomClash)
    requires n >= 3 ==> forall c :: c in cs ==> c.Soft?
    ensures AllInSection(cs, n)
  {
    forall k | 0 <= k < |cs| ensures Section(cs[k]) == n {
      assert cs[k] in cs;
    }
  }

  /** Four runs of ascending sections, concatenated, are in section order. */
  lemma SectionsOrdered(p: seq<Conflict>, g: seq<Conflict>, r: seq<Conflict>, s: seq<Conflict>)
    requires AllInSection(p, 0) && AllInSection(g, 1) && AllInSection(r, 2) && AllInSection(s, 3)
    ensures forall a, b :: 0 <= a < b < |p + g + r + s| ==> Section((p + g + r + s)[a]) <= Section((p + g + r + s)[b])
  {
    var all := p + g + r + s;
    forall k | 0 <= k < |all|
      ensures Section(all[k]) == (if k < |p| then 0 else if k < |p| + |g| then 1 else if k < |p| + |g| + |r| then 2 else 3)
    {
      if k < |p| {
        assert all[k] == p[k];
      } else if k < |p| + |g| {
        assert all[k] == g[k - |p|];
      } else if k < |p| + |g| + |r| {
        assert all[k] == r[k - |p| - |g|];
      } else {
        assert all[k] == s[k - |p| - |g| - |r|];
      }
    }
  }

  /** The room pass never reports an event that has no room. */
  lemma RoomlessNeverClash(evs: seq<Event>)
    requires forall i :: 0 <= i < |evs| ==> evs[i].aula < 0
    ensures DupEntries(RoomClash, evs) == []
  {
    DupEntriesCount(RoomClash, evs);
    RoomlessKeys(evs);
  }

  lemma {:induction false} RoomlessKeys(evs: seq<Event>)
    requires forall i :: 0 <= i < |evs| ==> evs[i].aula < 0
    ensures CountedKeys(RoomClash, evs) == []
  {
    if |evs| > 0 {
      RoomlessKeys(evs[..|evs| - 1]);
    }
  }
}
