/**
  Step 6 of the web client's `optimizarEventos`, `compactarHorarios` (web/app.js): for each group
  record and each day, the group's events of that day, sorted by hour, are pulled towards the
  day's first hour, one hour after another, whenever the professor is free there.

  The same definition, with `corrected` set, is the repaired pass the Findings of README.md
  describe: it also requires the group to be free at the target hour and the hour to lie on the grid.
 */
module Compaction {
  import opened Seqs
  import opened Domain
  import opened Conflicts
  import Generation

  /** No two events share an id, as the generators number them. */
  predicate UniqueIds(r: seq<Event>)
  {
    forall i, j :: 0 <= i < |r| && 0 <= j < |r| && i != j ==> r[i].id != r[j].id
  }

  /** Another event (by id) of event `k`'s professor sits at `(d, h)` (the `some(...)` test). */
  predicate ProfBusyAt(r: seq<Event>, k: nat, d: int, h: int)
    requires k < |r|
  {
    exists j :: 0 <= j < |r| && r[j].id != r[k].id && r[j].slot == Slot(d, h) && r[j].profesor == r[k].profesor
  }

  /** Another event of event `k`'s group sits at `(d, h)`. */
  predicate GroupBusyAt(r: seq<Event>, k: nat, d: int, h: int)
    requires k < |r|
  {
    exists j :: 0 <= j < |r| && j != k && r[j].slot == Slot(d, h) && r[j].grupo == r[k].grupo
  }

  /** Event `k` is moved to hour `h`: `profesorLibre && horaActual !== evento.slot.hora`, plus the corrected checks. */
  predicate CanMove(r: seq<Event>, k: nat, d: int, h: int, corrected: bool)
    requires k < |r|
  {
    !ProfBusyAt(r, k, d, h) && h != r[k].slot.hora
    && (corrected ==> 0 <= h < Hours && !GroupBusyAt(r, k, d, h))
  }

  /** The day's events of group `g`, with their hour as sort key, in list order. */
  function DayPairs(r: seq<Event>, g: int, d: int, n: nat): (s: seq<(int, nat)>)
    requires n <= |r|
    ensures forall x :: x in s <==> x.1 < n && r[x.1].grupo == g && r[x.1].slot.dia == d && x.0 == r[x.1].slot.hora
  {
    if n == 0 then []
    else
      var k := n - 1;
      DayPairs(r, g, d, k) + (if r[k].grupo == g && r[k].slot.dia == d then [(r[k].slot.hora, k)] else [])
  }

  function Seconds(s: seq<(int, nat)>): (r: seq<nat>)
    ensures |r| == |s| && forall i :: 0 <= i < |s| ==> r[i] == s[i].1
  {
    seq(|s|, i requires 0 <= i < |s| => s[i].1)
  }

  /**
    `eventosDelDia`: the events of group `g` on day `d`, sorted by hour with a stable sort. Every
    such event appears, and nothing else.
   */
  function DayItems(r: seq<Event>, g: int, d: int): (items: seq<nat>)
    ensures forall i :: 0 <= i < |items| ==> items[i] < |r|
    ensures forall k: nat :: k in items <==> k < |r| && r[k].grupo == g && r[k].slot.dia == d
    ensures forall i, j :: 0 <= i < j < |items| ==> r[items[i]].slot.hora <= r[items[j]].slot.hora
    ensures NoDups(items)
    ensures forall i, j :: 0 <= i < j < |items| && r[items[i]].slot.hora == r[items[j]].slot.hora ==> items[i] < items[j]
  {
    var ps := DayPairs(r, g, d, |r|);
    var sorted := SortByKey(ps);
    SortedPairsMembers(r, g, d, sorted);
    SortedPairsOrder(r, g, d, sorted);
    DayPairsAscending(r, g, d, |r|);
    SortByKeyLex(ps);
    SortedPairsStable(r, sorted);
    Seconds(sorted)
  }

  /** The day's pairs list the events in list order. */
  lemma {:induction false} DayPairsAscending(r: seq<Event>, g: int, d: int, n: nat)
    requires n <= |r|
    ensures ValuesAscending(DayPairs(r, g, d, n))
  {
    if n > 0 {
      var k := n - 1;
      var s := DayPairs(r, g, d, k);
      DayPairsAscending(r, g, d, k);
      var t := DayPairs(r, g, d, n);
      assert t == s + (if r[k].grupo == g && r[k].slot.dia == d then [(r[k].slot.hora, k)] else []);
      forall i, j | 0 <= i < j < |t| ensures t[i].1 < t[j].1 {
        assert t[i] == s[i] && s[i] in s;
        if j >= |s| {
          assert t[j].1 == k;
        } else {
          assert t[j] == s[j];
        }
      }
    }
  }

  /** Sorted with ties in list order, the items repeat nothing and keep list order among equal hours. */
  lemma SortedPairsStable(r: seq<Event>, sorted: seq<(int, nat)>)
    requires LexSorted(sorted)
    requires forall i :: 0 <= i < |sorted| ==> sorted[i].1 < |r| && sorted[i].0 == r[sorted[i].1].slot.hora
    ensures NoDups(Seconds(sorted))
    ensures forall i, j :: 0 <= i < j < |sorted| && r[Seconds(sorted)[i]].slot.hora == r[Seconds(sorted)[j]].slot.hora ==>
      Seconds(sorted)[i] < Seconds(sorted)[j]
  {
  }

  /** The sorted pairs hold exactly the day's events of the group, each with its own hour. */
  lemma SortedPairsMembers(r: seq<Event>, g: int, d: int, sorted: seq<(int, nat)>)
    requires multiset(sorted) == multiset(DayPairs(r, g, d, |r|))
    ensures forall x :: x in sorted <==> x.1 < |r| && r[x.1].grupo == g && r[x.1].slot.dia == d && x.0 == r[x.1].slot.hora
    ensures forall k: nat :: k in Seconds(sorted) <==> k < |r| && r[k].grupo == g && r[k].slot.dia == d
  {
    var ps := DayPairs(r, g, d, |r|);
    forall x ensures x in sorted <==> x in ps {
      assert x in sorted <==> x in multiset(sorted);
      assert x in ps <==> x in multiset(ps);
    }
    var items := Seconds(sorted);
    forall k: nat | k in items ensures k < |r| && r[k].grupo == g && r[k].slot.dia == d {
      var i :| 0 <= i < |items| && items[i] == k;
      assert sorted[i] in sorted;
    }
    forall k: nat | k < |r| && r[k].grupo == g && r[k].slot.dia == d ensures k in items {
      assert (r[k].slot.hora, k) in sorted;
      var i :| 0 <= i < |sorted| && sorted[i] == (r[k].slot.hora, k);
      assert items[i] == k;
    }
  }

  /** Sorted by key, the pairs list the events by nondecreasing hour. */
  lemma SortedPairsOrder(r: seq<Event>, g: int, d: int, sorted: seq<(int, nat)>)
    requires KeysSorted(sorted)
    requires forall x :: x in sorted ==> x.1 < |r| && x.0 == r[x.1].slot.hora
    ensures forall i :: 0 <= i < |sorted| ==> Seconds(sorted)[i] < |r|
    ensures forall i, j :: 0 <= i < j < |sorted| ==> r[Seconds(sorted)[i]].slot.hora <= r[Seconds(sorted)[j]].slot.hora
  {
    var items := Seconds(sorted);
    forall i | 0 <= i < |sorted| ensures items[i] < |r| {
      assert sorted[i] in sorted;
    }
    forall i, j | 0 <= i < j < |sorted| ensures r[items[i]].slot.hora <= r[items[j]].slot.hora {
      assert sorted[i] in sorted && sorted[j] in sorted;
    }
  }

  /**
    The pass keeps what the source promises of it: same events, only the hour changes, only events
    of the groups in `gs` on one of the five days change. The corrected pass also keeps moved events
    on the grid and never raises the hard count; both never raise professor repeats when ids are
    unique.
   */
  predicate Compacts(r: seq<Event>, r': seq<Event>, gs: set<int>, corrected: bool)
  {
    |r'| == |r|
    && (forall k :: 0 <= k < |r| ==> r'[k] == r[k].(slot := Slot(r[k].slot.dia, r'[k].slot.hora)))
    && (forall k :: 0 <= k < |r| && r'[k] != r[k] ==> r[k].grupo in gs && 0 <= r[k].slot.dia < Days)
    && (corrected ==> forall k :: 0 <= k < |r| && r'[k] != r[k] ==> ValidSlot(r'[k].slot))
    && (UniqueIds(r) ==> Repeats(ProfKeys(r')) <= Repeats(ProfKeys(r)))
    && (corrected && UniqueIds(r) ==> HardConflicts(r') <= HardConflicts(r))
  }

  lemma CompactsRefl(r: seq<Event>, gs: set<int>, corrected: bool)
    ensures Compacts(r, r, gs, corrected)
  {
  }

  lemma CompactsTrans(a: seq<Event>, b: seq<Event>, c: seq<Event>, gs: set<int>, gs': set<int>, corrected: bool)
    requires Compacts(a, b, gs, corrected) && Compacts(b, c, gs', corrected)
    ensures Compacts(a, c, gs + gs', corrected)
  {
    if UniqueIds(a) {
      assert UniqueIds(b) by {
        forall i, j | 0 <= i < |b| && 0 <= j < |b| && i != j ensures b[i].id != b[j].id {
          assert b[i].id == a[i].id && b[j].id == a[j].id;
        }
      }
    }
    forall k | 0 <= k < |a| && c[k] != a[k] ensures a[k].grupo in gs + gs' && 0 <= a[k].slot.dia < Days {
      if b[k] == a[k] {
        assert b[k].grupo in gs';
      }
    }
  }

  /** Replacing one element by a value no other position holds never adds a repeat. */
  lemma RepeatsReplaceFresh<T>(s: seq<T>, k: nat, x: T)
    requires k < |s|
    requires forall j :: 0 <= j < |s| && j != k ==> s[j] != x
    ensures Repeats(s[k := x]) <= Repeats(s)
  {
    var a, b := s[..k], s[k + 1..];
    var s' := s[k := x];
    assert s == a + [s[k]] + b;
    assert s' == a + [x] + b;
    RepeatsIsLengthMinusDistinct(s);
    RepeatsIsLengthMinusDistinct(s');
    assert Elems(s) == Elems(a + b) + {s[k]};
    assert Elems(s') == Elems(a + b) + {x};
    assert x !in Elems(a + b);
    assert |Elems(s')| == |Elems(a + b)| + 1;
  }

  /** Event `k` moved to hour `h` of its own day. */
  function Moved(r: seq<Event>, k: nat, h: int): (r': seq<Event>)
    requires k < |r|
    ensures |r'| == |r| && r'[k].slot == Slot(r[k].slot.dia, h)
    ensures forall j :: 0 <= j < |r| && j != k ==> r'[j] == r[j]
  {
    r[k := r[k].(slot := Slot(r[k].slot.dia, h))]
  }

  /**
    One visit of the `forEach`: event `k` of day `d` goes to hour `h` exactly when the test lets it,
    that is when no other event of the professor sits there and the event is not there already.
   */
  function Step(r: seq<Event>, k: nat, d: int, h: int, corrected: bool): (r': seq<Event>)
    requires k < |r| && r[k].slot.dia == d && 0 <= d < Days
    ensures Compacts(r, r', {r[k].grupo}, corrected)
    ensures r' != r <==> CanMove(r, k, d, h, corrected)
    ensures r' != r ==> !ProfBusyAt(r, k, d, h) && r' == Moved(r, k, h)
    ensures corrected && r' != r ==> !GroupBusyAt(r, k, d, h) && ValidSlot(r'[k].slot)
  {
    if CanMove(r, k, d, h, corrected) then
      var r' := Moved(r, k, h);
      StepRepeats(r, k, d, h, corrected);
      assert r'[k].slot.hora != r[k].slot.hora;
      r'
    else
      r
  }

  lemma StepRepeats(r: seq<Event>, k: nat, d: int, h: int, corrected: bool)
    requires k < |r| && r[k].slot.dia == d && CanMove(r, k, d, h, corrected)
    ensures UniqueIds(r) ==> Repeats(ProfKeys(Moved(r, k, h))) <= Repeats(ProfKeys(r))
    ensures corrected ==> Repeats(GroupKeys(Moved(r, k, h))) <= Repeats(GroupKeys(r))
  {
    var r' := Moved(r, k, h);
    var s := Slot(d, h);
    if UniqueIds(r) {
      assert ProfKeys(r') == ProfKeys(r)[k := (s, r[k].profesor)];
      forall j | 0 <= j < |r| && j != k ensures ProfKeys(r)[j] != (s, r[k].profesor) {
        assert r[j].id != r[k].id;
      }
      RepeatsReplaceFresh(ProfKeys(r), k, (s, r[k].profesor));
    }
    if corrected {
      assert GroupKeys(r') == GroupKeys(r)[k := (s, r[k].grupo)];
      RepeatsReplaceFresh(GroupKeys(r), k, (s, r[k].grupo));
    }
  }

  /** The `forEach` over `eventosDelDia` from hour `h` on: `horaActual++` after every event. */
  function Run(r: seq<Event>, items: seq<nat>, g: int, d: int, h: int, corrected: bool): (r': seq<Event>)
    requires 0 <= d < Days
    requires forall k :: k in items ==> k < |r| && r[k].grupo == g && r[k].slot.dia == d
    ensures Compacts(r, r', {g}, corrected)
    ensures RunPlaces(r, r', items, d, h, corrected)
    decreases |items|
  {
    if |items| == 0 then
      CompactsRefl(r, {g}, corrected);
      r
    else
      assert items[0] in items;
      var r1 := Step(r, items[0], d, h, corrected);
      assert forall k :: k in items[1..] ==> k in items;
      var r2 := Run(r1, items[1..], g, d, h + 1, corrected);
      CompactsTrans(r, r1, r2, {g}, {g}, corrected);
      RunPlacesStep(r, r1, r2, items, d, h, corrected);
      r2
  }

  /**
    Where a run from hour `h` leaves the events: nothing outside `items` changes and, when `items`
    repeats no index, the `i`-th item, if it moves at all, goes to hour `h + i` of its day, and it
    does go there when the test at the start already lets it.
   */
  predicate RunPlaces(r: seq<Event>, r': seq<Event>, items: seq<nat>, d: int, h: int, corrected: bool)
  {
    |r'| == |r|
    && (forall k :: 0 <= k < |r| && k !in items ==> r'[k] == r[k])
    && (NoDups(items) ==>
          forall i :: 0 <= i < |items| && items[i] < |r| && r'[items[i]] != r[items[i]] ==> r'[items[i]].slot == Slot(d, h + i))
    && (NoDups(items) ==>
          forall i :: 0 <= i < |items| && items[i] < |r| && CanMove(r, items[i], d, h + i, corrected) ==> r'[items[i]].slot == Slot(d, h + i))
  }

  lemma RunPlacesStep(r: seq<Event>, r1: seq<Event>, r2: seq<Event>, items: seq<nat>, d: int, h: int, corrected: bool)
    requires |items| > 0 && items[0] < |r| && r[items[0]].slot.dia == d
    requires r1 != r ==> r1 == Moved(r, items[0], h)
    requires CanMove(r, items[0], d, h, corrected) ==> r1 != r
    requires RunPlaces(r1, r2, items[1..], d, h + 1, corrected)
    ensures RunPlaces(r, r2, items, d, h, corrected)
  {
    var k0 := items[0];
    assert |r1| == |r|;
    forall k | 0 <= k < |r| && k !in items ensures r2[k] == r[k] {
      assert k !in items[1..] && k != k0;
    }
    if NoDups(items) {
      NoDupsTail(items);
      assert k0 !in items[1..];
      forall i | 0 <= i < |items| && items[i] < |r| && r2[items[i]] != r[items[i]]
        ensures r2[items[i]].slot == Slot(d, h + i)
      {
        if i == 0 {
          assert r2[k0] == r1[k0];
        } else {
          assert items[i] == items[1..][i - 1] && items[i] != k0;
          assert r1[items[i]] == r[items[i]];
        }
      }
      forall i | 0 <= i < |items| && items[i] < |r| && CanMove(r, items[i], d, h + i, corrected)
        ensures r2[items[i]].slot == Slot(d, h + i)
      {
        if i == 0 {
          assert r2[k0] == r1[k0];
        } else {
          assert items[i] == items[1..][i - 1] && items[i] != k0;
          CanMoveAfterStep(r, r1, k0, h, items[i], d, h + i, corrected);
        }
      }
    }
  }

  /**
    Moving event `k0` to hour `h` never blocks another event's move to a different hour: it leaves
    that hour, and it adds no event there.
   */
  lemma CanMoveAfterStep(r: seq<Event>, r1: seq<Event>, k0: nat, h: int, k: nat, d: int, h': int, corrected: bool)
    requires k0 < |r| && k < |r| && k != k0 && h != h'
    requires r1 != r ==> r1 == Moved(r, k0, h)
    requires CanMove(r, k, d, h', corrected)
    ensures CanMove(r1, k, d, h', corrected)
  {
    if r1 != r {
      assert r1[k] == r[k];
      forall j | 0 <= j < |r1| && r1[j].id != r1[k].id && r1[j].slot == Slot(d, h') ensures r1[j].profesor != r1[k].profesor {
        if j != k0 {
          assert r1[j] == r[j];
        }
      }
      if corrected {
        forall j | 0 <= j < |r1| && j != k && r1[j].slot == Slot(d, h') ensures r1[j].grupo != r1[k].grupo {
          if j != k0 {
            assert r1[j] == r[j];
          }
        }
      }
    }
  }

  /** One day of one group: nothing happens with fewer than two events; otherwise start at the first hour. */
  function Day(r: seq<Event>, g: int, d: int, corrected: bool): (r': seq<Event>)
    requires 0 <= d < Days
    ensures Compacts(r, r', {g}, corrected)
    ensures var items := DayItems(r, g, d);
      |items| >= 2 ==> RunPlaces(r, r', items, d, r[items[0]].slot.hora, corrected)
    ensures |DayItems(r, g, d)| < 2 ==> r' == r
  {
    var items := DayItems(r, g, d);
    if |items| < 2 then
      CompactsRefl(r, {g}, corrected);
      r
    else
      assert items[0] in items;
      Run(r, items, g, d, r[items[0]].slot.hora, corrected)
  }

  /** Days `d` to 4 of group `g`. */
  function GroupDays(r: seq<Event>, g: int, d: nat, corrected: bool): (r': seq<Event>)
    requires d <= Days
    ensures Compacts(r, r', {g}, corrected)
    decreases Days - d
  {
    if d == Days then
      CompactsRefl(r, {g}, corrected);
      r
    else
      var r1 := Day(r, g, d, corrected);
      var r2 := GroupDays(r1, g, d + 1, corrected);
      CompactsTrans(r, r1, r2, {g}, {g}, corrected);
      r2
  }

  /** The ids of the group records. */
  function GroupIds(grupos: seq<Generation.Grupo>): (ids: set<int>)
    ensures forall x :: x in ids <==> exists i :: 0 <= i < |grupos| && grupos[i].id == x
  {
    if |grupos| == 0 then {}
    else
      var rest := GroupIds(grupos[1..]);
      assert forall i :: 0 < i < |grupos| ==> grupos[i] == grupos[1..][i - 1];
      {grupos[0].id} + rest
  }

  /** The pass over every group record in list order. */
  function Pass(r: seq<Event>, grupos: seq<Generation.Grupo>, corrected: bool): (r': seq<Event>)
    ensures Compacts(r, r', GroupIds(grupos), corrected)
    decreases |grupos|
  {
    if |grupos| == 0 then
      CompactsRefl(r, {}, corrected);
      r
    else
      var r1 := GroupDays(r, grupos[0].id, 0, corrected);
      var r2 := Pass(r1, grupos[1..], corrected);
      CompactsTrans(r, r1, r2, {grupos[0].id}, GroupIds(grupos[1..]), corrected);
      r2
  }

  /**
    `compactarHorarios` as written: only hours change, only events of listed groups on the five
    days move, and with unique ids no professor repeat is added.
   */
  function CompactarHorarios(r: seq<Event>, grupos: seq<Generation.Grupo>): (r': seq<Event>)
    ensures |r'| == |r|
    ensures forall k :: 0 <= k < |r| ==> r'[k] == r[k].(slot := Slot(r[k].slot.dia, r'[k].slot.hora))
    ensures forall k :: 0 <= k < |r| && r'[k] != r[k] ==> (exists gi :: 0 <= gi < |grupos| && grupos[gi].id == r[k].grupo) && 0 <= r[k].slot.dia < Days
    ensures UniqueIds(r) ==> Repeats(ProfKeys(r')) <= Repeats(ProfKeys(r))
  {
    Pass(r, grupos, false)
  }

  /**
    The corrected pass: it moves an event only to an hour of the grid where neither its professor
    nor its group has another event, so moved events stay on the grid and, with unique ids, the
    hard count never rises.
   */
  function CompactarCorregido(r: seq<Event>, grupos: seq<Generation.Grupo>): (r': seq<Event>)
    ensures |r'| == |r|
    ensures forall k :: 0 <= k < |r| ==> r'[k] == r[k].(slot := Slot(r[k].slot.dia, r'[k].slot.hora))
    ensures forall k :: 0 <= k < |r| && r'[k] != r[k] ==> (exists gi :: 0 <= gi < |grupos| && grupos[gi].id == r[k].grupo) && ValidSlot(r'[k].slot)
    ensures UniqueIds(r) ==> HardConflicts(r') <= HardConflicts(r)
  {
    Pass(r, grupos, true)
  }

  // ---------------------------------------------------------------- the two faults of the pass as written

  /** A group with no event on day `d` or later leaves the days from `d` on untouched. */
  lemma {:induction false} GroupDaysIdle(r: seq<Event>, g: int, d: nat, corrected: bool)
    requires d <= Days
    requires forall k :: 0 <= k < |r| && r[k].grupo == g ==> r[k].slot.dia < d
    ensures GroupDays(r, g, d, corrected) == r
    decreases Days - d
  {
    if d < Days {
      var r1 := Day(r, g, d, corrected);
      DayIdle(r, g, d, corrected);
      assert r1 == r;
      GroupDaysUnfold(r, g, d, corrected);
      GroupDaysIdle(r1, g, d + 1, corrected);
    }
  }

  lemma GroupDaysUnfold(r: seq<Event>, g: int, d: nat, corrected: bool)
    requires d < Days
    ensures GroupDays(r, g, d, corrected) == GroupDays(Day(r, g, d, corrected), g, d + 1, corrected)
  {
  }

  /** A group with no event on day `d` leaves that day untouched. */
  lemma DayIdle(r: seq<Event>, g: int, d: int, corrected: bool)
    requires 0 <= d < Days
    requires forall k :: 0 <= k < |r| && r[k].grupo == g ==> r[k].slot.dia != d
    ensures Day(r, g, d, corrected) == r
  {
    HeadIn(DayItems(r, g, d));
  }

  /** A list of one group record: the pass is that group's five days. */
  lemma PassOne(r: seq<Event>, g: Generation.Grupo, corrected: bool)
    ensures Pass(r, [g], corrected) == GroupDays(r, g.id, 0, corrected)
  {
    assert [g][1..] == [];
  }

  /** The input of the first fault: two events of group 1 both at hour 13 of day 0. */
  function LateClash(): seq<Event>
  {
    [Event(0, 0, 1, 1, 0, Slot(0, 13)), Event(1, 0, 2, 1, 0, Slot(0, 13))]
  }

  /** The shape of `LateClash()` the first fault needs. */
  predicate LateClashShape(r: seq<Event>)
  {
    |r| == 2 && r[0].grupo == 1 && r[0].slot == Slot(0, 13) && r[1].grupo == 1 && r[1].slot == Slot(0, 13)
  }

  lemma LateClashHasShape()
    ensures LateClashShape(LateClash())
  {
  }

  lemma LateClashItems(r: seq<Event>)
    requires LateClashShape(r)
    ensures var items := DayItems(r, 1, 0);
      |items| == 2 && items[0] == 0 && items[1] == 1
  {
    var ps := DayPairs(r, 1, 0, |r|);
    assert DayPairs(r, 1, 0, 1) == DayPairs(r, 1, 0, 0) + [(13, 0)];
    assert ps == DayPairs(r, 1, 0, 1) + [(13, 1)];
    SortByKeySorted(ps);
  }

  lemma LateClashDay(r: seq<Event>)
    requires LateClashShape(r)
    ensures Day(r, 1, 0, false) == Moved(r, 1, 14)
  {
    var items := DayItems(r, 1, 0);
    LateClashItems(r);
    var i1 := items[1..];
    var i2 := i1[1..];
    assert i1[0] == 1 && |i2| == 0;
    assert !CanMove(r, 0, 0, 13, false);
    assert !ProfBusyAt(r, 1, 0, 14);
    var r2 := Moved(r, 1, 14);
    assert Step(r, 1, 0, 14, false) == r2;
    assert Run(r2, i2, 1, 0, 15, false) == r2;
    assert Run(r, i1, 1, 0, 14, false) == r2;
    assert Run(r, items, 1, 0, 13, false) == r2;
  }

  /**
    Two events of one group left in the same last hour of a day: the first keeps hour 13 and the
    second is pulled to hour 14, off the grid (`LateClash()` is such a timetable).
   */
  lemma CompactarLeavesGrid(r: seq<Event>)
    requires LateClashShape(r)
    ensures var r' := CompactarHorarios(r, [Generation.Grupo(1, "A", 30)]);
      r'[1].slot == Slot(0, 14) && !ValidSlot(r'[1].slot)
  {
    var r2 := Moved(r, 1, 14);
    forall k | 0 <= k < |r2| && r2[k].grupo == 1 ensures r2[k].slot.dia < 1 {
      if k != 1 {
        assert r2[k] == r[k];
      }
    }
    LateClashDay(r);
    GroupDaysUnfold(r, 1, 0, false);
    GroupDaysIdle(r2, 1, 1, false);
    assert GroupDays(r, 1, 0, false) == GroupDays(r2, 1, 1, false) == r2;
    PassOne(r, Generation.Grupo(1, "A", 30), false);
  }

  /**
    The input of the second fault: group 1 has events at hours 0, 2 and 3 of day 0 (professors 1, 2
    and 3), and professor 2 also teaches group 2 at hour 1.
   */
  function BlockedGap(): seq<Event>
  {
    [Event(0, 0, 1, 1, 0, Slot(0, 0)), Event(1, 0, 2, 1, 0, Slot(0, 2)),
     Event(2, 0, 3, 1, 0, Slot(0, 3)), Event(3, 0, 2, 2, 0, Slot(0, 1))]
  }

  /**
    The shape of `BlockedGap()` the second fault needs: three events of group 1 at hours 0, 2 and 3
    of day 0, and at hour 1 an event of another group whose professor is the one of hour 2.
   */
  predicate BlockedGapShape(r: seq<Event>)
  {
    |r| == 4
    && r[0].grupo == 1 && r[0].slot == Slot(0, 0) && r[0].profesor == 1
    && r[1].grupo == 1 && r[1].slot == Slot(0, 2) && r[1].profesor == 2
    && r[2].grupo == 1 && r[2].slot == Slot(0, 3) && r[2].profesor == 3
    && r[3].grupo == 2 && r[3].slot == Slot(0, 1) && r[3].profesor == 2
    && r[3].id != r[1].id
  }

  lemma BlockedGapHasShape()
    ensures BlockedGapShape(BlockedGap())
  {
  }

  lemma BlockedGapPairs(r: seq<Event>)
    requires BlockedGapShape(r)
    ensures var ps := DayPairs(r, 1, 0, |r|);
      |ps| == 3 && ps[0] == (0, 0) && ps[1] == (2, 1) && ps[2] == (3, 2)
  {
    assert DayPairs(r, 1, 0, 1) == DayPairs(r, 1, 0, 0) + [(0, 0)];
    assert DayPairs(r, 1, 0, 2) == DayPairs(r, 1, 0, 1) + [(2, 1)];
    assert DayPairs(r, 1, 0, 3) == DayPairs(r, 1, 0, 2) + [(3, 2)];
    assert DayPairs(r, 1, 0, 4) == DayPairs(r, 1, 0, 3);
  }

  lemma BlockedGapItems(r: seq<Event>)
    requires BlockedGapShape(r)
    ensures var items := DayItems(r, 1, 0);
      |items| == 3 && items[0] == 0 && items[1] == 1 && items[2] == 2
  {
    var ps := DayPairs(r, 1, 0, |r|);
    BlockedGapPairs(r);
    SortByKeySorted(ps);
  }

  lemma BlockedGapDay(r: seq<Event>)
    requires BlockedGapShape(r)
    ensures Day(r, 1, 0, false) == Moved(r, 2, 2)
  {
    var items := DayItems(r, 1, 0);
    BlockedGapItems(r);
    var i1 := items[1..];
    var i2 := i1[1..];
    var i3 := i2[1..];
    assert i1[0] == 1 && i2[0] == 2 && |i3| == 0;
    assert !CanMove(r, 0, 0, 0, false);
    assert ProfBusyAt(r, 1, 0, 1);
    assert !ProfBusyAt(r, 2, 0, 2);
    var r2 := Moved(r, 2, 2);
    assert Step(r, 2, 0, 2, false) == r2;
    assert Run(r2, i3, 1, 0, 3, false) == r2;
    assert Run(r, i2, 1, 0, 2, false) == r2;
    assert Run(r, i1, 1, 0, 1, false) == r2;
    assert Run(r, items, 1, 0, 0, false) == r2;
  }

  /**
    A gap the professor cannot fill is filled by the next event, on top of the group's own event
    that stayed there: every clash-free timetable of this shape leaves the pass with a hard
    conflict (`BlockedGap()` is one).
   */
  lemma CompactarAddsClash(r: seq<Event>)
    requires BlockedGapShape(r)
    ensures var r' := CompactarHorarios(r, [Generation.Grupo(1, "A", 30)]);
      ClashFree(r) && !ClashFree(r') && HardConflicts(r') > HardConflicts(r)
  {
    BlockedGapPass(r);
    BlockedGapClash(r);
  }

  lemma BlockedGapClash(r: seq<Event>)
    requires BlockedGapShape(r)
    ensures ClashFree(r) && !ClashFree(Moved(r, 2, 2)) && HardConflicts(Moved(r, 2, 2)) > HardConflicts(r)
  {
    var r2 := Moved(r, 2, 2);
    assert r2[1].slot == r2[2].slot && r2[1].grupo == r2[2].grupo;
    HardConflictsZeroIff(r);
    HardConflictsZeroIff(r2);
  }

  lemma BlockedGapPass(r: seq<Event>)
    requires BlockedGapShape(r)
    ensures CompactarHorarios(r, [Generation.Grupo(1, "A", 30)]) == Moved(r, 2, 2)
  {
    var r2 := Moved(r, 2, 2);
    forall k | 0 <= k < |r2| && r2[k].grupo == 1 ensures r2[k].slot.dia < 1 {
      if k != 2 {
        assert r2[k] == r[k];
      }
    }
    BlockedGapDay(r);
    GroupDaysUnfold(r, 1, 0, false);
    GroupDaysIdle(r2, 1, 1, false);
    assert GroupDays(r, 1, 0, false) == GroupDays(r2, 1, 1, false) == r2;
    PassOne(r, Generation.Grupo(1, "A", 30), false);
  }
}
