/**
  Hard and soft conflict evaluation over a sequence of events.

  The engine has three independent hard-conflict counters that bucket events by slot and count,
  per bucket, the professors and groups that occur more than once:
    - the web client (`calcularConflictos().duros`, `calcularConflictosEnSlot`) counts the
      positions whose value is not at its first `indexOf`;
    - the Python fallback (`optimizar_python`) adds `len(list) - len(set(list))`;
    - `encontrarEventosConConflicto` lists one entry per repeat.
  All three are proved equal to one reference count, `HardConflicts`: the number of events whose
  (slot, professor) pair, plus the number whose (slot, group) pair, already occurred earlier.

  Positions stand for the JavaScript event objects: a bucket holds indices into the event
  sequence, so that the repair loop can move exactly the event the list names.
 */
module Conflicts {
  import opened Seqs
  import opened Domain
  import opened Buckets

  // ---------------------------------------------------------------- the reference count

  function ProfKeys(evs: seq<Event>): (r: seq<(Slot, int)>)
    ensures |r| == |evs|
  {
    seq(|evs|, i requires 0 <= i < |evs| => (evs[i].slot, evs[i].profesor))
  }

  function GroupKeys(evs: seq<Event>): (r: seq<(Slot, int)>)
    ensures |r| == |evs|
  {
    seq(|evs|, i requires 0 <= i < |evs| => (evs[i].slot, evs[i].grupo))
  }

  /** Reference hard-conflict count: professor repeats plus group repeats per slot. */
  function HardConflicts(evs: seq<Event>): nat
  {
    Repeats(ProfKeys(evs)) + Repeats(GroupKeys(evs))
  }

  /** No slot holds two events of the same professor or of the same group. */
  predicate ClashFree(evs: seq<Event>)
  {
    forall i, j :: 0 <= i < j < |evs| && evs[i].slot == evs[j].slot ==>
      evs[i].profesor != evs[j].profesor && evs[i].grupo != evs[j].grupo
  }

  /** The hard count is zero exactly when no slot repeats a professor or a group. */
  lemma HardConflictsZeroIff(evs: seq<Event>)
    ensures HardConflicts(evs) == 0 <==> ClashFree(evs)
  {
    var pk, gk := ProfKeys(evs), GroupKeys(evs);
    RepeatsZeroIffNoDups(pk);
    RepeatsZeroIffNoDups(gk);
    if HardConflicts(evs) == 0 {
      forall i, j | 0 <= i < j < |evs| && evs[i].slot == evs[j].slot
        ensures evs[i].profesor != evs[j].profesor && evs[i].grupo != evs[j].grupo
      {
        assert pk[i] != pk[j] && gk[i] != gk[j];
      }
    } else if !NoDups(pk) {
      var i, j :| 0 <= i < j < |pk| && pk[i] == pk[j];
      assert evs[i].slot == evs[j].slot && evs[i].profesor == evs[j].profesor;
    } else {
      var i, j :| 0 <= i < j < |gk| && gk[i] == gk[j];
      assert evs[i].slot == evs[j].slot && evs[i].grupo == evs[j].grupo;
    }
  }

  lemma HardConflictsSnoc(evs: seq<Event>, e: Event)
    ensures HardConflicts(evs + [e]) == HardConflicts(evs)
      + (if (e.slot, e.profesor) in ProfKeys(evs) then 1 else 0)
      + (if (e.slot, e.grupo) in GroupKeys(evs) then 1 else 0)
  {
    assert ProfKeys(evs + [e]) == ProfKeys(evs) + [(e.slot, e.profesor)];
    assert GroupKeys(evs + [e]) == GroupKeys(evs) + [(e.slot, e.grupo)];
    RepeatsSnoc(ProfKeys(evs), (e.slot, e.profesor));
    RepeatsSnoc(GroupKeys(evs), (e.slot, e.grupo));
  }

  // ---------------------------------------------------------------- bucketing by slot

  function SlotsOf(evs: seq<Event>): (r: seq<Slot>)
    ensures |r| == |evs|
  {
    seq(|evs|, i requires 0 <= i < |evs| => evs[i].slot)
  }

  function Positions(n: nat): (r: seq<nat>)
    ensures |r| == n
  {
    seq(n, i requires 0 <= i < n => i)
  }

  /** `porSlot` / `por_slot`: event positions grouped by slot, slots in first-appearance order. */
  function SlotBuckets(evs: seq<Event>): seq<Bucket<Slot, nat>>
  {
    GroupBy(SlotsOf(evs), Positions(|evs|))
  }

  /** Positions of the first `n` events whose slot is `s`, in order (the `filter` by slot). */
  function AtSlot(evs: seq<Event>, n: nat, s: Slot): seq<nat>
    requires n <= |evs|
  {
    Select(SlotsOf(evs)[..n], Positions(|evs|)[..n], s)
  }

  lemma {:induction false} AtSlotMembers(evs: seq<Event>, n: nat, s: Slot)
    requires n <= |evs|
    ensures forall p: nat :: p in AtSlot(evs, n, s) <==> p < n && evs[p].slot == s
    ensures forall a, b :: 0 <= a < b < |AtSlot(evs, n, s)| ==> AtSlot(evs, n, s)[a] < AtSlot(evs, n, s)[b]
  {
    if n > 0 {
      var m: nat := n - 1;
      assert SlotsOf(evs)[..n][..m] == SlotsOf(evs)[..m];
      assert Positions(|evs|)[..n][..m] == Positions(|evs|)[..m];
      AtSlotMembers(evs, m, s);
      var prev := AtSlot(evs, m, s);
      var tail: seq<nat> := if evs[m].slot == s then [m] else [];
      assert AtSlot(evs, n, s) == prev + tail;
      forall a, b | 0 <= a < b < |prev + tail| ensures (prev + tail)[a] < (prev + tail)[b] {
        if b >= |prev| {
          assert prev[a] in prev;
        }
      }
    }
  }

  /** The event at position `p`; positions produced by the bucketing always lie in range. */
  function EventAt(evs: seq<Event>, p: nat): Event
  {
    if p < |evs| then evs[p] else DefaultEvent()
  }

  function ProfsAt(evs: seq<Event>, items: seq<nat>): (r: seq<int>)
    ensures |r| == |items|
  {
    seq(|items|, k requires 0 <= k < |items| => EventAt(evs, items[k]).profesor)
  }

  function GroupsAt(evs: seq<Event>, items: seq<nat>): (r: seq<int>)
    ensures |r| == |items|
  {
    seq(|items|, k requires 0 <= k < |items| => EventAt(evs, items[k]).grupo)
  }

  lemma SlotBucketsInRange(evs: seq<Event>)
    ensures forall i, p :: 0 <= i < |SlotBuckets(evs)| && p in SlotBuckets(evs)[i].items ==> p < |evs|
  {
    GroupByItemsFromVals(SlotsOf(evs), Positions(|evs|));
    forall i, p | 0 <= i < |SlotBuckets(evs)| && p in SlotBuckets(evs)[i].items ensures p < |evs| {
      assert p in Positions(|evs|);
      var k :| 0 <= k < |evs| && Positions(|evs|)[k] == p;
    }
  }

  // ---------------------------------------------------------------- per-slot terms

  /** Reference term of one slot: professor repeats plus group repeats among its events. */
  function SlotTerm(evs: seq<Event>, items: seq<nat>): nat
  {
    Repeats(ProfsAt(evs, items)) + Repeats(GroupsAt(evs, items))
  }

  function RefTotal(evs: seq<Event>, b: seq<Bucket<Slot, nat>>): nat
  {
    if |b| == 0 then 0 else SlotTerm(evs, b[0].items) + RefTotal(evs, b[1..])
  }

  /** Web client: index of the first occurrence of `x` in `s`, or -1 (`Array.prototype.indexOf`). */
  function IndexOf(s: seq<int>, x: int): (r: int)
    ensures r == -1 <==> x !in s
    ensures r != -1 ==> 0 <= r < |s| && s[r] == x && x !in s[..r]
  {
    if |s| == 0 then -1
    else if s[0] == x then 0
    else
      var k := IndexOf(s[1..], x);
      if k == -1 then -1
      else
        assert s[..k + 1] == [s[0]] + s[1..][..k];
        k + 1
  }

  /** `s.filter((v, i) => s.indexOf(v) !== i).length`, over the first `n` positions. */
  function NotFirstCount(s: seq<int>, n: nat): nat
    requires n <= |s|
  {
    if n == 0 then 0
    else NotFirstCount(s, n - 1) + (if IndexOf(s, s[n - 1]) != n - 1 then 1 else 0)
  }

  lemma {:induction false} IndexOfIsFirst(s: seq<int>, k: nat)
    requires k < |s|
    ensures IndexOf(s, s[k]) == k <==> s[k] !in s[..k]
  {
    if k > 0 {
      if s[0] != s[k] {
        IndexOfIsFirst(s[1..], k - 1);
        assert s[1..][k - 1] == s[k];
        assert s[..k] == [s[0]] + s[1..][..k - 1];
      } else {
        assert s[..k][0] == s[k];
      }
    }
  }

  /** A position fails the `indexOf` test exactly when its value occurred earlier. */
  lemma {:induction false} NotFirstCountIsRepeats(s: seq<int>, n: nat)
    requires n <= |s|
    ensures NotFirstCount(s, n) == Repeats(s[..n])
  {
    if n > 0 {
      NotFirstCountIsRepeats(s, n - 1);
      assert s[..n][..n - 1] == s[..n - 1];
      IndexOfIsFirst(s, n - 1);
    }
  }

  /** Web client term of one slot (`calcularConflictosEnSlot` / one bucket of `calcularConflictos`). */
  function JsSlotTerm(evs: seq<Event>, items: seq<nat>): nat
  {
    var ps, gs := ProfsAt(evs, items), GroupsAt(evs, items);
    NotFirstCount(ps, |ps|) + NotFirstCount(gs, |gs|)
  }

  function JsTotal(evs: seq<Event>, b: seq<Bucket<Slot, nat>>): nat
  {
    if |b| == 0 then 0 else JsSlotTerm(evs, b[0].items) + JsTotal(evs, b[1..])
  }

  /** Python fallback term of one slot: `len(profs) - len(set(profs))` plus the same for groups. */
  function PySlotTerm(evs: seq<Event>, items: seq<nat>): int
  {
    var ps, gs := ProfsAt(evs, items), GroupsAt(evs, items);
    (|ps| - |Elems(ps)|) + (|gs| - |Elems(gs)|)
  }

  function PyTotal(evs: seq<Event>, b: seq<Bucket<Slot, nat>>): int
  {
    if |b| == 0 then 0 else PySlotTerm(evs, b[0].items) + PyTotal(evs, b[1..])
  }

  /** `calcularConflictos().duros` of the web client. */
  function JsHardCount(evs: seq<Event>): nat
  {
    JsTotal(evs, SlotBuckets(evs))
  }

  /** The hard count of the Python fallback optimiser (`conflictos_duros`). */
  function PyHardCount(evs: seq<Event>): int
  {
    PyTotal(evs, SlotBuckets(evs))
  }

  /** `calcularConflictosEnSlot(dia, hora)`: the web client's count restricted to one slot. */
  function JsSlotConflicts(evs: seq<Event>, dia: int, hora: int): nat
  {
    JsSlotTerm(evs, AtSlot(evs, |evs|, Slot(dia, hora)))
  }

  // ---------------------------------------------------------------- the conflict list

  /**
    One bucket of `encontrarEventosConConflicto`: walking the bucket in order, an event is listed
    once if its professor was already seen in the bucket and once more if its group was.
   */
  function BucketConflicts(evs: seq<Event>, items: seq<nat>, seenP: set<int>, seenG: set<int>): seq<nat>
  {
    if |items| == 0 then []
    else
      var e := EventAt(evs, items[0]);
      (if e.profesor in seenP then [items[0]] else [])
        + (if e.grupo in seenG then [items[0]] else [])
        + BucketConflicts(evs, items[1..], seenP + {e.profesor}, seenG + {e.grupo})
  }

  function ConflictList(evs: seq<Event>, b: seq<Bucket<Slot, nat>>): seq<nat>
  {
    if |b| == 0 then [] else BucketConflicts(evs, b[0].items, {}, {}) + ConflictList(evs, b[1..])
  }

  /** `encontrarEventosConConflicto()`: positions of conflicting events, one entry per repeat. */
  function ConflictingEvents(evs: seq<Event>): (r: seq<nat>)
    ensures forall k :: 0 <= k < |r| ==> r[k] < |evs|
  {
    ConflictListInRange(evs);
    ConflictList(evs, SlotBuckets(evs))
  }

  lemma ConflictListInRange(evs: seq<Event>)
    ensures forall k :: 0 <= k < |ConflictList(evs, SlotBuckets(evs))| ==> ConflictList(evs, SlotBuckets(evs))[k] < |evs|
  {
    var b := SlotBuckets(evs);
    SlotBucketsInRange(evs);
    ConflictListInBuckets(evs, b);
    forall k | 0 <= k < |ConflictList(evs, b)| ensures ConflictList(evs, b)[k] < |evs| {
      var p := ConflictList(evs, b)[k];
      assert p in ConflictList(evs, b);
      var i :| 0 <= i < |b| && p in b[i].items;
    }
  }

  lemma {:induction false} BucketConflictsFromItems(evs: seq<Event>, items: seq<nat>, seenP: set<int>, seenG: set<int>)
    ensures forall p :: p in BucketConflicts(evs, items, seenP, seenG) ==> p in items
  {
    if |items| > 0 {
      var e := EventAt(evs, items[0]);
      BucketConflictsFromItems(evs, items[1..], seenP + {e.profesor}, seenG + {e.grupo});
    }
  }

  lemma {:induction false} ConflictListInBuckets(evs: seq<Event>, b: seq<Bucket<Slot, nat>>)
    ensures forall p :: p in ConflictList(evs, b) ==> exists i :: 0 <= i < |b| && p in b[i].items
  {
    if |b| > 0 {
      ConflictListInBuckets(evs, b[1..]);
      BucketConflictsFromItems(evs, b[0].items, {}, {});
      forall p | p in ConflictList(evs, b) ensures exists i :: 0 <= i < |b| && p in b[i].items {
        if p !in BucketConflicts(evs, b[0].items, {}, {}) {
          assert p in ConflictList(evs, b[1..]);
          var i :| 0 <= i < |b[1..]| && p in b[1..][i].items;
          assert p in b[i + 1].items;
        }
      }
    }
  }

  lemma ProfsGroupsAtCons(evs: seq<Event>, items: seq<nat>)
    requires |items| > 0
    ensures ProfsAt(evs, items) == [EventAt(evs, items[0]).profesor] + ProfsAt(evs, items[1..])
    ensures GroupsAt(evs, items) == [EventAt(evs, items[0]).grupo] + GroupsAt(evs, items[1..])
  {
    var r := [EventAt(evs, items[0]).profesor] + ProfsAt(evs, items[1..]);
    forall k | 0 <= k < |items| ensures r[k] == ProfsAt(evs, items)[k] {
      if k > 0 {
        assert items[1..][k - 1] == items[k];
      }
    }
    var t := [EventAt(evs, items[0]).grupo] + GroupsAt(evs, items[1..]);
    forall k | 0 <= k < |items| ensures t[k] == GroupsAt(evs, items)[k] {
      if k > 0 {
        assert items[1..][k - 1] == items[k];
      }
    }
  }

  /** A bucket's list splits into the professor scan and the group scan. */
  lemma {:induction false} BucketConflictsSplit(evs: seq<Event>, items: seq<nat>, seenP: set<int>, seenG: set<int>)
    ensures |BucketConflicts(evs, items, seenP, seenG)|
         == SeenCount(ProfsAt(evs, items), seenP) + SeenCount(GroupsAt(evs, items), seenG)
  {
    if |items| > 0 {
      var e := EventAt(evs, items[0]);
      BucketConflictsSplit(evs, items[1..], seenP + {e.profesor}, seenG + {e.grupo});
      ProfsGroupsAtCons(evs, items);
      var ps, gs := ProfsAt(evs, items), GroupsAt(evs, items);
      assert ps[0] == e.profesor && ps[1..] == ProfsAt(evs, items[1..]);
      assert gs[0] == e.grupo && gs[1..] == GroupsAt(evs, items[1..]);
    }
  }

  /** One bucket lists exactly as many entries as its reference term counts. */
  lemma BucketConflictsLength(evs: seq<Event>, items: seq<nat>)
    ensures |BucketConflicts(evs, items, {}, {})| == SlotTerm(evs, items)
  {
    BucketConflictsSplit(evs, items, {}, {});
    var ps, gs := ProfsAt(evs, items), GroupsAt(evs, items);
    SeenCountRepeats([], ps);
    SeenCountRepeats([], gs);
    assert Elems<int>([]) == {};
    assert [] + ps == ps && [] + gs == gs;
  }

  lemma {:induction false} ConflictListLength(evs: seq<Event>, b: seq<Bucket<Slot, nat>>)
    ensures |ConflictList(evs, b)| == RefTotal(evs, b)
  {
    if |b| > 0 {
      ConflictListLength(evs, b[1..]);
      BucketConflictsLength(evs, b[0].items);
    }
  }

  // ---------------------------------------------------------------- agreement

  lemma {:induction false} JsTotalIsRef(evs: seq<Event>, b: seq<Bucket<Slot, nat>>)
    ensures JsTotal(evs, b) == RefTotal(evs, b)
  {
    if |b| > 0 {
      JsTotalIsRef(evs, b[1..]);
      var ps, gs := ProfsAt(evs, b[0].items), GroupsAt(evs, b[0].items);
      NotFirstCountIsRepeats(ps, |ps|);
      NotFirstCountIsRepeats(gs, |gs|);
      assert ps[..|ps|] == ps && gs[..|gs|] == gs;
    }
  }

  lemma {:induction false} PyTotalIsRef(evs: seq<Event>, b: seq<Bucket<Slot, nat>>)
    ensures PyTotal(evs, b) == RefTotal(evs, b)
  {
    if |b| > 0 {
      PyTotalIsRef(evs, b[1..]);
      RepeatsIsLengthMinusDistinct(ProfsAt(evs, b[0].items));
      RepeatsIsLengthMinusDistinct(GroupsAt(evs, b[0].items));
    }
  }

  lemma {:induction false} RefTotalInsert(evs: seq<Event>, b: seq<Bucket<Slot, nat>>, s: Slot, p: nat)
    ensures RefTotal(evs, Insert(b, s, p)) == RefTotal(evs, b)
      + (if EventAt(evs, p).profesor in ProfsAt(evs, ItemsAt(b, s)) then 1 else 0)
      + (if EventAt(evs, p).grupo in GroupsAt(evs, ItemsAt(b, s)) then 1 else 0)
  {
    if |b| == 0 {
      assert Repeats(ProfsAt(evs, [p])) == 0 by {
        assert ProfsAt(evs, [p])[..0] == [];
      }
      assert Repeats(GroupsAt(evs, [p])) == 0 by {
        assert GroupsAt(evs, [p])[..0] == [];
      }
    } else if b[0].key == s {
      var items := b[0].items;
      assert ProfsAt(evs, items + [p]) == ProfsAt(evs, items) + [EventAt(evs, p).profesor];
      assert GroupsAt(evs, items + [p]) == GroupsAt(evs, items) + [EventAt(evs, p).grupo];
      RepeatsSnoc(ProfsAt(evs, items), EventAt(evs, p).profesor);
      RepeatsSnoc(GroupsAt(evs, items), EventAt(evs, p).grupo);
      assert Insert(b, s, p)[1..] == b[1..];
    } else {
      RefTotalInsert(evs, b[1..], s, p);
      assert Insert(b, s, p)[1..] == Insert(b[1..], s, p);
    }
  }

  /** A professor occurs among the earlier events of a slot exactly when its (slot, professor) key does. */
  lemma AtSlotProfKey(evs: seq<Event>, m: nat, s: Slot, prof: int)
    requires m <= |evs|
    ensures prof in ProfsAt(evs, AtSlot(evs, m, s)) <==> (s, prof) in ProfKeys(evs[..m])
  {
    var sel := AtSlot(evs, m, s);
    var ps, keys := ProfsAt(evs, sel), ProfKeys(evs[..m]);
    AtSlotMembers(evs, m, s);
    if prof in ps {
      var k :| 0 <= k < |sel| && ps[k] == prof;
      assert sel[k] in sel;
      assert keys[sel[k]] == (s, prof);
    }
    if (s, prof) in keys {
      var j :| 0 <= j < m && keys[j] == (s, prof);
      assert j in sel;
      var k :| 0 <= k < |sel| && sel[k] == j;
      assert ps[k] == prof;
    }
  }

  /** A group occurs among the earlier events of a slot exactly when its (slot, group) key does. */
  lemma AtSlotGroupKey(evs: seq<Event>, m: nat, s: Slot, grupo: int)
    requires m <= |evs|
    ensures grupo in GroupsAt(evs, AtSlot(evs, m, s)) <==> (s, grupo) in GroupKeys(evs[..m])
  {
    var sel := AtSlot(evs, m, s);
    var gs, keys := GroupsAt(evs, sel), GroupKeys(evs[..m]);
    AtSlotMembers(evs, m, s);
    if grupo in gs {
      var k :| 0 <= k < |sel| && gs[k] == grupo;
      assert sel[k] in sel;
      assert keys[sel[k]] == (s, grupo);
    }
    if (s, grupo) in keys {
      var j :| 0 <= j < m && keys[j] == (s, grupo);
      assert j in sel;
      var k :| 0 <= k < |sel| && sel[k] == j;
      assert gs[k] == grupo;
    }
  }

  lemma PrefixBucketsStep(evs: seq<Event>, n: nat)
    requires 0 < n <= |evs|
    ensures GroupBy(SlotsOf(evs)[..n], Positions(|evs|)[..n])
         == Insert<Slot, nat>(GroupBy(SlotsOf(evs)[..n - 1], Positions(|evs|)[..n - 1]), evs[n - 1].slot, n - 1)
  {
    var m: nat := n - 1;
    var keys, vals := SlotsOf(evs)[..n], Positions(|evs|)[..n];
    assert |keys| == n && |vals| == n;
    assert GroupBy(keys, vals) == Insert(GroupBy(keys[..m], vals[..m]), keys[m], vals[m]);
    assert keys[..m] == SlotsOf(evs)[..m];
    assert vals[..m] == Positions(|evs|)[..m];
    assert keys[m] == evs[m].slot;
    assert vals[m] == m;
  }

  /** Adding event `n - 1` to the buckets adds one per (slot, professor) and (slot, group) key seen before. */
  lemma RefTotalPrefixStep(evs: seq<Event>, n: nat)
    requires 0 < n <= |evs|
    ensures RefTotal(evs, GroupBy(SlotsOf(evs)[..n], Positions(|evs|)[..n]))
         == RefTotal(evs, GroupBy(SlotsOf(evs)[..n - 1], Positions(|evs|)[..n - 1]))
          + (if (evs[n - 1].slot, evs[n - 1].profesor) in ProfKeys(evs[..n - 1]) then 1 else 0)
          + (if (evs[n - 1].slot, evs[n - 1].grupo) in GroupKeys(evs[..n - 1]) then 1 else 0)
  {
    var m: nat := n - 1;
    var e := evs[m];
    var b: seq<Bucket<Slot, nat>> := GroupBy(SlotsOf(evs)[..m], Positions(|evs|)[..m]);
    PrefixBucketsStep(evs, n);
    RefTotalInsert(evs, b, e.slot, m);
    assert EventAt(evs, m) == e;
    GroupByItems(SlotsOf(evs)[..m], Positions(|evs|)[..m], e.slot);
    AtSlotProfKey(evs, m, e.slot, e.profesor);
    AtSlotGroupKey(evs, m, e.slot, e.grupo);
  }

  lemma {:induction false} RefTotalPrefix(evs: seq<Event>, n: nat)
    requires n <= |evs|
    ensures RefTotal(evs, GroupBy(SlotsOf(evs)[..n], Positions(|evs|)[..n])) == HardConflicts(evs[..n])
  {
    if n > 0 {
      var m: nat := n - 1;
      RefTotalPrefix(evs, m);
      RefTotalPrefixStep(evs, n);
      assert evs[..n] == evs[..m] + [evs[m]];
      HardConflictsSnoc(evs[..m], evs[m]);
    }
  }

  lemma SlotBucketsTotal(evs: seq<Event>)
    ensures RefTotal(evs, SlotBuckets(evs)) == HardConflicts(evs)
  {
    RefTotalPrefix(evs, |evs|);
    assert SlotsOf(evs)[..|evs|] == SlotsOf(evs);
    assert Positions(|evs|)[..|evs|] == Positions(|evs|);
    assert evs[..|evs|] == evs;
  }

  /**
    The three hard-conflict counters of the engine agree: the web client's `indexOf` count, the
    Python fallback's `len - len(set)` count and the length of the conflicting-events list all
    equal the reference count.
   */
  lemma HardCountsAgree(evs: seq<Event>)
    ensures JsHardCount(evs) == HardConflicts(evs)
    ensures PyHardCount(evs) == HardConflicts(evs)
    ensures |ConflictingEvents(evs)| == HardConflicts(evs)
  {
    SlotBucketsTotal(evs);
    JsTotalIsRef(evs, SlotBuckets(evs));
    PyTotalIsRef(evs, SlotBuckets(evs));
    ConflictListLength(evs, SlotBuckets(evs));
  }

  /** No conflicting event is listed exactly when no slot repeats a professor or group. */
  lemma ConflictingEventsEmptyIff(evs: seq<Event>)
    ensures |ConflictingEvents(evs)| == 0 <==> ClashFree(evs)
    ensures JsHardCount(evs) == 0 <==> ClashFree(evs)
  {
    HardCountsAgree(evs);
    HardConflictsZeroIff(evs);
  }

  // ---------------------------------------------------------------- who is listed

  /** An earlier event sits in the same slot with the same professor as event `k`. */
  predicate ProfRepeated(evs: seq<Event>, k: nat)
    requires k < |evs|
  {
    exists j :: 0 <= j < k && evs[j].slot == evs[k].slot && evs[j].profesor == evs[k].profesor
  }

  /** An earlier event sits in the same slot with the same group as event `k`. */
  predicate GroupRepeated(evs: seq<Event>, k: nat)
    requires k < |evs|
  {
    exists j :: 0 <= j < k && evs[j].slot == evs[k].slot && evs[j].grupo == evs[k].grupo
  }

  function Ind(b: bool): nat
  {
    if b then 1 else 0
  }

  /** Some item before `p` in value has the professor of `p`. */
  predicate EarlierProf(evs: seq<Event>, items: seq<nat>, p: nat)
  {
    exists q :: q in items && q < p && EventAt(evs, q).profesor == EventAt(evs, p).profesor
  }

  predicate EarlierGroup(evs: seq<Event>, items: seq<nat>, p: nat)
  {
    exists q :: q in items && q < p && EventAt(evs, q).grupo == EventAt(evs, p).grupo
  }

  /**
    Walking an ascending bucket, a position is listed once for a professor seen before it (in the
    seen set or earlier in the bucket) and once for a group seen before it.
   */
  lemma {:induction false} BucketConflictsCount(evs: seq<Event>, items: seq<nat>, seenP: set<int>, seenG: set<int>, p: nat)
    requires forall a, b :: 0 <= a < b < |items| ==> items[a] < items[b]
    ensures p !in items ==> multiset(BucketConflicts(evs, items, seenP, seenG))[p] == 0
    ensures p in items ==>
      multiset(BucketConflicts(evs, items, seenP, seenG))[p] ==
        Ind(EventAt(evs, p).profesor in seenP || EarlierProf(evs, items, p))
        + Ind(EventAt(evs, p).grupo in seenG || EarlierGroup(evs, items, p))
  {
    BucketConflictsFromItems(evs, items, seenP, seenG);
    if |items| > 0 {
      BucketHeadLeast(items);
      if p == items[0] {
        BucketCountHead(evs, items, seenP, seenG);
      } else if p in items[1..] {
        var e := EventAt(evs, items[0]);
        BucketConflictsCount(evs, items[1..], seenP + {e.profesor}, seenG + {e.grupo}, p);
        BucketCountTail(evs, items, seenP, seenG, p);
      }
    }
  }

  /** The head of a bucket is listed only for what the seen sets already hold. */
  lemma BucketCountHead(evs: seq<Event>, items: seq<nat>, seenP: set<int>, seenG: set<int>)
    requires |items| > 0 && items == [items[0]] + items[1..]
    requires forall q :: q in items[1..] ==> items[0] < q
    ensures multiset(BucketConflicts(evs, items, seenP, seenG))[items[0]] ==
      Ind(EventAt(evs, items[0]).profesor in seenP || EarlierProf(evs, items, items[0]))
      + Ind(EventAt(evs, items[0]).grupo in seenG || EarlierGroup(evs, items, items[0]))
  {
    var a := items[0];
    var e := EventAt(evs, a);
    var hp: seq<nat> := if e.profesor in seenP then [a] else [];
    var hg: seq<nat> := if e.grupo in seenG then [a] else [];
    var tl: seq<nat> := BucketConflicts(evs, items[1..], seenP + {e.profesor}, seenG + {e.grupo});
    assert BucketConflicts(evs, items, seenP, seenG) == hp + hg + tl;
    BucketConflictsFromItems(evs, items[1..], seenP + {e.profesor}, seenG + {e.grupo});
    assert a !in tl;
    NoEarlierThanHead(evs, items);
  }

  /** A later item of a bucket is listed as in the rest of the bucket, the head joining the seen sets. */
  lemma BucketCountTail(evs: seq<Event>, items: seq<nat>, seenP: set<int>, seenG: set<int>, p: nat)
    requires |items| > 0 && items == [items[0]] + items[1..] && p in items[1..]
    requires forall q :: q in items[1..] ==> items[0] < q
    requires var e := EventAt(evs, items[0]);
      multiset(BucketConflicts(evs, items[1..], seenP + {e.profesor}, seenG + {e.grupo}))[p] ==
        Ind(EventAt(evs, p).profesor in seenP + {e.profesor} || EarlierProf(evs, items[1..], p))
        + Ind(EventAt(evs, p).grupo in seenG + {e.grupo} || EarlierGroup(evs, items[1..], p))
    ensures multiset(BucketConflicts(evs, items, seenP, seenG))[p] ==
      Ind(EventAt(evs, p).profesor in seenP || EarlierProf(evs, items, p))
      + Ind(EventAt(evs, p).grupo in seenG || EarlierGroup(evs, items, p))
  {
    var a := items[0];
    var e := EventAt(evs, a);
    var hp: seq<nat> := if e.profesor in seenP then [a] else [];
    var hg: seq<nat> := if e.grupo in seenG then [a] else [];
    var tl: seq<nat> := BucketConflicts(evs, items[1..], seenP + {e.profesor}, seenG + {e.grupo});
    assert BucketConflicts(evs, items, seenP, seenG) == hp + hg + tl;
    assert p != a;
    assert multiset(hp + hg + tl)[p] == multiset(tl)[p];
    EarlierStep(evs, items, p);
  }

  lemma BucketHeadLeast(items: seq<nat>)
    requires |items| > 0 && forall a, b :: 0 <= a < b < |items| ==> items[a] < items[b]
    ensures items == [items[0]] + items[1..]
    ensures forall q :: q in items[1..] ==> items[0] < q
    ensures forall a, b :: 0 <= a < b < |items[1..]| ==> items[1..][a] < items[1..][b]
    ensures items[0] !in items[1..]
  {
    forall q | q in items[1..] ensures items[0] < q {
      var i :| 0 <= i < |items[1..]| && items[1..][i] == q;
      assert items[i + 1] == q;
    }
  }

  lemma NoEarlierThanHead(evs: seq<Event>, items: seq<nat>)
    requires |items| > 0 && forall q :: q in items[1..] ==> items[0] < q
    requires items == [items[0]] + items[1..]
    ensures !EarlierProf(evs, items, items[0]) && !EarlierGroup(evs, items, items[0])
  {
    forall q | q in items ensures q >= items[0] {
      if q != items[0] {
        assert q in items[1..];
      }
    }
  }

  lemma EarlierStep(evs: seq<Event>, items: seq<nat>, p: nat)
    requires |items| > 0 && p in items[1..] && forall q :: q in items[1..] ==> items[0] < q
    requires items == [items[0]] + items[1..]
    ensures EarlierProf(evs, items, p)
      <==> EventAt(evs, items[0]).profesor == EventAt(evs, p).profesor || EarlierProf(evs, items[1..], p)
    ensures EarlierGroup(evs, items, p)
      <==> EventAt(evs, items[0]).grupo == EventAt(evs, p).grupo || EarlierGroup(evs, items[1..], p)
  {
    assert items[0] in items && items[0] < p;
    if EarlierProf(evs, items, p) {
      var q :| q in items && q < p && EventAt(evs, q).profesor == EventAt(evs, p).profesor;
      if q != items[0] {
        assert q in items[1..];
      }
    }
    if EarlierGroup(evs, items, p) {
      var q :| q in items && q < p && EventAt(evs, q).grupo == EventAt(evs, p).grupo;
      if q != items[0] {
        assert q in items[1..];
      }
    }
  }

  lemma {:induction false} ConflictListAbsent(evs: seq<Event>, b: seq<Bucket<Slot, nat>>, p: nat)
    requires forall i :: 0 <= i < |b| ==> p !in b[i].items
    ensures p !in ConflictList(evs, b)
  {
    if |b| > 0 {
      BucketConflictsFromItems(evs, b[0].items, {}, {});
      assert forall i :: 0 <= i < |b[1..]| ==> b[1..][i] == b[i + 1];
      ConflictListAbsent(evs, b[1..], p);
    }
  }

  /** Only the bucket of slot `s` can list `p` when no other bucket holds it. */
  lemma {:induction false} ConflictListCount(evs: seq<Event>, b: seq<Bucket<Slot, nat>>, s: Slot, p: nat)
    requires NoDups(KeysOf(b))
    requires forall i :: 0 <= i < |b| && b[i].key != s ==> p !in b[i].items
    ensures multiset(ConflictList(evs, b))[p] == multiset(BucketConflicts(evs, ItemsAt(b, s), {}, {}))[p]
  {
    if |b| > 0 {
      assert KeysOf(b[1..]) == KeysOf(b)[1..];
      NoDupsTail(KeysOf(b));
      if b[0].key == s {
        forall i | 0 <= i < |b[1..]| ensures p !in b[1..][i].items {
          assert KeysOf(b)[0] != KeysOf(b)[i + 1];
        }
        ConflictListAbsent(evs, b[1..], p);
      } else {
        BucketConflictsFromItems(evs, b[0].items, {}, {});
        ConflictListCount(evs, b[1..], s, p);
      }
    }
  }

  /**
    `encontrarEventosConConflicto()` lists event `k` once when an earlier event of its slot has its
    professor, once when one has its group, and twice when both hold.
   */
  lemma ConflictingEventsCount(evs: seq<Event>, k: nat)
    requires k < |evs|
    ensures multiset(ConflictingEvents(evs))[k] == Ind(ProfRepeated(evs, k)) + Ind(GroupRepeated(evs, k))
  {
    var s := evs[k].slot;
    var items := AtSlot(evs, |evs|, s);
    SlotBucketOf(evs, k);
    ConflictListCount(evs, SlotBuckets(evs), s, k);
    EarlierIsRepeated(evs, k);
    BucketConflictsCount(evs, items, {}, {}, k);
  }

  /** Event `k` lies in the bucket of its own slot and no other; that bucket lists the slot's events in order. */
  lemma SlotBucketOf(evs: seq<Event>, k: nat)
    requires k < |evs|
    ensures NoDups(KeysOf(SlotBuckets(evs)))
    ensures ItemsAt(SlotBuckets(evs), evs[k].slot) == AtSlot(evs, |evs|, evs[k].slot)
    ensures forall i :: 0 <= i < |SlotBuckets(evs)| && SlotBuckets(evs)[i].key != evs[k].slot ==> k !in SlotBuckets(evs)[i].items
  {
    var b := SlotBuckets(evs);
    GroupByItems(SlotsOf(evs), Positions(|evs|), evs[k].slot);
    assert SlotsOf(evs)[..|evs|] == SlotsOf(evs);
    assert Positions(|evs|)[..|evs|] == Positions(|evs|);
    forall i | 0 <= i < |b| && b[i].key != evs[k].slot ensures k !in b[i].items {
      ItemsAtOwnKey(b, i);
      GroupByItems(SlotsOf(evs), Positions(|evs|), b[i].key);
      AtSlotMembers(evs, |evs|, b[i].key);
    }
  }

  /** Within the bucket of its slot, "seen before" is "an earlier event of the same slot". */
  lemma EarlierIsRepeated(evs: seq<Event>, k: nat)
    requires k < |evs|
    ensures k in AtSlot(evs, |evs|, evs[k].slot)
    ensures forall a, b :: 0 <= a < b < |AtSlot(evs, |evs|, evs[k].slot)| ==>
      AtSlot(evs, |evs|, evs[k].slot)[a] < AtSlot(evs, |evs|, evs[k].slot)[b]
    ensures EarlierProf(evs, AtSlot(evs, |evs|, evs[k].slot), k) == ProfRepeated(evs, k)
    ensures EarlierGroup(evs, AtSlot(evs, |evs|, evs[k].slot), k) == GroupRepeated(evs, k)
  {
    var s := evs[k].slot;
    var items := AtSlot(evs, |evs|, s);
    AtSlotMembers(evs, |evs|, s);
    if EarlierProf(evs, items, k) {
      var q :| q in items && q < k && EventAt(evs, q).profesor == EventAt(evs, k).profesor;
      assert evs[q].slot == s;
    }
    if ProfRepeated(evs, k) {
      var j :| 0 <= j < k && evs[j].slot == s && evs[j].profesor == evs[k].profesor;
      assert j in items;
    }
    if EarlierGroup(evs, items, k) {
      var q :| q in items && q < k && EventAt(evs, q).grupo == EventAt(evs, k).grupo;
      assert evs[q].slot == s;
    }
    if GroupRepeated(evs, k) {
      var j :| 0 <= j < k && evs[j].slot == s && evs[j].grupo == evs[k].grupo;
      assert j in items;
    }
  }

  /** A position is listed exactly when an earlier event of its slot shares its professor or its group. */
  lemma ConflictingEventsMembers(evs: seq<Event>, k: nat)
    ensures k in ConflictingEvents(evs) <==>
      k < |evs| && exists j :: 0 <= j < k && evs[j].slot == evs[k].slot
                               && (evs[j].profesor == evs[k].profesor || evs[j].grupo == evs[k].grupo)
  {
    if k < |evs| {
      ConflictingEventsCount(evs, k);
    }
  }

  // ---------------------------------------------------------------- one slot

  lemma {:induction false} RefTotalCoversBucket(evs: seq<Event>, b: seq<Bucket<Slot, nat>>, s: Slot)
    ensures SlotTerm(evs, ItemsAt(b, s)) <= RefTotal(evs, b)
  {
    if |b| > 0 && b[0].key != s {
      RefTotalCoversBucket(evs, b[1..], s);
    } else if |b| == 0 {
      assert ProfsAt(evs, []) == [] && GroupsAt(evs, []) == [];
    }
  }

  lemma JsSlotTermIsRef(evs: seq<Event>, items: seq<nat>)
    ensures JsSlotTerm(evs, items) == SlotTerm(evs, items)
  {
    var ps, gs := ProfsAt(evs, items), GroupsAt(evs, items);
    NotFirstCountIsRepeats(ps, |ps|);
    NotFirstCountIsRepeats(gs, |gs|);
    assert ps[..|ps|] == ps && gs[..|gs|] == gs;
  }

  /**
    `calcularConflictosEnSlot(d, h)` is exactly the term that slot's bucket contributes to the web
    client's total, and so never exceeds the total.
   */
  lemma SlotConflictsIsBucketTerm(evs: seq<Event>, dia: int, hora: int)
    ensures JsSlotConflicts(evs, dia, hora) == JsSlotTerm(evs, ItemsAt(SlotBuckets(evs), Slot(dia, hora)))
    ensures JsSlotConflicts(evs, dia, hora) <= JsHardCount(evs)
  {
    var s := Slot(dia, hora);
    GroupByItems(SlotsOf(evs), Positions(|evs|), s);
    assert SlotsOf(evs)[..|evs|] == SlotsOf(evs);
    assert Positions(|evs|)[..|evs|] == Positions(|evs|);
    JsSlotTermIsRef(evs, ItemsAt(SlotBuckets(evs), s));
    RefTotalCoversBucket(evs, SlotBuckets(evs), s);
    JsTotalIsRef(evs, SlotBuckets(evs));
  }

  /** `evs` with the event at position `i` moved to slot `s`. */
  function MoveTo(evs: seq<Event>, i: nat, s: Slot): (r: seq<Event>)
    requires i < |evs|
    ensures |r| == |evs| && r[i].slot == s
    ensures r[i] == evs[i].(slot := s) && forall j :: 0 <= j < |evs| && j != i ==> r[j] == evs[j]
  {
    evs[i := evs[i].(slot := s)]
  }

  lemma {:induction false} AtSlotAfterLeaving(evs: seq<Event>, i: nat, s': Slot, n: nat)
    requires i < n <= |evs| && s' != evs[i].slot
    ensures exists a: seq<nat>, c: seq<nat> ::
      AtSlot(evs, n, evs[i].slot) == a + [i] + c &&
      AtSlot(MoveTo(evs, i, s'), n, evs[i].slot) == a + c &&
      (forall p :: p in a + c ==> p != i)
  {
    var evs' := MoveTo(evs, i, s');
    var s := evs[i].slot;
    var m: nat := n - 1;
    assert SlotsOf(evs)[..n][..m] == SlotsOf(evs)[..m];
    assert Positions(|evs|)[..n][..m] == Positions(|evs|)[..m];
    assert SlotsOf(evs')[..n][..m] == SlotsOf(evs')[..m];
    assert AtSlot(evs, n, s) == AtSlot(evs, m, s) + (if evs[m].slot == s then [m] else []);
    assert AtSlot(evs', n, s) == AtSlot(evs', m, s) + (if evs'[m].slot == s then [m] else []);
    if m == i {
      assert SlotsOf(evs')[..m] == SlotsOf(evs)[..m];
      AtSlotMembers(evs, m, s);
      assert AtSlot(evs, n, s) == AtSlot(evs, m, s) + [i] + [];
      assert AtSlot(evs', n, s) == AtSlot(evs, m, s) + [];
    } else {
      AtSlotAfterLeaving(evs, i, s', m);
      var a, c :| AtSlot(evs, m, s) == a + [i] + c && AtSlot(evs', m, s) == a + c && (forall p :: p in a + c ==> p != i);
      var tail: seq<nat> := if evs[m].slot == s then [m] else [];
      assert evs'[m] == evs[m];
      assert m != i;
      assert AtSlot(evs', m, s) + tail == a + (c + tail);
      assert (a + [i] + c) + tail == a + [i] + (c + tail);
      var c2 := c + tail;
      assert forall p :: p in a + c2 ==> p != i;
      assert AtSlot(evs, n, s) == a + [i] + c2 && AtSlot(evs', n, s) == a + c2;
    }
  }

  /**
    Moving an event out of its slot never raises that slot's local count
    (`calcularConflictosEnSlot` of the origin).
   */
  lemma SlotConflictsAfterLeaving(evs: seq<Event>, i: nat, s': Slot)
    requires i < |evs| && s' != evs[i].slot
    ensures JsSlotConflicts(MoveTo(evs, i, s'), evs[i].slot.dia, evs[i].slot.hora)
         <= JsSlotConflicts(evs, evs[i].slot.dia, evs[i].slot.hora)
  {
    var evs' := MoveTo(evs, i, s');
    var s := evs[i].slot;
    assert Slot(s.dia, s.hora) == s;
    AtSlotAfterLeaving(evs, i, s', |evs|);
    var a, c :| AtSlot(evs, |evs|, s) == a + [i] + c && AtSlot(evs', |evs|, s) == a + c && (forall p :: p in a + c ==> p != i);
    assert ProfsAt(evs', a + c) == ProfsAt(evs, a) + ProfsAt(evs, c);
    assert GroupsAt(evs', a + c) == GroupsAt(evs, a) + GroupsAt(evs, c);
    assert ProfsAt(evs, a + [i] + c) == ProfsAt(evs, a) + [evs[i].profesor] + ProfsAt(evs, c);
    assert GroupsAt(evs, a + [i] + c) == GroupsAt(evs, a) + [evs[i].grupo] + GroupsAt(evs, c);
    RepeatsRemoveOne(ProfsAt(evs, a), evs[i].profesor, ProfsAt(evs, c));
    RepeatsRemoveOne(GroupsAt(evs, a), evs[i].grupo, GroupsAt(evs, c));
    JsSlotTermIsRef(evs, a + [i] + c);
    JsSlotTermIsRef(evs', a + c);
  }
}
