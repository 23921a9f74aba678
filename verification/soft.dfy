/**
  The soft-constraint count of the web client (`calcularConflictos().blandos`): for every listed
  group and every day on which it has classes, the number of idle gaps between consecutive
  classes of that day. A day contributes nothing exactly when its class hours form an unbroken
  run, so the count is zero exactly when no group has a hole in any day.
 */
module SoftConflicts {
  import opened Seqs
  import opened Domain

  /** Number of adjacent pairs of `hs` that are more than one period apart. */
  function Gaps(hs: seq<int>): nat
  {
    if |hs| < 2 then 0
    else (if hs[1] - hs[0] > 1 then 1 else 0) + Gaps(hs[1..])
  }

  /** Every value lying between two values of `hs` is itself in `hs`: no hole. */
  predicate Interval(hs: seq<int>)
  {
    forall a, b, h :: a in hs && b in hs && a <= h <= b ==> h in hs
  }

  /** Sorted lists only: every later value is at least the first one. */
  lemma SortedHead(hs: seq<int>)
    requires Sorted(hs) && |hs| > 0
    ensures forall y :: y in hs ==> hs[0] <= y
  {
    forall y | y in hs ensures hs[0] <= y {
      var k :| 0 <= k < |hs| && hs[k] == y;
    }
  }

  lemma SortedCons(x: int, t: seq<int>)
    requires Sorted([x] + t)
    ensures Sorted(t)
    ensures forall y :: y in t ==> x <= y
  {
    var hs := [x] + t;
    forall i, j | 0 <= i < j < |t| ensures t[i] <= t[j] {
      assert hs[i + 1] <= hs[j + 1];
    }
    forall y | y in t ensures x <= y {
      var k :| 0 <= k < |t| && t[k] == y;
      assert hs[0] <= hs[k + 1];
    }
  }

  lemma IntervalConsIntro(x: int, t: seq<int>)
    requires Sorted([x] + t) && |t| > 0
    requires t[0] - x <= 1 && Interval(t)
    ensures Interval([x] + t)
  {
    var hs := [x] + t;
    SortedCons(x, t);
    SortedHead(t);
    forall a, b, h | a in hs && b in hs && a <= h <= b ensures h in hs {
      if h != x && h >= t[0] {
        assert b in t && t[0] in t;
      }
    }
  }

  lemma IntervalConsElim(x: int, t: seq<int>)
    requires Sorted([x] + t) && |t| > 0
    requires Interval([x] + t)
    ensures t[0] - x <= 1 && Interval(t)
  {
    var hs := [x] + t;
    SortedCons(x, t);
    SortedHead(t);
    assert x in hs && t[0] in hs;
    assert x + 1 <= t[0] ==> x + 1 in hs;
    forall a, b, h | a in t && b in t && a <= h <= b ensures h in t {
      assert a in hs && b in hs;
      assert h in hs;
    }
  }

  /** On a sorted list, no gap between neighbours means no hole anywhere. */
  lemma {:induction false} GapsZeroIffInterval(hs: seq<int>)
    requires Sorted(hs)
    ensures Gaps(hs) == 0 <==> Interval(hs)
  {
    if |hs| >= 2 {
      var x, t := hs[0], hs[1..];
      assert hs == [x] + t;
      assert Sorted(t);
      GapsZeroIffInterval(t);
      if Gaps(hs) == 0 {
        IntervalConsIntro(x, t);
      } else if Interval(hs) {
        IntervalConsElim(x, t);
      }
    } else if |hs| == 1 {
      assert forall y :: y in hs ==> y == hs[0];
    }
  }

  /** Reordering does not change which values a list holds, so neither does it change `Interval`. */
  lemma IntervalSameValues(xs: seq<int>, ys: seq<int>)
    requires multiset(xs) == multiset(ys)
    ensures Interval(xs) <==> Interval(ys)
  {
    assert forall v :: v in xs <==> v in multiset(xs);
    assert forall v :: v in ys <==> v in multiset(ys);
  }

  /** Hours, in event order, of the classes group `g` has on day `d`. */
  function HoursOn(evs: seq<Event>, g: int, d: int): seq<int>
  {
    if |evs| == 0 then []
    else (if evs[0].grupo == g && evs[0].slot.dia == d then [evs[0].slot.hora] else []) + HoursOn(evs[1..], g, d)
  }

  /** Days, in event order and with repetitions, of the classes of group `g`. */
  function DaysOf(evs: seq<Event>, g: int): seq<int>
  {
    if |evs| == 0 then []
    else (if evs[0].grupo == g then [evs[0].slot.dia] else []) + DaysOf(evs[1..], g)
  }

  lemma {:induction false} HoursOnMembers(evs: seq<Event>, g: int, d: int, h: int)
    ensures h in HoursOn(evs, g, d) <==> exists i :: 0 <= i < |evs| && evs[i].grupo == g && evs[i].slot == Slot(d, h)
  {
    if |evs| > 0 {
      HoursOnMembers(evs[1..], g, d, h);
      if exists i :: 0 <= i < |evs| && evs[i].grupo == g && evs[i].slot == Slot(d, h) {
        var i :| 0 <= i < |evs| && evs[i].grupo == g && evs[i].slot == Slot(d, h);
        if i > 0 {
          assert evs[1..][i - 1] == evs[i];
        }
      }
      if h in HoursOn(evs[1..], g, d) {
        var i :| 0 <= i < |evs[1..]| && evs[1..][i].grupo == g && evs[1..][i].slot == Slot(d, h);
        assert evs[i + 1] == evs[1..][i];
      }
    }
  }

  /** A day is listed for a group exactly when the group has some class that day. */
  lemma {:induction false} DaysOfMembers(evs: seq<Event>, g: int, d: int)
    ensures d in DaysOf(evs, g) <==> |HoursOn(evs, g, d)| > 0
  {
    if |evs| > 0 {
      DaysOfMembers(evs[1..], g, d);
    }
  }

  /** Gaps of one group summed over the given days, each day's hours sorted ascending. */
  function DayGaps(evs: seq<Event>, g: int, days: seq<int>): nat
  {
    if |days| == 0 then 0 else Gaps(Sort(HoursOn(evs, g, days[0]))) + DayGaps(evs, g, days[1..])
  }

  /** `calcularConflictos().blandos`: every listed group over the distinct days it has classes on. */
  function SoftCount(evs: seq<Event>, grupos: seq<int>): nat
  {
    if |grupos| == 0 then 0
    else DayGaps(evs, grupos[0], Distinct(DaysOf(evs, grupos[0]))) + SoftCount(evs, grupos[1..])
  }

  /** Group `g`'s classes of day `d` leave no idle period between the first and the last. */
  predicate Unbroken(evs: seq<Event>, g: int, d: int)
  {
    Interval(HoursOn(evs, g, d))
  }

  /** No group of the list has a hole on any day. */
  ghost predicate NoHoles(evs: seq<Event>, grupos: seq<int>)
  {
    forall g, d :: g in grupos ==> Unbroken(evs, g, d)
  }

  /** One day contributes no gap exactly when that day is unbroken. */
  lemma DayTermZeroIff(evs: seq<Event>, g: int, d: int)
    ensures Gaps(Sort(HoursOn(evs, g, d))) == 0 <==> Unbroken(evs, g, d)
  {
    var hs := HoursOn(evs, g, d);
    GapsZeroIffInterval(Sort(hs));
    IntervalSameValues(Sort(hs), hs);
  }

  lemma {:induction false} DayGapsZeroIff(evs: seq<Event>, g: int, days: seq<int>)
    ensures DayGaps(evs, g, days) == 0 <==> forall d :: d in days ==> Unbroken(evs, g, d)
  {
    if |days| > 0 {
      DayGapsZeroIff(evs, g, days[1..]);
      DayTermZeroIff(evs, g, days[0]);
      assert days == [days[0]] + days[1..];
    }
  }

  lemma GroupGapsZeroIff(evs: seq<Event>, g: int)
    ensures DayGaps(evs, g, Distinct(DaysOf(evs, g))) == 0 <==> forall d :: Unbroken(evs, g, d)
  {
    var days := Distinct(DaysOf(evs, g));
    DayGapsZeroIff(evs, g, days);
    forall d | d !in days ensures Unbroken(evs, g, d) {
      assert d !in Elems(DaysOf(evs, g));
      DaysOfMembers(evs, g, d);
    }
  }

  /**
    The soft count is zero exactly when, for every listed group and every day, the group's class
    hours of that day form an unbroken run.
   */
  lemma {:induction false} SoftCountZeroIff(evs: seq<Event>, grupos: seq<int>)
    ensures SoftCount(evs, grupos) == 0 <==> NoHoles(evs, grupos)
  {
    if |grupos| > 0 {
      SoftCountZeroIff(evs, grupos[1..]);
      GroupGapsZeroIff(evs, grupos[0]);
      assert forall g :: g in grupos <==> g == grupos[0] || g in grupos[1..];
    }
  }
}
