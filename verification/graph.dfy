/**
  The subject co-slot graph drawn by the two front ends (Horarios/src/GraphSection.tsx and
  UTP-Cython/static/js/main.js): one node per subject that has a class, and one edge for every
  pair of classes that share a day and hour. Classes are grouped by their `${day}-${hour}` key
  in a `Map` of arrays, and every bucket contributes all its index pairs `i < j`, unfiltered:
  the same pair in two buckets gives two edges, and a subject twice in one bucket gives an edge
  from the subject to itself.
 */
module CoSlotGraph {
  import opened Seqs
  import opened Buckets

  datatype Edge<V> = Edge(source: V, target: V)

  /** A drawn node: `id`, `label` (here `name`, since `label` is a Dafny keyword) and `color`. */
  datatype Node = Node(id: string, name: string, color: string)

  datatype Graph<V> = Graph(nodes: seq<Node>, edges: seq<Edge<V>>)

  // ---------------------------------------------------------------- edges

  /** `a` occurs at some position of `items` before a position holding `b`. */
  predicate JoinedIn<V(==)>(items: seq<V>, a: V, b: V)
  {
    exists i, j :: 0 <= i < j < |items| && items[i] == a && items[j] == b
  }

  /** The double loop over one bucket: `(items[i], items[j])` for `i < j`, `i` outermost. */
  function BucketEdges<V>(items: seq<V>): (es: seq<Edge<V>>)
    ensures |es| == Pairs(|items|)
  {
    if |items| == 0 then []
    else
      var row := seq(|items| - 1, j requires 0 <= j < |items| - 1 => Edge(items[0], items[j + 1]));
      PairsStep(|items| - 1);
      row + BucketEdges(items[1..])
  }

  /** A bucket's edges are exactly the ordered pairs of its positions. */
  lemma {:induction false} BucketEdgesMembers<V>(items: seq<V>, a: V, b: V)
    ensures Edge(a, b) in BucketEdges(items) <==> JoinedIn(items, a, b)
  {
    if |items| > 0 {
      var row := seq(|items| - 1, j requires 0 <= j < |items| - 1 => Edge(items[0], items[j + 1]));
      var t := items[1..];
      BucketEdgesMembers(t, a, b);
      assert BucketEdges(items) == row + BucketEdges(t);
      if Edge(a, b) in row {
        var j :| 0 <= j < |row| && row[j] == Edge(a, b);
        assert items[0] == a && items[j + 1] == b;
      }
      if JoinedIn(t, a, b) {
        var i, j :| 0 <= i < j < |t| && t[i] == a && t[j] == b;
        assert items[i + 1] == a && items[j + 1] == b;
      }
      if JoinedIn(items, a, b) {
        var i, j :| 0 <= i < j < |items| && items[i] == a && items[j] == b;
        if i == 0 {
          assert row[j - 1] == Edge(a, b);
        } else {
          assert t[i - 1] == a && t[j - 1] == b;
        }
      }
    }
  }

  /** `timeSlots.forEach(...)`: the buckets' edges, bucket after bucket. */
  function EdgesOf<K, V>(b: seq<Bucket<K, V>>): (es: seq<Edge<V>>)
    ensures |es| == PairTotal(b)
  {
    if |b| == 0 then [] else BucketEdges(b[0].items) + EdgesOf(b[1..])
  }

  lemma {:induction false} EdgesOfMembers<K, V>(b: seq<Bucket<K, V>>, e: Edge<V>)
    ensures e in EdgesOf(b) <==> exists i :: 0 <= i < |b| && e in BucketEdges(b[i].items)
  {
    if |b| > 0 {
      EdgesOfMembers(b[1..], e);
      if e in EdgesOf(b[1..]) {
        var i :| 0 <= i < |b| - 1 && e in BucketEdges(b[1..][i].items);
        assert b[i + 1] == b[1..][i];
      }
      if exists i :: 0 <= i < |b| && e in BucketEdges(b[i].items) {
        var i :| 0 <= i < |b| && e in BucketEdges(b[i].items);
        if i > 0 {
          assert b[1..][i - 1] == b[i];
        }
      }
    }
  }

  /** Positions `i < j` share key `k` and hold `a` and `b`. */
  predicate PairAt<K(==), V(==)>(keys: seq<K>, vals: seq<V>, k: K, a: V, b: V)
    requires |keys| == |vals|
  {
    exists i, j :: 0 <= i < j < |keys| && keys[i] == k && keys[j] == k && vals[i] == a && vals[j] == b
  }

  lemma {:induction false} SelectMembers<K, V>(keys: seq<K>, vals: seq<V>, k: K, a: V)
    requires |keys| == |vals|
    ensures a in Select(keys, vals, k) <==> exists i :: 0 <= i < |keys| && keys[i] == k && vals[i] == a
  {
    if |keys| > 0 {
      var n := |keys| - 1;
      SelectMembers(keys[..n], vals[..n], k, a);
      if exists i :: 0 <= i < |keys| && keys[i] == k && vals[i] == a {
        var i :| 0 <= i < |keys| && keys[i] == k && vals[i] == a;
        if i < n {
          assert keys[..n][i] == k && vals[..n][i] == a;
        }
      }
    }
  }

  /** Two values are joined in the bucket of `k` exactly when two positions of key `k` hold them in order. */
  lemma {:induction false} SelectJoined<K, V>(keys: seq<K>, vals: seq<V>, k: K, a: V, b: V)
    requires |keys| == |vals|
    ensures JoinedIn(Select(keys, vals, k), a, b) <==> PairAt(keys, vals, k, a, b)
  {
    if |keys| > 0 {
      var n := |keys| - 1;
      var s := Select(keys[..n], vals[..n], k);
      var tail: seq<V> := if keys[n] == k then [vals[n]] else [];
      assert Select(keys, vals, k) == s + tail;
      SelectJoined(keys[..n], vals[..n], k, a, b);
      SelectMembers(keys[..n], vals[..n], k, a);
      if JoinedIn(s + tail, a, b) {
        var i, j :| 0 <= i < j < |s + tail| && (s + tail)[i] == a && (s + tail)[j] == b;
        if j < |s| {
          assert s[i] == a && s[j] == b;
          var i', j' :| 0 <= i' < j' < n && keys[..n][i'] == k && keys[..n][j'] == k && vals[..n][i'] == a && vals[..n][j'] == b;
          assert keys[i'] == k && keys[j'] == k && vals[i'] == a && vals[j'] == b;
        } else {
          assert s[i] == a;
          assert a in s;
          var i' :| 0 <= i' < n && keys[..n][i'] == k && vals[..n][i'] == a;
          assert keys[i'] == k && vals[i'] == a && keys[n] == k && vals[n] == b;
        }
      }
      if PairAt(keys, vals, k, a, b) {
        var i, j :| 0 <= i < j < |keys| && keys[i] == k && keys[j] == k && vals[i] == a && vals[j] == b;
        if j < n {
          assert keys[..n][i] == k && keys[..n][j] == k && vals[..n][i] == a && vals[..n][j] == b;
          var i', j' :| 0 <= i' < j' < |s| && s[i'] == a && s[j'] == b;
          assert (s + tail)[i'] == a && (s + tail)[j'] == b;
        } else {
          assert keys[..n][i] == k && vals[..n][i] == a;
          assert a in s;
          var i' :| 0 <= i' < |s| && s[i'] == a;
          assert (s + tail)[i'] == a && (s + tail)[|s|] == b;
        }
      }
    }
  }

  /** The edges of grouping `vals` by `keys`. */
  function CoSlotEdges<K(==), V>(keys: seq<K>, vals: seq<V>): (es: seq<Edge<V>>)
    requires |keys| == |vals|
    ensures |es| == SameKeyPairs(keys)
  {
    PairTotalIsSameKeyPairs(keys, vals);
    EdgesOf(GroupBy(keys, vals))
  }

  /**
    An edge from `a` to `b` exists exactly when an entry holding `a` comes before an entry holding
    `b` with the same key; there are as many edges as same-key position pairs, so nothing is
    de-duplicated.
   */
  lemma CoSlotEdgesMembers<K, V>(keys: seq<K>, vals: seq<V>, a: V, b: V)
    requires |keys| == |vals|
    ensures Edge(a, b) in CoSlotEdges(keys, vals) <==> exists k :: PairAt(keys, vals, k, a, b)
  {
    var bs := GroupBy(keys, vals);
    EdgesOfMembers(bs, Edge(a, b));
    if Edge(a, b) in EdgesOf(bs) {
      var i :| 0 <= i < |bs| && Edge(a, b) in BucketEdges(bs[i].items);
      var k := bs[i].key;
      GroupByItems(keys, vals, k);
      assert KeysOf(bs)[i] == k;
      ItemsAtOwnKey(bs, i);
      BucketEdgesMembers(bs[i].items, a, b);
      SelectJoined(keys, vals, k, a, b);
    }
    if exists k :: PairAt(keys, vals, k, a, b) {
      var k :| PairAt(keys, vals, k, a, b);
      var i0, j0 :| 0 <= i0 < j0 < |keys| && keys[i0] == k && keys[j0] == k && vals[i0] == a && vals[j0] == b;
      GroupByItems(keys, vals, k);
      assert k in Elems(keys);
      assert k in Elems(KeysOf(bs));
      var i :| 0 <= i < |bs| && KeysOf(bs)[i] == k;
      ItemsAtOwnKey(bs, i);
      SelectJoined(keys, vals, k, a, b);
      BucketEdgesMembers(bs[i].items, a, b);
    }
  }

  // ---------------------------------------------------------------- GraphSection.tsx

  datatype Subject = Subject(id: string, name: string, color: string)

  /** A class of the React front end: its subject id and its day and hour. */
  datatype Schedule = Schedule(subjectId: string, day: int, hour: int)

  /** `subjects.find((s) => s.id === id)`: the first subject with that id. */
  function FindSubject(subjects: seq<Subject>, id: string): (r: Option<Subject>)
    ensures r.Some? ==> r.value.id == id && r.value in subjects
    ensures r.None? <==> forall i :: 0 <= i < |subjects| ==> subjects[i].id != id
  {
    if |subjects| == 0 then None
    else if subjects[0].id == id then Some(subjects[0])
    else
      assert forall i :: 0 < i < |subjects| ==> subjects[i] == subjects[1..][i - 1];
      FindSubject(subjects[1..], id)
  }

  /** The subject found is the first one carrying the id. */
  lemma {:induction false} FindSubjectFirst(subjects: seq<Subject>, id: string)
    requires FindSubject(subjects, id).Some?
    ensures exists i :: 0 <= i < |subjects| && subjects[i] == FindSubject(subjects, id).value
                        && forall j :: 0 <= j < i ==> subjects[j].id != id
  {
    if subjects[0].id != id {
      var t := subjects[1..];
      FindSubjectFirst(t, id);
      var i :| 0 <= i < |t| && t[i] == FindSubject(t, id).value && forall j :: 0 <= j < i ==> t[j].id != id;
      assert subjects[i + 1] == t[i];
      forall j | 0 <= j < i + 1 ensures subjects[j].id != id {
        if j > 0 {
          assert subjects[j] == t[j - 1];
        }
      }
    } else {
      assert subjects[0] == FindSubject(subjects, id).value;
    }
  }

  function NodeIds(nodes: seq<Node>): (ids: seq<string>)
    ensures |ids| == |nodes| && forall k :: 0 <= k < |nodes| ==> ids[k] == nodes[k].id
  {
    seq(|nodes|, k requires 0 <= k < |nodes| => nodes[k].id)
  }

  /** The subject ids of the classes whose subject is known, in class order. */
  function KnownIds(schedules: seq<Schedule>, subjects: seq<Subject>): seq<string>
  {
    if |schedules| == 0 then []
    else
      var n := |schedules| - 1;
      var id := schedules[n].subjectId;
      KnownIds(schedules[..n], subjects) + (if FindSubject(subjects, id).Some? then [id] else [])
  }

  /**
    The node loop of the effect: a class whose subject is known adds a node for that subject
    unless `nodeMap` already has one. Every node copies the first subject record of its id.
   */
  function TsNodes(schedules: seq<Schedule>, subjects: seq<Subject>): (nodes: seq<Node>)
    ensures forall k :: 0 <= k < |nodes| ==>
      var f := FindSubject(subjects, nodes[k].id);
      f.Some? && nodes[k] == Node(f.value.id, f.value.name, f.value.color)
  {
    if |schedules| == 0 then []
    else
      var n := |schedules| - 1;
      var prev := TsNodes(schedules[..n], subjects);
      match FindSubject(subjects, schedules[n].subjectId)
      case None => prev
      case Some(s) =>
        if s.id in NodeIds(prev) then prev else prev + [Node(s.id, s.name, s.color)]
  }

  /** The node ids are the known subject ids, each once, in order of first appearance. */
  lemma {:induction false} TsNodeIds(schedules: seq<Schedule>, subjects: seq<Subject>)
    ensures NodeIds(TsNodes(schedules, subjects)) == Distinct(KnownIds(schedules, subjects))
  {
    if |schedules| > 0 {
      var n := |schedules| - 1;
      var prev := TsNodes(schedules[..n], subjects);
      var known := KnownIds(schedules[..n], subjects);
      TsNodeIds(schedules[..n], subjects);
      var id := schedules[n].subjectId;
      var f := FindSubject(subjects, id);
      if f.Some? {
        var ks := KnownIds(schedules, subjects);
        assert ks == known + [id];
        assert ks[..|ks| - 1] == known;
        assert id in NodeIds(prev) <==> id in Elems(Distinct(known));
        if id !in NodeIds(prev) {
          assert NodeIds(prev + [Node(id, f.value.name, f.value.color)]) == NodeIds(prev) + [id];
        }
      } else {
        assert KnownIds(schedules, subjects) == known;
      }
    }
  }

  /** The bucket key `${schedule.day}-${schedule.hour}`. */
  function TsKeys(schedules: seq<Schedule>): (keys: seq<(int, int)>)
    ensures |keys| == |schedules|
  {
    seq(|schedules|, i requires 0 <= i < |schedules| => (schedules[i].day, schedules[i].hour))
  }

  function TsSubjectIds(schedules: seq<Schedule>): (ids: seq<string>)
    ensures |ids| == |schedules|
  {
    seq(|schedules|, i requires 0 <= i < |schedules| => schedules[i].subjectId)
  }

  /** The graph the effect builds: edges join the subject ids of every two classes of one slot, known or not. */
  function TsGraph(schedules: seq<Schedule>, subjects: seq<Subject>): (g: Graph<string>)
    ensures g.nodes == TsNodes(schedules, subjects)
    ensures |g.edges| == SameKeyPairs(TsKeys(schedules))
  {
    Graph(TsNodes(schedules, subjects), CoSlotEdges(TsKeys(schedules), TsSubjectIds(schedules)))
  }

  /** A class of subject `a` comes before a class of subject `b` at the same day and hour. */
  predicate SameSlotPair(schedules: seq<Schedule>, a: string, b: string)
  {
    exists i, j :: 0 <= i < j < |schedules| && schedules[i].day == schedules[j].day
      && schedules[i].hour == schedules[j].hour
      && schedules[i].subjectId == a && schedules[j].subjectId == b
  }

  /**
    An edge from `a` to `b` exists exactly when a class of subject `a` comes before a class of
    subject `b` at the same day and hour, whether or not the subjects are known.
   */
  lemma TsGraphEdges(schedules: seq<Schedule>, subjects: seq<Subject>, a: string, b: string)
    ensures Edge(a, b) in TsGraph(schedules, subjects).edges <==> SameSlotPair(schedules, a, b)
  {
    var keys, ids := TsKeys(schedules), TsSubjectIds(schedules);
    assert TsGraph(schedules, subjects).edges == CoSlotEdges(keys, ids);
    CoSlotEdgesMembers(keys, ids, a, b);
    TsPairAt(schedules, a, b);
  }

  lemma TsPairAt(schedules: seq<Schedule>, a: string, b: string)
    ensures (exists k :: PairAt(TsKeys(schedules), TsSubjectIds(schedules), k, a, b)) <==> SameSlotPair(schedules, a, b)
  {
    var keys, ids := TsKeys(schedules), TsSubjectIds(schedules);
    if exists k :: PairAt(keys, ids, k, a, b) {
      var k :| PairAt(keys, ids, k, a, b);
      var i, j :| 0 <= i < j < |keys| && keys[i] == k && keys[j] == k && ids[i] == a && ids[j] == b;
      assert schedules[i].day == schedules[j].day && schedules[i].hour == schedules[j].hour;
    }
    if SameSlotPair(schedules, a, b) {
      var i, j :| 0 <= i < j < |schedules| && schedules[i].day == schedules[j].day
        && schedules[i].hour == schedules[j].hour
        && schedules[i].subjectId == a && schedules[j].subjectId == b;
      assert keys[i] == keys[j] && ids[i] == a && ids[j] == b;
      assert PairAt(keys, ids, keys[i], a, b);
    }
  }

  /** A subject in two classes of one slot gets an edge to itself. */
  lemma TsSelfEdge(schedules: seq<Schedule>, subjects: seq<Subject>, i: nat, j: nat)
    requires i < j < |schedules|
    requires schedules[i].day == schedules[j].day && schedules[i].hour == schedules[j].hour
    requires schedules[i].subjectId == schedules[j].subjectId
    ensures var x := schedules[i].subjectId; Edge(x, x) in TsGraph(schedules, subjects).edges
  {
    var x := schedules[i].subjectId;
    TsGraphEdges(schedules, subjects, x, x);
  }

  /** The shape of a timetable where subjects `a` and `b` meet at two different slots. */
  predicate MeetTwice(schedules: seq<Schedule>, a: string, b: string)
  {
    |schedules| == 4
    && schedules[0] == Schedule(a, 0, 0) && schedules[1] == Schedule(b, 0, 0)
    && schedules[2] == Schedule(a, 1, 0) && schedules[3] == Schedule(b, 1, 0)
  }

  /** Two subjects that meet at two slots are joined by two edges: edges are not de-duplicated. */
  lemma TsDuplicateEdges(schedules: seq<Schedule>, subjects: seq<Subject>, a: string, b: string)
    requires MeetTwice(schedules, a, b)
    ensures TsGraph(schedules, subjects).edges == [Edge(a, b), Edge(a, b)]
  {
    var es := TsGraph(schedules, subjects).edges;
    MeetTwicePairs(schedules, a, b);
    forall k | 0 <= k < |es| ensures es[k] == Edge(a, b) {
      MeetTwiceEdge(schedules, subjects, a, b, es[k]);
    }
  }

  lemma MeetTwicePairs(schedules: seq<Schedule>, a: string, b: string)
    requires MeetTwice(schedules, a, b)
    ensures SameKeyPairs(TsKeys(schedules)) == 2
  {
    var keys := TsKeys(schedules);
    assert keys == [(0, 0), (0, 0), (1, 0), (1, 0)];
    assert keys[..3] == [(0, 0), (0, 0), (1, 0)] && keys[..3][..2] == [(0, 0), (0, 0)];
    var k1, k2, k3 := keys[..1], keys[..2], keys[..3];
    assert k3[..2] == k2 && k2[..1] == k1 && k1[..0] == [];
    assert Count(k1, (0, 0)) == 1 && Count(k1, (1, 0)) == 0;
    assert Count(k2, (1, 0)) == 0;
    assert Count(k3, (1, 0)) == 1;
    assert SameKeyPairs(k1) == 0;
    assert SameKeyPairs(k2) == 1;
    assert SameKeyPairs(k3) == 1;
  }

  lemma MeetTwiceEdge(schedules: seq<Schedule>, subjects: seq<Subject>, a: string, b: string, e: Edge<string>)
    requires MeetTwice(schedules, a, b) && e in TsGraph(schedules, subjects).edges
    ensures e == Edge(a, b)
  {
    TsGraphEdges(schedules, subjects, e.source, e.target);
  }

  // ---------------------------------------------------------------- main.js

  /**
    A row of the stored `horarios` list, which may carry the Spanish or the English field names;
    `None` is a missing (or null) field.
   */
  datatype Horario = Horario(materia: Option<string>, subject: Option<string>,
                             dia: Option<int>, day: Option<int>, hora: Option<int>, hour: Option<int>)

  /** The eight node colours, used in turn. */
  const Colors: seq<string> := ["#6366f1", "#8b5cf6", "#ec4899", "#f59e0b", "#10b981", "#3b82f6", "#ef4444", "#06b6d4"]

  /** JavaScript truthiness of a text field and of a number field. */
  predicate TruthyText(v: Option<string>)
  {
    v.Some? && v.value != ""
  }

  predicate TruthyNum(v: Option<int>)
  {
    v.Some? && v.value != 0
  }

  /** `a || b` on text and on numbers. */
  function OrText(a: Option<string>, b: Option<string>): Option<string>
  {
    if TruthyText(a) then a else b
  }

  function OrNum(a: Option<int>, b: Option<int>): Option<int>
  {
    if TruthyNum(a) then a else b
  }

  /** `horario.materia || horario.subject` */
  function MateriaOf(h: Horario): Option<string>
  {
    OrText(h.materia, h.subject)
  }

  /**
    The bucket key `${dia}-${hora}` with `dia = horario.dia || horario.day` and `hora = horario.hora
    || horario.hour`. Rendering an optional integer and joining with `-` is injective, so the key
    is modelled as the pair.
   */
  function JsKey(h: Horario): (Option<int>, Option<int>)
  {
    (OrNum(h.dia, h.day), OrNum(h.hora, h.hour))
  }

  /** The truthy subject names of the rows, in row order. */
  function TruthyMaterias(hs: seq<Horario>): seq<string>
  {
    if |hs| == 0 then []
    else
      var n := |hs| - 1;
      var m := MateriaOf(hs[n]);
      TruthyMaterias(hs[..n]) + (if TruthyText(m) then [m.value] else [])
  }

  /**
    The node loop: a row with a truthy subject name not yet in `nodeMap` adds a node labelled with
    the name and coloured `colors[colorIndex % colors.length]`; `colorIndex` counts the nodes made,
    so node `k` has colour `k mod 8`.
   */
  function JsNodeLoop(hs: seq<Horario>): (res: (seq<Node>, nat))
    ensures res.1 == |res.0|
    ensures forall k :: 0 <= k < |res.0| ==>
      res.0[k].name == res.0[k].id && res.0[k].color == Colors[k % |Colors|] && res.0[k].id != ""
  {
    if |hs| == 0 then ([], 0)
    else
      var n := |hs| - 1;
      var (nodes, ci) := JsNodeLoop(hs[..n]);
      var m := MateriaOf(hs[n]);
      if TruthyText(m) && m.value !in NodeIds(nodes) then
        (nodes + [Node(m.value, m.value, Colors[ci % |Colors|])], ci + 1)
      else
        (nodes, ci)
  }

  /** The node ids are the truthy subject names, each once, in order of first appearance. */
  lemma {:induction false} JsNodeIds(hs: seq<Horario>)
    ensures NodeIds(JsNodeLoop(hs).0) == Distinct(TruthyMaterias(hs))
  {
    if |hs| > 0 {
      var n := |hs| - 1;
      var nodes := JsNodeLoop(hs[..n]).0;
      var prev := TruthyMaterias(hs[..n]);
      JsNodeIds(hs[..n]);
      var m := MateriaOf(hs[n]);
      if TruthyText(m) {
        var ts := TruthyMaterias(hs);
        assert ts == prev + [m.value];
        assert ts[..|ts| - 1] == prev;
        assert m.value in NodeIds(nodes) <==> m.value in Elems(Distinct(prev));
        if m.value !in NodeIds(nodes) {
          var node := Node(m.value, m.value, Colors[|nodes| % |Colors|]);
          assert NodeIds(nodes + [node]) == NodeIds(nodes) + [m.value];
        }
      } else {
        assert TruthyMaterias(hs) == prev;
      }
    }
  }

  function JsKeys(hs: seq<Horario>): (keys: seq<(Option<int>, Option<int>)>)
    ensures |keys| == |hs|
  {
    seq(|hs|, i requires 0 <= i < |hs| => JsKey(hs[i]))
  }

  function JsMaterias(hs: seq<Horario>): (ms: seq<Option<string>>)
    ensures |ms| == |hs|
  {
    seq(|hs|, i requires 0 <= i < |hs| => MateriaOf(hs[i]))
  }

  /**
    `buildGraph`: an empty stored list gives no nodes and no edges; otherwise the nodes of the node
    loop and one edge per pair of rows with the same key, even rows without a subject name.
   */
  function JsGraph(hs: seq<Horario>): (g: Graph<Option<string>>)
    ensures |hs| == 0 ==> g.nodes == [] && g.edges == []
    ensures |g.nodes| <= |hs|
    ensures |g.edges| == SameKeyPairs(JsKeys(hs))
  {
    if |hs| == 0 then Graph([], [])
    else
      JsNodeIds(hs);
      DistinctLength(TruthyMaterias(hs));
      TruthyMateriasLength(hs);
      Graph(JsNodeLoop(hs).0, CoSlotEdges(JsKeys(hs), JsMaterias(hs)))
  }

  lemma {:induction false} TruthyMateriasLength(hs: seq<Horario>)
    ensures |TruthyMaterias(hs)| <= |hs|
  {
    if |hs| > 0 {
      TruthyMateriasLength(hs[..|hs| - 1]);
    }
  }

  /** Two rows share a key and hold `a` and `b` in that order. */
  predicate SameKeyRows(hs: seq<Horario>, a: Option<string>, b: Option<string>)
  {
    exists i, j :: 0 <= i < j < |hs| && JsKey(hs[i]) == JsKey(hs[j]) && MateriaOf(hs[i]) == a && MateriaOf(hs[j]) == b
  }

  /** An edge from `a` to `b` exists exactly when a row of `a` comes before a row of `b` with the same key. */
  lemma JsGraphEdges(hs: seq<Horario>, a: Option<string>, b: Option<string>)
    ensures Edge(a, b) in JsGraph(hs).edges <==> SameKeyRows(hs, a, b)
  {
    if |hs| > 0 {
      var keys, ms := JsKeys(hs), JsMaterias(hs);
      assert JsGraph(hs).edges == CoSlotEdges(keys, ms);
      CoSlotEdgesMembers(keys, ms, a, b);
      JsPairAt(hs, a, b);
    }
  }

  lemma JsPairAt(hs: seq<Horario>, a: Option<string>, b: Option<string>)
    ensures (exists k :: PairAt(JsKeys(hs), JsMaterias(hs), k, a, b)) <==> SameKeyRows(hs, a, b)
  {
    var keys, ms := JsKeys(hs), JsMaterias(hs);
    if exists k :: PairAt(keys, ms, k, a, b) {
      var k :| PairAt(keys, ms, k, a, b);
      var i, j :| 0 <= i < j < |keys| && keys[i] == k && keys[j] == k && ms[i] == a && ms[j] == b;
      assert JsKey(hs[i]) == JsKey(hs[j]) && MateriaOf(hs[i]) == a && MateriaOf(hs[j]) == b;
    }
    if SameKeyRows(hs, a, b) {
      var i, j :| 0 <= i < j < |hs| && JsKey(hs[i]) == JsKey(hs[j]) && MateriaOf(hs[i]) == a && MateriaOf(hs[j]) == b;
      assert keys[i] == keys[j] && ms[i] == a && ms[j] == b;
      assert PairAt(keys, ms, keys[i], a, b);
    }
  }

  /**
    Rows that carry only `dia` and `hora` keep distinct slots apart: the fall-back of a 0 to the
    missing English field maps every 0 the same way.
   */
  lemma JsKeySpanishInjective(h1: Horario, h2: Horario)
    requires h1.day.None? && h1.hour.None? && h2.day.None? && h2.hour.None?
    requires h1.dia.Some? && h1.hora.Some? && h2.dia.Some? && h2.hora.Some?
    ensures JsKey(h1) == JsKey(h2) <==> h1.dia == h2.dia && h1.hora == h2.hora
  {
  }

  /**
    The fall-back merges a day-0 row with a row that has no day at all: both land in the
    bucket `undefined-…`.
   */
  lemma JsKeyZeroIsMissing(h1: Horario, h2: Horario)
    requires h1.dia == Some(0) && h1.day.None? && h2.dia.None? && h2.day.None? && h1.hora == h2.hora && h1.hour == h2.hour
    ensures JsKey(h1) == JsKey(h2)
  {
  }
}
