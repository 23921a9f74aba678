/**
  Turning the assignment table (group -> subject -> professor) into events, one event per weekly
  hour of each known group/subject pair, numbered consecutively in generation order.

  Three generators share this shape and differ in their rules:
    - the server (`generar_eventos_iniciales`): hours default to 4 only when the subject has no
      `horas_semanales`, room `grupo % max(1, #aulas)` with Python's floored remainder, slot (-1, -1);
    - the web client (`generarEventosIniciales`): hours `horas_semanales || 4` (so 0 also becomes 4),
      room with JavaScript's truncated remainder, slot (-1, -1), table keys enumerated the way
      `Object.keys` enumerates them; with an empty table it invents a rotation of subjects;
    - the Python system (`generar_solucion_inicial`): iterates the group list, draws a random slot
      per event and gives every event the first room that fits the group and the subject.
 */
module Generation {
  import opened Seqs
  import opened Domain
  import opened Arith

  datatype Materia = Materia(id: int, horas: Option<int>, requiereLab: bool)

  datatype Aula = Aula(id: int, capacidad: int, esLab: bool)

  datatype Grupo = Grupo(id: int, nombre: string, numEstudiantes: int)

  /** One group's subjects: (subject id, professor id) in enumeration order. */
  type Entries = seq<(int, int)>

  /** The assignment table: (group id, its subjects) in enumeration order. */
  type Table = seq<(int, Entries)>

  datatype Dialect = Python | JavaScript

  /** Weekly hours of a subject: `.get('horas_semanales', 4)` in Python, `horas_semanales || 4` in JavaScript. */
  function HoursOf(d: Dialect, m: Materia): (h: int)
    ensures m.horas.None? ==> h == 4
    ensures m.horas.Some? && m.horas.value != 0 ==> h == m.horas.value
    ensures m.horas.Some? && m.horas.value == 0 ==> h == (if d.Python? then 0 else 4)
  {
    if m.horas.None? then 4
    else if d == JavaScript && m.horas.value == 0 then 4
    else m.horas.value
  }

  /** `max(1, #aulas)`: the divisor of the default-room rule. */
  function RoomModulus(numAulas: nat): (n: nat)
    ensures n >= 1 && (numAulas >= 1 ==> n == numAulas)
  {
    if numAulas < 1 then 1 else numAulas
  }

  /** Default room of a group: `grupo % max(1, #aulas)` with the dialect's remainder. */
  function RoomOf(d: Dialect, g: int, numAulas: nat): (r: int)
    ensures d == Python || g >= 0 ==> 0 <= r < RoomModulus(numAulas)
    ensures d == JavaScript && g < 0 ==> -(RoomModulus(numAulas) as int) < r <= 0
  {
    var n := RoomModulus(numAulas);
    if d == Python then g % n else JsRem(g, n)
  }

  /**
    Both generators send a group to the room `grupo mod #aulas` when the id is non-negative (one
    room for everybody when there are no rooms); a negative id that the room count does not
    divide gets a negative, nonexistent room index in the web client.
   */
  lemma RoomOfDialects(g: int, numAulas: nat)
    ensures g >= 0 ==> RoomOf(JavaScript, g, numAulas) == RoomOf(Python, g, numAulas)
    ensures numAulas <= 1 ==> RoomOf(JavaScript, g, numAulas) == RoomOf(Python, g, numAulas) == 0
    ensures g < 0 && g % RoomModulus(numAulas) != 0 ==>
      RoomOf(JavaScript, g, numAulas) == RoomOf(Python, g, numAulas) - RoomModulus(numAulas) < 0
  {
    JsRemVersusMod(g, RoomModulus(numAulas));
  }

  /** `materia` with the first matching id: `next(...)` / `Array.prototype.find`. */
  function FindMateria(materias: seq<Materia>, id: int): Option<Materia>
  {
    if |materias| == 0 then None
    else if materias[0].id == id then Some(materias[0])
    else FindMateria(materias[1..], id)
  }

  /** The lookup fails exactly when no subject has the id, and otherwise yields the first with it. */
  lemma {:induction false} FindMateriaSpec(materias: seq<Materia>, id: int)
    ensures FindMateria(materias, id).None? <==> forall k :: 0 <= k < |materias| ==> materias[k].id != id
    ensures FindMateria(materias, id).Some? ==>
      exists k :: 0 <= k < |materias| && materias[k] == FindMateria(materias, id).value && materias[k].id == id
        && forall j :: 0 <= j < k ==> materias[j].id != id
  {
    if |materias| > 0 && materias[0].id != id {
      var r := FindMateria(materias, id);
      FindMateriaSpec(materias[1..], id);
      if r.Some? {
        var k :| 0 <= k < |materias[1..]| && materias[1..][k] == r.value && materias[1..][k].id == id
          && forall j :: 0 <= j < k ==> materias[1..][j].id != id;
        assert materias[k + 1] == r.value;
        forall j | 0 <= j < k + 1 ensures materias[j].id != id {
          if j > 0 {
            assert materias[j] == materias[1..][j - 1];
          }
        }
      } else {
        forall k | 0 <= k < |materias| ensures materias[k].id != id {
          if k > 0 {
            assert materias[k] == materias[1..][k - 1];
          }
        }
      }
    } else if |materias| > 0 {
      assert materias[0] == FindMateria(materias, id).value;
    }
  }

  // ---------------------------------------------------------------- shared construction

  /**
    How a generator fills in the events of one group: the server and the web client leave the slot
    unassigned and use the group's default room; the Python system draws a random grid slot per
    event (`draw` stands for the two `randint` calls) and takes the first room that fits.
   */
  datatype Rule =
    | ByTable(dialect: Dialect, numAulas: nat, grupo: int)
    | BySistema(aulas: seq<Aula>, grupo': Grupo, draw: int -> (nat, nat))

  function RuleDialect(rule: Rule): Dialect
  {
    if rule.ByTable? then rule.dialect else Python
  }

  /** The room of an event of subject `mat` under the rule. */
  function RuleRoom(rule: Rule, mat: Materia): int
  {
    match rule
    case ByTable(d, numAulas, g) => RoomOf(d, g, numAulas)
    case BySistema(aulas, g, _) => RoomFor(aulas, g, mat)
  }

  /** The slot of the event numbered `id` under the rule. */
  function RuleSlot(rule: Rule, id: int): Slot
  {
    match rule
    case ByTable(_, _, _) => Unassigned
    case BySistema(_, _, draw) => DrawSlot(draw, id)
  }

  /** `n` events of one pair with ids `id0, id0 + 1, ...` (`for h in range(n)`). */
  function Block(id0: int, m: int, p: int, g: int, aula: int, rule: Rule, n: int): (r: seq<Event>)
    ensures |r| == if n < 0 then 0 else n
    decreases n
  {
    if n <= 0 then [] else [Event(id0, m, p, g, aula, RuleSlot(rule, id0))] + Block(id0 + 1, m, p, g, aula, rule, n - 1)
  }

  /** The `k`-th event of a block is numbered `id0 + k` and otherwise carries the block's data. */
  lemma {:induction false} BlockAt(id0: int, m: int, p: int, g: int, aula: int, rule: Rule, n: int, k: int)
    requires 0 <= k < n
    ensures Block(id0, m, p, g, aula, rule, n)[k] == Event(id0 + k, m, p, g, aula, RuleSlot(rule, id0 + k))
    decreases n
  {
    if k > 0 {
      BlockAt(id0 + 1, m, p, g, aula, rule, n - 1, k - 1);
    }
  }

  lemma BlockAll(id0: int, m: int, p: int, g: int, aula: int, rule: Rule, n: int)
    ensures forall k :: 0 <= k < |Block(id0, m, p, g, aula, rule, n)| ==>
      Block(id0, m, p, g, aula, rule, n)[k] == Event(id0 + k, m, p, g, aula, RuleSlot(rule, id0 + k))
  {
    forall k | 0 <= k < |Block(id0, m, p, g, aula, rule, n)|
      ensures Block(id0, m, p, g, aula, rule, n)[k] == Event(id0 + k, m, p, g, aula, RuleSlot(rule, id0 + k))
    {
      BlockAt(id0, m, p, g, aula, rule, n, k);
    }
  }

  /** Events of one (subject, professor) entry of group `g`: none when the subject is unknown. */
  function EntryEvents(g: int, e: (int, int), materias: seq<Materia>, rule: Rule, id0: int): seq<Event>
  {
    match FindMateria(materias, e.0)
    case None => []
    case Some(mat) => Block(id0, e.0, e.1, g, RuleRoom(rule, mat), rule, HoursOf(RuleDialect(rule), mat))
  }

  /** Events of one group's subjects; unknown subject ids are skipped. */
  function RowEvents(g: int, es: Entries, materias: seq<Materia>, rule: Rule, id0: int): seq<Event>
  {
    if |es| == 0 then []
    else
      var head := EntryEvents(g, es[0], materias, rule, id0);
      head + RowEvents(g, es[1..], materias, rule, id0 + |head|)
  }

  /**
    What the generators promise of the event numbered `id` of group `g`: it has that id, belongs
    to the group, sits at the rule's slot for that id, and is of a known subject, in the rule's
    room for that subject.
   */
  predicate Generated(e: Event, g: int, materias: seq<Materia>, rule: Rule, id: int)
  {
    e.id == id && e.grupo == g && e.slot == RuleSlot(rule, id)
    && FindMateria(materias, e.materia).Some? && e.aula == RuleRoom(rule, FindMateria(materias, e.materia).value)
  }

  lemma RowEventsCons(g: int, es: Entries, materias: seq<Materia>, rule: Rule, id0: int)
    requires |es| > 0
    ensures RowEvents(g, es, materias, rule, id0)
         == EntryEvents(g, es[0], materias, rule, id0)
          + RowEvents(g, es[1..], materias, rule, id0 + |EntryEvents(g, es[0], materias, rule, id0)|)
  {
  }

  /** Every event of `es` is the one numbered `id0 + k` of group `g` under the rule. */
  predicate RowGenerated(es: seq<Event>, g: int, materias: seq<Materia>, rule: Rule, id0: int)
  {
    forall k :: 0 <= k < |es| ==> Generated(es[k], g, materias, rule, id0 + k)
  }

  lemma RowGeneratedConcat(a: seq<Event>, b: seq<Event>, g: int, materias: seq<Materia>, rule: Rule, id0: int)
    requires RowGenerated(a, g, materias, rule, id0) && RowGenerated(b, g, materias, rule, id0 + |a|)
    ensures RowGenerated(a + b, g, materias, rule, id0)
  {
    forall k | 0 <= k < |a + b| ensures Generated((a + b)[k], g, materias, rule, id0 + k) {
      if k < |a| {
        assert (a + b)[k] == a[k];
      } else {
        assert (a + b)[k] == b[k - |a|];
        assert Generated(b[k - |a|], g, materias, rule, id0 + |a| + (k - |a|));
      }
    }
  }

  lemma EntryGenerated(g: int, e: (int, int), materias: seq<Materia>, rule: Rule, id0: int)
    ensures RowGenerated(EntryEvents(g, e, materias, rule, id0), g, materias, rule, id0)
  {
    forall k | 0 <= k < |EntryEvents(g, e, materias, rule, id0)|
      ensures Generated(EntryEvents(g, e, materias, rule, id0)[k], g, materias, rule, id0 + k)
    {
      EntryEventAt(g, e, materias, rule, id0, k);
    }
  }

  /** A group's row is numbered consecutively from `id0`. */
  lemma {:induction false} RowAll(g: int, es: Entries, materias: seq<Materia>, rule: Rule, id0: int)
    ensures RowGenerated(RowEvents(g, es, materias, rule, id0), g, materias, rule, id0)
  {
    if |es| > 0 {
      RowAll(g, es[1..], materias, rule, id0 + |EntryEvents(g, es[0], materias, rule, id0)|);
      RowAllStep(g, es, materias, rule, id0);
    } else {
      assert RowEvents(g, es, materias, rule, id0) == [];
    }
  }

  lemma RowAllStep(g: int, es: Entries, materias: seq<Materia>, rule: Rule, id0: int)
    requires |es| > 0
    requires RowGenerated(RowEvents(g, es[1..], materias, rule, id0 + |EntryEvents(g, es[0], materias, rule, id0)|),
                          g, materias, rule, id0 + |EntryEvents(g, es[0], materias, rule, id0)|)
    ensures RowGenerated(RowEvents(g, es, materias, rule, id0), g, materias, rule, id0)
  {
    EntryGenerated(g, es[0], materias, rule, id0);
    RowGeneratedConcat(EntryEvents(g, es[0], materias, rule, id0),
                       RowEvents(g, es[1..], materias, rule, id0 + |EntryEvents(g, es[0], materias, rule, id0)|),
                       g, materias, rule, id0);
    RowEventsCons(g, es, materias, rule, id0);
  }

  /** The `k`-th event of a group's row is the one numbered `id0 + k`. */
  lemma RowEventAt(g: int, es: Entries, materias: seq<Materia>, rule: Rule, id0: int, k: int)
    requires 0 <= k < |RowEvents(g, es, materias, rule, id0)|
    ensures Generated(RowEvents(g, es, materias, rule, id0)[k], g, materias, rule, id0 + k)
  {
    RowAll(g, es, materias, rule, id0);
  }

  lemma EntryEventAt(g: int, e: (int, int), materias: seq<Materia>, rule: Rule, id0: int, k: int)
    requires 0 <= k < |EntryEvents(g, e, materias, rule, id0)|
    ensures EntryEvents(g, e, materias, rule, id0)[k].materia == e.0
    ensures EntryEvents(g, e, materias, rule, id0)[k].profesor == e.1
    ensures Generated(EntryEvents(g, e, materias, rule, id0)[k], g, materias, rule, id0 + k)
  {
    var mat := FindMateria(materias, e.0).value;
    assert EntryEvents(g, e, materias, rule, id0) == Block(id0, e.0, e.1, g, RuleRoom(rule, mat), rule, HoursOf(RuleDialect(rule), mat));
    BlockAt(id0, e.0, e.1, g, RuleRoom(rule, mat), rule, HoursOf(RuleDialect(rule), mat), k);
  }

  /** Every event of `evs` is of group `g` and carries a (subject, professor) pair listed in `es`. */
  predicate RowTaught(evs: seq<Event>, g: int, es: Entries)
  {
    forall k :: 0 <= k < |evs| ==> evs[k].grupo == g && (evs[k].materia, evs[k].profesor) in es
  }

  lemma RowTaughtConcat(a: seq<Event>, b: seq<Event>, g: int, es: Entries)
    requires RowTaught(a, g, es) && RowTaught(b, g, es)
    ensures RowTaught(a + b, g, es)
  {
    forall k | 0 <= k < |a + b| ensures (a + b)[k].grupo == g && ((a + b)[k].materia, (a + b)[k].profesor) in es {
      if k < |a| {
        assert (a + b)[k] == a[k];
      } else {
        assert (a + b)[k] == b[k - |a|];
      }
    }
  }

  /** The events of an entry carry the entry's subject and professor. */
  lemma EntryTaught(g: int, e: (int, int), materias: seq<Materia>, rule: Rule, id0: int, es: Entries)
    requires e in es
    ensures RowTaught(EntryEvents(g, e, materias, rule, id0), g, es)
  {
    var evs := EntryEvents(g, e, materias, rule, id0);
    forall k | 0 <= k < |evs| ensures evs[k].grupo == g && (evs[k].materia, evs[k].profesor) in es {
      EntryEventAt(g, e, materias, rule, id0, k);
      assert (evs[k].materia, evs[k].profesor) == e;
    }
  }

  /** A group's row uses only the (subject, professor) pairs listed for it. */
  lemma {:induction false} RowTaughtAll(g: int, es: Entries, materias: seq<Materia>, rule: Rule, id0: int, all: Entries)
    requires forall i :: 0 <= i < |es| ==> es[i] in all
    ensures RowTaught(RowEvents(g, es, materias, rule, id0), g, all)
  {
    if |es| > 0 {
      RowTaughtAll(g, es[1..], materias, rule, id0 + |EntryEvents(g, es[0], materias, rule, id0)|, all);
      RowTaughtStep(g, es, materias, rule, id0, all);
    } else {
      assert RowEvents(g, es, materias, rule, id0) == [];
    }
  }

  lemma RowTaughtStep(g: int, es: Entries, materias: seq<Materia>, rule: Rule, id0: int, all: Entries)
    requires |es| > 0 && es[0] in all
    requires RowTaught(RowEvents(g, es[1..], materias, rule, id0 + |EntryEvents(g, es[0], materias, rule, id0)|), g, all)
    ensures RowTaught(RowEvents(g, es, materias, rule, id0), g, all)
  {
    EntryTaught(g, es[0], materias, rule, id0, all);
    RowTaughtConcat(EntryEvents(g, es[0], materias, rule, id0),
                    RowEvents(g, es[1..], materias, rule, id0 + |EntryEvents(g, es[0], materias, rule, id0)|), g, all);
    RowEventsCons(g, es, materias, rule, id0);
  }

  /** Number of events of group `g` and subject `m`. */
  function CountPair(evs: seq<Event>, g: int, m: int): nat
  {
    if |evs| == 0 then 0
    else (if evs[0].grupo == g && evs[0].materia == m then 1 else 0) + CountPair(evs[1..], g, m)
  }

  lemma {:induction false} CountPairConcat(a: seq<Event>, b: seq<Event>, g: int, m: int)
    ensures CountPair(a + b, g, m) == CountPair(a, g, m) + CountPair(b, g, m)
  {
    if |a| > 0 {
      CountPairConcat(a[1..], b, g, m);
      assert (a + b)[1..] == a[1..] + b;
    } else {
      assert a + b == b;
    }
  }

  lemma {:induction false} BlockCount(id0: int, m: int, p: int, g: int, aula: int, rule: Rule, n: int, g': int, m': int)
    ensures CountPair(Block(id0, m, p, g, aula, rule, n), g', m') == if g' == g && m' == m && n > 0 then n else 0
    decreases n
  {
    if n > 0 {
      BlockCount(id0 + 1, m, p, g, aula, rule, n - 1, g', m');
    }
  }

  /** Events a subject yields per group under the dialect's hours rule (`range` of a negative count is empty). */
  function Emitted(d: Dialect, materias: seq<Materia>, m: int): nat
  {
    match FindMateria(materias, m)
    case None => 0
    case Some(mat) => if HoursOf(d, mat) > 0 then HoursOf(d, mat) else 0
  }

  lemma EntryCount(g: int, e: (int, int), materias: seq<Materia>, rule: Rule, id0: int, g': int, m': int)
    ensures CountPair(EntryEvents(g, e, materias, rule, id0), g', m') == if g' == g && m' == e.0 then Emitted(RuleDialect(rule), materias, m') else 0
  {
    match FindMateria(materias, e.0) {
      case None =>
      case Some(mat) => BlockCount(id0, e.0, e.1, g, RuleRoom(rule, mat), rule, HoursOf(RuleDialect(rule), mat), g', m');
    }
  }

  lemma FirstsTail<V>(es: seq<(int, V)>)
    requires NoDups(Firsts(es)) && |es| > 0
    ensures NoDups(Firsts(es[1..])) && es[0].0 !in Firsts(es[1..])
    ensures forall m :: m in Firsts(es) <==> m == es[0].0 || m in Firsts(es[1..])
  {
    assert es == [es[0]] + es[1..];
    FirstsCons(es[0], es[1..]);
    NoDupsTail(Firsts(es));
    assert Firsts(es)[1..] == Firsts(es[1..]);
  }

  /** A group's subjects produce exactly the subject's hours for each listed known subject. */
  lemma {:induction false} RowCount(g: int, es: Entries, materias: seq<Materia>, rule: Rule, id0: int, g': int, m': int)
    requires NoDups(Firsts(es))
    ensures CountPair(RowEvents(g, es, materias, rule, id0), g', m')
         == if g' == g && m' in Firsts(es) then Emitted(RuleDialect(rule), materias, m') else 0
  {
    if |es| > 0 {
      var head := EntryEvents(g, es[0], materias, rule, id0);
      var tail := RowEvents(g, es[1..], materias, rule, id0 + |head|);
      RowEventsCons(g, es, materias, rule, id0);
      FirstsTail(es);
      RowCount(g, es[1..], materias, rule, id0 + |head|, g', m');
      CountPairConcat(head, tail, g', m');
      EntryCount(g, es[0], materias, rule, id0, g', m');
      assert CountPair(RowEvents(g, es, materias, rule, id0), g', m') == CountPair(head, g', m') + CountPair(tail, g', m');
      if g' == g && m' == es[0].0 {
        assert CountPair(tail, g', m') == 0;
      }
    }
  }

  // ---------------------------------------------------------------- the server and the web client

  /** Events of the table's rows in order, ids consecutive from `id0`. */
  function TableEvents(d: Dialect, t: Table, materias: seq<Materia>, numAulas: nat, id0: int): seq<Event>
  {
    if |t| == 0 then []
    else
      var head := RowEvents(t[0].0, t[0].1, materias, ByTable(d, numAulas, t[0].0), id0);
      head + TableEvents(d, t[1..], materias, numAulas, id0 + |head|)
  }

  /** An event of the server or the web client: numbered `id`, unassigned, of a known subject and in its group's default room. */
  predicate TableGenerated(e: Event, d: Dialect, materias: seq<Materia>, numAulas: nat, id: int)
  {
    e.id == id && e.slot == Unassigned && e.aula == RoomOf(d, e.grupo, numAulas) && FindMateria(materias, e.materia).Some?
  }

  /** Every event of `es` is the one numbered `id0 + k` of the server or the web client. */
  predicate TableAllGenerated(es: seq<Event>, d: Dialect, materias: seq<Materia>, numAulas: nat, id0: int)
  {
    forall k :: 0 <= k < |es| ==> TableGenerated(es[k], d, materias, numAulas, id0 + k)
  }

  lemma TableGeneratedConcat(a: seq<Event>, b: seq<Event>, d: Dialect, materias: seq<Materia>, numAulas: nat, id0: int)
    requires TableAllGenerated(a, d, materias, numAulas, id0) && TableAllGenerated(b, d, materias, numAulas, id0 + |a|)
    ensures TableAllGenerated(a + b, d, materias, numAulas, id0)
  {
    forall k | 0 <= k < |a + b| ensures TableGenerated((a + b)[k], d, materias, numAulas, id0 + k) {
      if k < |a| {
        assert (a + b)[k] == a[k];
      } else {
        assert (a + b)[k] == b[k - |a|];
        assert TableGenerated(b[k - |a|], d, materias, numAulas, id0 + |a| + (k - |a|));
      }
    }
  }

  /** What the table rule generates for group `g` is what the server or the web client generates. */
  lemma RowTableGenerated(es: seq<Event>, d: Dialect, g: int, materias: seq<Materia>, numAulas: nat, id0: int)
    requires RowGenerated(es, g, materias, ByTable(d, numAulas, g), id0)
    ensures TableAllGenerated(es, d, materias, numAulas, id0)
  {
    forall k | 0 <= k < |es| ensures TableGenerated(es[k], d, materias, numAulas, id0 + k) {
      assert Generated(es[k], g, materias, ByTable(d, numAulas, g), id0 + k);
    }
  }

  /** A table's events are numbered consecutively from `id0`. */
  lemma {:induction false} TableAll(d: Dialect, t: Table, materias: seq<Materia>, numAulas: nat, id0: int)
    ensures TableAllGenerated(TableEvents(d, t, materias, numAulas, id0), d, materias, numAulas, id0)
  {
    if |t| > 0 {
      var head := RowEvents(t[0].0, t[0].1, materias, ByTable(d, numAulas, t[0].0), id0);
      TableAll(d, t[1..], materias, numAulas, id0 + |head|);
      TableAllStep(d, t, materias, numAulas, id0);
    }
  }

  lemma TableAllStep(d: Dialect, t: Table, materias: seq<Materia>, numAulas: nat, id0: int)
    requires |t| > 0
    requires var n := |RowEvents(t[0].0, t[0].1, materias, ByTable(d, numAulas, t[0].0), id0)|;
      TableAllGenerated(TableEvents(d, t[1..], materias, numAulas, id0 + n), d, materias, numAulas, id0 + n)
    ensures TableAllGenerated(TableEvents(d, t, materias, numAulas, id0), d, materias, numAulas, id0)
  {
    var head := RowEvents(t[0].0, t[0].1, materias, ByTable(d, numAulas, t[0].0), id0);
    var tail := TableEvents(d, t[1..], materias, numAulas, id0 + |head|);
    assert TableEvents(d, t, materias, numAulas, id0) == head + tail by {
      TableEventsCons(d, t, materias, numAulas, id0);
    }
    assert TableAllGenerated(head, d, materias, numAulas, id0) by {
      RowAll(t[0].0, t[0].1, materias, ByTable(d, numAulas, t[0].0), id0);
      RowTableGenerated(head, d, t[0].0, materias, numAulas, id0);
    }
    TableGeneratedConcat(head, tail, d, materias, numAulas, id0);
  }

  /** The `k`-th event generated from a table is the one numbered `id0 + k`. */
  lemma TableEventAt(d: Dialect, t: Table, materias: seq<Materia>, numAulas: nat, id0: int, k: int)
    requires 0 <= k < |TableEvents(d, t, materias, numAulas, id0)|
    ensures TableGenerated(TableEvents(d, t, materias, numAulas, id0)[k], d, materias, numAulas, id0 + k)
  {
    TableAll(d, t, materias, numAulas, id0);
  }

  /** The table assigns group `g` subject `m` taught by professor `p`. */
  predicate TableAssigns(t: Table, g: int, m: int, p: int)
  {
    exists j :: 0 <= j < |t| && t[j].0 == g && (m, p) in t[j].1
  }

  /** Every event of `evs` carries a (group, subject, professor) triple the table assigns. */
  predicate TableTaught(evs: seq<Event>, t: Table)
  {
    forall k :: 0 <= k < |evs| ==> TableAssigns(t, evs[k].grupo, evs[k].materia, evs[k].profesor)
  }

  lemma TableTaughtConcat(a: seq<Event>, b: seq<Event>, t: Table)
    requires TableTaught(a, t) && TableTaught(b, t)
    ensures TableTaught(a + b, t)
  {
    forall k | 0 <= k < |a + b| ensures TableAssigns(t, (a + b)[k].grupo, (a + b)[k].materia, (a + b)[k].profesor) {
      if k < |a| {
        assert (a + b)[k] == a[k];
      } else {
        assert (a + b)[k] == b[k - |a|];
      }
    }
  }

  lemma RowTableTaught(evs: seq<Event>, t: Table, j: int)
    requires 0 <= j < |t| && RowTaught(evs, t[j].0, t[j].1)
    ensures TableTaught(evs, t)
  {
    forall k | 0 <= k < |evs| ensures TableAssigns(t, evs[k].grupo, evs[k].materia, evs[k].profesor) {
      assert evs[k].grupo == t[j].0 && (evs[k].materia, evs[k].profesor) in t[j].1;
    }
  }

  /** The server and the web client copy each event's professor from the table. */
  lemma {:induction false} TableTaughtAll(d: Dialect, t: Table, materias: seq<Materia>, numAulas: nat, id0: int, all: Table)
    requires forall i :: 0 <= i < |t| ==> t[i] in all
    ensures TableTaught(TableEvents(d, t, materias, numAulas, id0), all)
  {
    if |t| > 0 {
      var head := RowEvents(t[0].0, t[0].1, materias, ByTable(d, numAulas, t[0].0), id0);
      TableTaughtAll(d, t[1..], materias, numAulas, id0 + |head|, all);
      assert t[0] in all;
      var j :| 0 <= j < |all| && all[j] == t[0];
      TableTaughtStep(d, t, materias, numAulas, id0, all, j);
    }
  }

  lemma TableTaughtStep(d: Dialect, t: Table, materias: seq<Materia>, numAulas: nat, id0: int, all: Table, j: nat)
    requires |t| > 0 && j < |all| && all[j] == t[0]
    requires var n := |RowEvents(t[0].0, t[0].1, materias, ByTable(d, numAulas, t[0].0), id0)|;
      TableTaught(TableEvents(d, t[1..], materias, numAulas, id0 + n), all)
    ensures TableTaught(TableEvents(d, t, materias, numAulas, id0), all)
  {
    var head := RowEvents(t[0].0, t[0].1, materias, ByTable(d, numAulas, t[0].0), id0);
    var tail := TableEvents(d, t[1..], materias, numAulas, id0 + |head|);
    assert TableEvents(d, t, materias, numAulas, id0) == head + tail by {
      TableEventsCons(d, t, materias, numAulas, id0);
    }
    assert TableTaught(head, all) by {
      RowTaughtAll(t[0].0, t[0].1, materias, ByTable(d, numAulas, t[0].0), id0, t[0].1);
      RowTableTaught(head, all, j);
    }
    TableTaughtConcat(head, tail, all);
  }

  /** The table came from a dictionary of dictionaries: no group twice, no subject twice within a group. */
  predicate DictShaped(t: Table)
  {
    NoDups(Firsts(t)) && forall i :: 0 <= i < |t| ==> NoDups(Firsts(t[i].1))
  }

  /** The table assigns subject `m` to group `g`. */
  ghost predicate HasPair(t: Table, g: int, m: int)
  {
    exists es :: (g, es) in t && m in Firsts(es)
  }

  /**
    The number of events a dictionary-shaped table yields for a group and subject: the subject's
    hours (4 when unspecified) if the table assigns it and the subject is known, otherwise none.
   */
  ghost function Expected(d: Dialect, t: Table, materias: seq<Materia>, g: int, m: int): nat
  {
    if HasPair(t, g, m) then Emitted(d, materias, m) else 0
  }

  lemma DictShapedTail(t: Table)
    requires DictShaped(t) && |t| > 0
    ensures DictShaped(t[1..]) && t[0].0 !in Firsts(t[1..])
  {
    FirstsCons(t[0], t[1..]);
    assert t == [t[0]] + t[1..];
    NoDupsTail(Firsts(t));
    assert Firsts(t)[1..] == Firsts(t[1..]);
    forall i | 0 <= i < |t[1..]| ensures NoDups(Firsts(t[1..][i].1)) {
      assert t[1..][i] == t[i + 1];
    }
  }

  lemma HasPairKey(t: Table, g: int, m: int)
    ensures HasPair(t, g, m) ==> g in Firsts(t)
  {
    if HasPair(t, g, m) {
      var es :| (g, es) in t && m in Firsts(es);
      var j :| 0 <= j < |t| && t[j] == (g, es);
      assert Firsts(t)[j] == g;
    }
  }

  /** The table's pairs are the first row's plus, for the other groups, the remaining rows' pairs. */
  lemma HasPairCons(t: Table, g: int, m: int)
    requires |t| > 0 && t[0].0 !in Firsts(t[1..])
    ensures HasPair(t, g, m) <==> if t[0].0 == g then m in Firsts(t[0].1) else HasPair(t[1..], g, m)
  {
    var rest := t[1..];
    if HasPair(t, g, m) {
      var es :| (g, es) in t && m in Firsts(es);
      var j :| 0 <= j < |t| && t[j] == (g, es);
      if j > 0 {
        assert rest[j - 1] == (g, es);
        assert Firsts(rest)[j - 1] == g;
      }
    }
    if t[0].0 == g && m in Firsts(t[0].1) {
      assert (g, t[0].1) in t;
    }
    if t[0].0 != g && HasPair(rest, g, m) {
      var es :| (g, es) in rest && m in Firsts(es);
      assert (g, es) in t;
    }
  }

  lemma TableEventsCons(d: Dialect, t: Table, materias: seq<Materia>, numAulas: nat, id0: int)
    requires |t| > 0
    ensures TableEvents(d, t, materias, numAulas, id0)
         == RowEvents(t[0].0, t[0].1, materias, ByTable(d, numAulas, t[0].0), id0)
          + TableEvents(d, t[1..], materias, numAulas, id0 + |RowEvents(t[0].0, t[0].1, materias, ByTable(d, numAulas, t[0].0), id0)|)
  {
  }

  lemma TableCountStep(d: Dialect, t: Table, materias: seq<Materia>, numAulas: nat, id0: int, g: int, m: int)
    requires |t| > 0
    ensures var head := RowEvents(t[0].0, t[0].1, materias, ByTable(d, numAulas, t[0].0), id0);
      CountPair(TableEvents(d, t, materias, numAulas, id0), g, m)
      == CountPair(head, g, m) + CountPair(TableEvents(d, t[1..], materias, numAulas, id0 + |head|), g, m)
  {
    var head := RowEvents(t[0].0, t[0].1, materias, ByTable(d, numAulas, t[0].0), id0);
    TableEventsCons(d, t, materias, numAulas, id0);
    CountPairConcat(head, TableEvents(d, t[1..], materias, numAulas, id0 + |head|), g, m);
  }

  lemma {:induction false} TableCount(d: Dialect, t: Table, materias: seq<Materia>, numAulas: nat, id0: int, g: int, m: int)
    requires DictShaped(t)
    ensures CountPair(TableEvents(d, t, materias, numAulas, id0), g, m) == Expected(d, t, materias, g, m)
  {
    if |t| > 0 {
      var head := RowEvents(t[0].0, t[0].1, materias, ByTable(d, numAulas, t[0].0), id0);
      DictShapedTail(t);
      TableCount(d, t[1..], materias, numAulas, id0 + |head|, g, m);
      RowCount(t[0].0, t[0].1, materias, ByTable(d, numAulas, t[0].0), id0, g, m);
      TableCountStep(d, t, materias, numAulas, id0, g, m);
      ExpectedCons(d, t, materias, g, m);
    }
  }

  /** The expected count splits into the first row's share and the other rows'. */
  lemma ExpectedCons(d: Dialect, t: Table, materias: seq<Materia>, g: int, m: int)
    requires DictShaped(t) && |t| > 0
    ensures Expected(d, t, materias, g, m)
         == (if t[0].0 == g && m in Firsts(t[0].1) then Emitted(d, materias, m) else 0) + Expected(d, t[1..], materias, g, m)
  {
    DictShapedTail(t);
    HasPairCons(t, g, m);
    if t[0].0 == g {
      HasPairKey(t[1..], g, m);
    }
  }

  /** `generar_eventos_iniciales`: the table in file order, ids from 0. */
  function GenerarEventosIniciales(t: Table, materias: seq<Materia>, numAulas: nat): (r: seq<Event>)
    ensures forall k :: 0 <= k < |r| ==> r[k].id == k && r[k].slot == Unassigned
    ensures forall k :: 0 <= k < |r| ==> r[k].aula == RoomOf(Python, r[k].grupo, numAulas) && 0 <= r[k].aula < RoomModulus(numAulas)
    ensures forall k :: 0 <= k < |r| ==> FindMateria(materias, r[k].materia).Some?
    ensures forall k :: 0 <= k < |r| ==> TableAssigns(t, r[k].grupo, r[k].materia, r[k].profesor)
  {
    var r := TableEvents(Python, t, materias, numAulas, 0);
    TableAll(Python, t, materias, numAulas, 0);
    TableTaughtAll(Python, t, materias, numAulas, 0, t);
    r
  }

  /** The server yields `horas_semanales` events (4 when absent) per assigned known subject. */
  lemma ServerEventsPerPair(t: Table, materias: seq<Materia>, numAulas: nat, g: int, m: int)
    requires DictShaped(t)
    ensures CountPair(GenerarEventosIniciales(t, materias, numAulas), g, m) == Expected(Python, t, materias, g, m)
  {
    TableCount(Python, t, materias, numAulas, 0, g, m);
  }

  // ---------------------------------------------------------------- JavaScript key order

  function NonNegKeys<V>(s: seq<(int, V)>): seq<(int, V)>
  {
    if |s| == 0 then [] else (if s[0].0 >= 0 then [s[0]] else []) + NonNegKeys(s[1..])
  }

  function NegKeys<V>(s: seq<(int, V)>): seq<(int, V)>
  {
    if |s| == 0 then [] else (if s[0].0 < 0 then [s[0]] else []) + NegKeys(s[1..])
  }

  lemma {:induction false} SplitKeys<V>(s: seq<(int, V)>)
    ensures multiset(NonNegKeys(s)) + multiset(NegKeys(s)) == multiset(s)
  {
    if |s| > 0 {
      SplitKeys(s[1..]);
      SplitKeysCons(s[0], s[1..]);
      assert s == [s[0]] + s[1..];
    }
  }

  lemma SplitKeysCons<V>(x: (int, V), t: seq<(int, V)>)
    requires multiset(NonNegKeys(t)) + multiset(NegKeys(t)) == multiset(t)
    ensures multiset(NonNegKeys([x] + t)) + multiset(NegKeys([x] + t)) == multiset([x] + t)
  {
    assert ([x] + t)[1..] == t;
    if x.0 >= 0 {
      SplitKeysConsNonNeg(x, t);
    } else {
      SplitKeysConsNeg(x, t);
    }
  }

  lemma SplitKeysConsNonNeg<V>(x: (int, V), t: seq<(int, V)>)
    requires x.0 >= 0
    requires multiset(NonNegKeys(t)) + multiset(NegKeys(t)) == multiset(t)
    ensures multiset(NonNegKeys([x] + t)) + multiset(NegKeys([x] + t)) == multiset([x] + t)
  {
    assert ([x] + t)[1..] == t;
    assert NonNegKeys([x] + t) == [x] + NonNegKeys(t);
    assert NegKeys([x] + t) == NegKeys(t);
  }

  lemma SplitKeysConsNeg<V>(x: (int, V), t: seq<(int, V)>)
    requires x.0 < 0
    requires multiset(NonNegKeys(t)) + multiset(NegKeys(t)) == multiset(t)
    ensures multiset(NonNegKeys([x] + t)) + multiset(NegKeys([x] + t)) == multiset([x] + t)
  {
    assert ([x] + t)[1..] == t;
    assert NonNegKeys([x] + t) == NonNegKeys(t);
    assert NegKeys([x] + t) == [x] + NegKeys(t);
  }

  lemma {:induction false} SplitKeysFirsts<V>(s: seq<(int, V)>)
    ensures multiset(Firsts(NonNegKeys(s))) + multiset(Firsts(NegKeys(s))) == multiset(Firsts(s))
  {
    if |s| > 0 {
      SplitKeysFirsts(s[1..]);
      SplitKeysFirstsCons(s[0], s[1..]);
      assert s == [s[0]] + s[1..];
    }
  }

  lemma SplitKeysFirstsCons<V>(x: (int, V), t: seq<(int, V)>)
    requires multiset(Firsts(NonNegKeys(t))) + multiset(Firsts(NegKeys(t))) == multiset(Firsts(t))
    ensures multiset(Firsts(NonNegKeys([x] + t))) + multiset(Firsts(NegKeys([x] + t))) == multiset(Firsts([x] + t))
  {
    assert ([x] + t)[1..] == t;
    FirstsCons(x, t);
    if x.0 >= 0 {
      assert NonNegKeys([x] + t) == [x] + NonNegKeys(t);
      assert NegKeys([x] + t) == NegKeys(t);
      FirstsCons(x, NonNegKeys(t));
    } else {
      assert NonNegKeys([x] + t) == NonNegKeys(t);
      assert NegKeys([x] + t) == [x] + NegKeys(t);
      FirstsCons(x, NegKeys(t));
    }
  }

  /**
    The order `Object.keys` lists an object's keys in: array-index keys ascending, then the other
    keys in insertion order. Integer keys are taken to be written canonically, so the array-index
    keys are the non-negative ones.
   */
  function JsKeyOrder<V(==)>(s: seq<(int, V)>): (r: seq<(int, V)>)
    ensures multiset(r) == multiset(s)
    ensures multiset(Firsts(r)) == multiset(Firsts(s))
    ensures |r| == |s|
  {
    SplitKeys(s);
    SplitKeysFirsts(s);
    SortByKeyFirsts(NonNegKeys(s));
    FirstsAppend(SortByKey(NonNegKeys(s)), NegKeys(s));
    var r := SortByKey(NonNegKeys(s)) + NegKeys(s);
    assert |multiset(r)| == |r| && |multiset(s)| == |s|;
    r
  }

  /** The table as the web client walks it: groups and, within each, subjects in `Object.keys` order. */
  function JsTable(t: Table): (r: Table)
    ensures |r| == |t|
  {
    var u := JsKeyOrder(t);
    seq(|u|, i requires 0 <= i < |u| => (u[i].0, JsKeyOrder(u[i].1)))
  }

  lemma SameMultisetSameNoDups<T>(a: seq<T>, b: seq<T>)
    requires multiset(a) == multiset(b)
    ensures NoDups(a) <==> NoDups(b)
  {
    NoDupsMultiset(a);
    NoDupsMultiset(b);
  }

  lemma SameMultisetSameMembers<T>(a: seq<T>, b: seq<T>, x: T)
    requires multiset(a) == multiset(b)
    ensures x in a <==> x in b
  {
    assert x in a <==> x in multiset(a);
    assert x in b <==> x in multiset(b);
  }

  lemma JsTableShaped(t: Table)
    requires DictShaped(t)
    ensures DictShaped(JsTable(t))
  {
    var u := JsKeyOrder(t);
    var r := JsTable(t);
    assert Firsts(r) == Firsts(u);
    SameMultisetSameNoDups(Firsts(u), Firsts(t));
    forall i | 0 <= i < |r| ensures NoDups(Firsts(r[i].1)) {
      SameMultisetSameMembers(u, t, u[i]);
      var j :| 0 <= j < |t| && t[j] == u[i];
      SameMultisetSameNoDups(Firsts(r[i].1), Firsts(u[i].1));
    }
  }

  lemma JsTablePair(t: Table, g: int, m: int)
    ensures HasPair(JsTable(t), g, m) <==> HasPair(t, g, m)
  {
    if HasPair(JsTable(t), g, m) {
      JsTablePairBack(t, g, m);
    }
    if HasPair(t, g, m) {
      JsTablePairForth(t, g, m);
    }
  }

  lemma JsTablePairBack(t: Table, g: int, m: int)
    requires HasPair(JsTable(t), g, m)
    ensures HasPair(t, g, m)
  {
    var u := JsKeyOrder(t);
    var r := JsTable(t);
    var es :| (g, es) in r && m in Firsts(es);
    var i :| 0 <= i < |r| && r[i] == (g, es);
    SameMultisetSameMembers(u, t, u[i]);
    SameMultisetSameMembers(Firsts(JsKeyOrder(u[i].1)), Firsts(u[i].1), m);
    assert (g, u[i].1) in t;
  }

  lemma JsTablePairForth(t: Table, g: int, m: int)
    requires HasPair(t, g, m)
    ensures HasPair(JsTable(t), g, m)
  {
    var u := JsKeyOrder(t);
    var r := JsTable(t);
    var es :| (g, es) in t && m in Firsts(es);
    SameMultisetSameMembers(u, t, (g, es));
    var i :| 0 <= i < |u| && u[i] == (g, es);
    SameMultisetSameMembers(Firsts(JsKeyOrder(es)), Firsts(es), m);
    assert r[i] == (g, JsKeyOrder(es));
  }

  /** A dictionary-shaped table names a single professor for each group and subject. */
  lemma TableAssignsUnique(t: Table, g: int, m: int, p: int, q: int)
    requires DictShaped(t) && TableAssigns(t, g, m, p) && TableAssigns(t, g, m, q)
    ensures p == q
  {
    var i :| 0 <= i < |t| && t[i].0 == g && (m, p) in t[i].1;
    var j :| 0 <= j < |t| && t[j].0 == g && (m, q) in t[j].1;
    KeyedUnique(t, t[i], t[j]);
    KeyedUnique(t[i].1, (m, p), (m, q));
  }

  /** Reordering the table's keys assigns the same professors. */
  lemma JsTableAssigns(t: Table, g: int, m: int, p: int)
    ensures TableAssigns(JsTable(t), g, m, p) <==> TableAssigns(t, g, m, p)
  {
    var u := JsKeyOrder(t);
    var r := JsTable(t);
    if TableAssigns(r, g, m, p) {
      var i :| 0 <= i < |r| && r[i].0 == g && (m, p) in r[i].1;
      SameMultisetSameMembers(u, t, u[i]);
      SameMultisetSameMembers(JsKeyOrder(u[i].1), u[i].1, (m, p));
      var j :| 0 <= j < |t| && t[j] == u[i];
    }
    if TableAssigns(t, g, m, p) {
      var j :| 0 <= j < |t| && t[j].0 == g && (m, p) in t[j].1;
      SameMultisetSameMembers(u, t, t[j]);
      var i :| 0 <= i < |u| && u[i] == t[j];
      SameMultisetSameMembers(JsKeyOrder(u[i].1), u[i].1, (m, p));
      assert r[i] == (g, JsKeyOrder(t[j].1));
    }
  }

  /** Reordering keeps the table dictionary-shaped and assigns the same subjects to the same groups. */
  lemma JsTableSamePairs(t: Table)
    requires DictShaped(t)
    ensures DictShaped(JsTable(t))
    ensures forall g, m :: HasPair(JsTable(t), g, m) <==> HasPair(t, g, m)
  {
    JsTableShaped(t);
    forall g, m ensures HasPair(JsTable(t), g, m) <==> HasPair(t, g, m) {
      JsTablePair(t, g, m);
    }
  }

  // ---------------------------------------------------------------- the web client's fallback

  /** Index of the `i`-th subject the fallback gives the `gi`-th group: `(gi * 2 + i) mod #materias`. */
  function FallbackSubject(gi: nat, i: nat, n: nat): (r: nat)
    requires n > 0
    ensures r < n
  {
    ((gi * 2) % n + i) % n
  }

  /** The fallback gives each group `min(6, #materias)` different subjects. */
  lemma FallbackSubjectsDistinct(gi: nat, i: nat, j: nat, n: nat)
    requires n > 0 && i < j < (if n < 6 then n else 6)
    ensures FallbackSubject(gi, i, n) != FallbackSubject(gi, j, n)
  {
    var o := (gi * 2) % n;
    if (o + i) % n == (o + j) % n {
      SameRemainderFar(o + i, o + j, n);
    }
  }

  /** How many subjects the fallback gives each group: `min(6, #materias)`. */
  function FallbackCount(n: nat): nat
  {
    if n < 6 then n else 6
  }

  /**
    An event of the fallback's `gi`-th group (from `gi0` on): the group's `i`-th subject of the
    rotation, taught by professor `(gi + i) mod #profesores`, in the group's default room.
   */
  predicate Rotated(e: Event, gi0: nat, grupos: seq<Grupo>, materias: seq<Materia>, numProfesores: nat, numAulas: nat)
  {
    numProfesores > 0 && |materias| > 0 && e.aula == RoomOf(JavaScript, e.grupo, numAulas) && e.slot == Unassigned
    && (exists gi: nat, i: nat :: gi0 <= gi < |grupos| && i < FallbackCount(|materias|) && RotationAt(e, gi, i, grupos, materias, numProfesores))
  }

  /** `e` is the `i`-th subject of the `gi`-th group's rotation, with that position's professor. */
  predicate RotationAt(e: Event, gi: nat, i: nat, grupos: seq<Grupo>, materias: seq<Materia>, numProfesores: nat)
  {
    numProfesores > 0 && |materias| > 0 && gi < |grupos| && i < FallbackCount(|materias|) && e.grupo == grupos[gi].id
    && e.materia == materias[FallbackSubject(gi, i, |materias|)].id && e.profesor == (gi + i) % numProfesores
  }

  /** With distinct group and subject ids, a group and subject fix the rotation position and so the professor. */
  lemma RotatedSameProfessor(e1: Event, e2: Event, grupos: seq<Grupo>, materias: seq<Materia>, numProfesores: nat, numAulas: nat)
    requires Rotated(e1, 0, grupos, materias, numProfesores, numAulas) && Rotated(e2, 0, grupos, materias, numProfesores, numAulas)
    requires e1.grupo == e2.grupo && e1.materia == e2.materia
    requires forall a, b :: 0 <= a < b < |grupos| ==> grupos[a].id != grupos[b].id
    requires forall a, b :: 0 <= a < b < |materias| ==> materias[a].id != materias[b].id
    ensures e1.profesor == e2.profesor
  {
    var gi: nat, i: nat :| RotationAt(e1, gi, i, grupos, materias, numProfesores);
    var gj: nat, j: nat :| RotationAt(e2, gj, j, grupos, materias, numProfesores);
    RotationPositionUnique(e1, e2, gi, i, gj, j, grupos, materias, numProfesores);
  }

  lemma RotationPositionUnique(e1: Event, e2: Event, gi: nat, i: nat, gj: nat, j: nat, grupos: seq<Grupo>, materias: seq<Materia>,
                               numProfesores: nat)
    requires RotationAt(e1, gi, i, grupos, materias, numProfesores) && RotationAt(e2, gj, j, grupos, materias, numProfesores)
    requires e1.grupo == e2.grupo && e1.materia == e2.materia
    requires forall a, b :: 0 <= a < b < |grupos| ==> grupos[a].id != grupos[b].id
    requires forall a, b :: 0 <= a < b < |materias| ==> materias[a].id != materias[b].id
    ensures gi == gj && i == j
  {
    var n := |materias|;
    assert gi == gj;
    SubjectPositionUnique(gi, i, j, n, materias);
  }

  /** Within one group's rotation, distinct positions name subjects with distinct ids. */
  lemma SubjectPositionUnique(gi: nat, i: nat, j: nat, n: nat, materias: seq<Materia>)
    requires n == |materias| > 0 && i < FallbackCount(n) && j < FallbackCount(n)
    requires materias[FallbackSubject(gi, i, n)].id == materias[FallbackSubject(gi, j, n)].id
    requires forall a, b :: 0 <= a < b < |materias| ==> materias[a].id != materias[b].id
    ensures i == j
  {
    if i < j {
      FallbackSubjectsDistinct(gi, i, j, n);
    } else if j < i {
      FallbackSubjectsDistinct(gi, j, i, n);
    }
  }

  /** Two positions of the rotation name subjects with different ids. */
  lemma SubjectPositionsDiffer(gi: nat, i: nat, j: nat, n: nat, materias: seq<Materia>)
    requires n == |materias| > 0 && i < j < FallbackCount(n)
    requires forall a, b :: 0 <= a < b < |materias| ==> materias[a].id != materias[b].id
    ensures materias[FallbackSubject(gi, i, n)].id != materias[FallbackSubject(gi, j, n)].id
  {
    FallbackSubjectsDistinct(gi, i, j, n);
  }

  /**
    `r` are events numbered from `id0` of group `g`, the `gi`-th listed, unassigned and in the
    group's default room, each of a subject `i' >= i` of the group's rotation and taught by
    professor `(gi + i') mod #profesores`.
   */
  predicate SubjectEvents(r: seq<Event>, gi: nat, g: Grupo, i: nat, materias: seq<Materia>, numProfesores: nat, numAulas: nat, id0: int)
  {
    forall k :: 0 <= k < |r| ==>
      r[k].id == id0 + k && r[k].grupo == g.id && r[k].slot == Unassigned && r[k].aula == RoomOf(JavaScript, g.id, numAulas)
      && numProfesores > 0 && 0 <= r[k].profesor < numProfesores && |materias| > 0
      && (exists i': nat :: i <= i' < FallbackCount(|materias|)
            && r[k].materia == materias[FallbackSubject(gi, i', |materias|)].id && r[k].profesor == (gi + i') % numProfesores)
  }

  /** The events of the `i`-th subject of the rotation. */
  lemma SubjectBlock(gi: nat, g: Grupo, i: nat, materias: seq<Materia>, numProfesores: nat, numAulas: nat, id0: int)
    requires numProfesores > 0 && i < FallbackCount(|materias|)
    ensures SubjectEvents(Block(id0, materias[FallbackSubject(gi, i, |materias|)].id, (gi + i) % numProfesores, g.id,
                                RoomOf(JavaScript, g.id, numAulas), ByTable(JavaScript, numAulas, g.id),
                                HoursOf(JavaScript, materias[FallbackSubject(gi, i, |materias|)])),
                          gi, g, i, materias, numProfesores, numAulas, id0)
  {
    var mat := materias[FallbackSubject(gi, i, |materias|)];
    BlockAll(id0, mat.id, (gi + i) % numProfesores, g.id, RoomOf(JavaScript, g.id, numAulas),
             ByTable(JavaScript, numAulas, g.id), HoursOf(JavaScript, mat));
  }

  lemma SubjectEventsJoin(head: seq<Event>, tail: seq<Event>, gi: nat, g: Grupo, i: nat, materias: seq<Materia>,
                          numProfesores: nat, numAulas: nat, id0: int)
    requires SubjectEvents(head, gi, g, i, materias, numProfesores, numAulas, id0)
    requires SubjectEvents(tail, gi, g, i + 1, materias, numProfesores, numAulas, id0 + |head|)
    ensures SubjectEvents(head + tail, gi, g, i, materias, numProfesores, numAulas, id0)
  {
    var r := head + tail;
    forall k | 0 <= k < |r|
      ensures r[k].id == id0 + k && r[k].grupo == g.id && r[k].slot == Unassigned && r[k].aula == RoomOf(JavaScript, g.id, numAulas)
      && numProfesores > 0 && 0 <= r[k].profesor < numProfesores && |materias| > 0
      && (exists i': nat :: i <= i' < FallbackCount(|materias|)
            && r[k].materia == materias[FallbackSubject(gi, i', |materias|)].id && r[k].profesor == (gi + i') % numProfesores)
    {
      if k < |head| {
        assert r[k] == head[k];
      } else {
        assert r[k] == tail[k - |head|];
        var i': nat :| i + 1 <= i' < FallbackCount(|materias|)
          && tail[k - |head|].materia == materias[FallbackSubject(gi, i', |materias|)].id
          && tail[k - |head|].profesor == (gi + i') % numProfesores;
      }
    }
  }

  /** Events of subjects `i, i+1, ...` of the `gi`-th group when no table was loaded. */
  function FallbackSubjects(gi: nat, g: Grupo, i: nat, materias: seq<Materia>, numProfesores: nat, numAulas: nat, id0: int): seq<Event>
    requires numProfesores > 0
    decreases FallbackCount(|materias|) - i
  {
    if i >= FallbackCount(|materias|) then []
    else
      var mat := materias[FallbackSubject(gi, i, |materias|)];
      var head := Block(id0, mat.id, (gi + i) % numProfesores, g.id, RoomOf(JavaScript, g.id, numAulas),
                        ByTable(JavaScript, numAulas, g.id), HoursOf(JavaScript, mat));
      head + FallbackSubjects(gi, g, i + 1, materias, numProfesores, numAulas, id0 + |head|)
  }

  lemma {:induction false} FallbackSubjectsShape(gi: nat, g: Grupo, i: nat, materias: seq<Materia>, numProfesores: nat, numAulas: nat, id0: int)
    requires numProfesores > 0
    ensures SubjectEvents(FallbackSubjects(gi, g, i, materias, numProfesores, numAulas, id0), gi, g, i, materias, numProfesores, numAulas, id0)
    decreases FallbackCount(|materias|) - i
  {
    if i < FallbackCount(|materias|) {
      var mat := materias[FallbackSubject(gi, i, |materias|)];
      var head := Block(id0, mat.id, (gi + i) % numProfesores, g.id, RoomOf(JavaScript, g.id, numAulas),
                        ByTable(JavaScript, numAulas, g.id), HoursOf(JavaScript, mat));
      var tail := FallbackSubjects(gi, g, i + 1, materias, numProfesores, numAulas, id0 + |head|);
      FallbackSubjectsShape(gi, g, i + 1, materias, numProfesores, numAulas, id0 + |head|);
      SubjectBlock(gi, g, i, materias, numProfesores, numAulas, id0);
      SubjectEventsJoin(head, tail, gi, g, i, materias, numProfesores, numAulas, id0);
      assert FallbackSubjects(gi, g, i, materias, numProfesores, numAulas, id0) == head + tail;
    }
  }

  /** Events of the groups from the `gi`-th on when no table was loaded. */
  function FallbackGroups(gi: nat, grupos: seq<Grupo>, materias: seq<Materia>, numProfesores: nat, numAulas: nat, id0: int): seq<Event>
    requires numProfesores > 0 && gi <= |grupos|
    decreases |grupos| - gi
  {
    if gi == |grupos| then []
    else
      var head := FallbackSubjects(gi, grupos[gi], 0, materias, numProfesores, numAulas, id0);
      head + FallbackGroups(gi + 1, grupos, materias, numProfesores, numAulas, id0 + |head|)
  }

  /** The fallback's events are numbered from `id0` and each is an event of some later group's rotation. */
  lemma {:induction false} FallbackGroupsShape(gi: nat, grupos: seq<Grupo>, materias: seq<Materia>, numProfesores: nat, numAulas: nat, id0: int)
    requires numProfesores > 0 && gi <= |grupos|
    ensures forall k :: 0 <= k < |FallbackGroups(gi, grupos, materias, numProfesores, numAulas, id0)| ==>
      FallbackGroups(gi, grupos, materias, numProfesores, numAulas, id0)[k].id == id0 + k
      && Rotated(FallbackGroups(gi, grupos, materias, numProfesores, numAulas, id0)[k], gi, grupos, materias, numProfesores, numAulas)
    decreases |grupos| - gi
  {
    if gi < |grupos| {
      var head := FallbackSubjects(gi, grupos[gi], 0, materias, numProfesores, numAulas, id0);
      var tail := FallbackGroups(gi + 1, grupos, materias, numProfesores, numAulas, id0 + |head|);
      var r := head + tail;
      assert FallbackGroups(gi, grupos, materias, numProfesores, numAulas, id0) == r;
      FallbackSubjectsShape(gi, grupos[gi], 0, materias, numProfesores, numAulas, id0);
      FallbackGroupsShape(gi + 1, grupos, materias, numProfesores, numAulas, id0 + |head|);
      forall k | 0 <= k < |r| ensures r[k].id == id0 + k && Rotated(r[k], gi, grupos, materias, numProfesores, numAulas) {
        if k < |head| {
          assert r[k] == head[k];
          var i': nat :| 0 <= i' < FallbackCount(|materias|)
            && head[k].materia == materias[FallbackSubject(gi, i', |materias|)].id && head[k].profesor == (gi + i') % numProfesores;
          assert RotationAt(r[k], gi, i', grupos, materias, numProfesores);
        } else {
          assert r[k] == tail[k - |head|];
        }
      }
    }
  }

  /**
    `generarEventosIniciales`: the loaded table in `Object.keys` order or, when it is empty, the
    subject rotation; ids from 0 either way.
   */
  function GenerarEventosInicialesJs(t: Table, materias: seq<Materia>, grupos: seq<Grupo>, numProfesores: nat, numAulas: nat): (r: seq<Event>)
    requires |t| > 0 || numProfesores > 0
    ensures forall k :: 0 <= k < |r| ==> r[k].id == k && r[k].slot == Unassigned
    ensures |t| > 0 ==> forall k :: 0 <= k < |r| ==> r[k].aula == RoomOf(JavaScript, r[k].grupo, numAulas)
    ensures |t| > 0 ==> forall k :: 0 <= k < |r| ==> FindMateria(materias, r[k].materia).Some?
    ensures |t| > 0 ==> forall k :: 0 <= k < |r| ==> TableAssigns(t, r[k].grupo, r[k].materia, r[k].profesor)
    ensures |t| == 0 ==> forall k :: 0 <= k < |r| ==> Rotated(r[k], 0, grupos, materias, numProfesores, numAulas)
  {
    if |t| > 0 then
      JsTableEvents(t, materias, numAulas);
      TableEvents(JavaScript, JsTable(t), materias, numAulas, 0)
    else
      FallbackGroupsShape(0, grupos, materias, numProfesores, numAulas, 0);
      FallbackGroups(0, grupos, materias, numProfesores, numAulas, 0)
  }

  /** The web client's events for a loaded table, numbered from 0, come from the table itself. */
  lemma JsTableEvents(t: Table, materias: seq<Materia>, numAulas: nat)
    ensures forall e :: e in TableEvents(JavaScript, JsTable(t), materias, numAulas, 0) ==>
      e.slot == Unassigned && e.aula == RoomOf(JavaScript, e.grupo, numAulas)
      && FindMateria(materias, e.materia).Some? && TableAssigns(t, e.grupo, e.materia, e.profesor)
    ensures forall k :: 0 <= k < |TableEvents(JavaScript, JsTable(t), materias, numAulas, 0)| ==>
      TableEvents(JavaScript, JsTable(t), materias, numAulas, 0)[k].id == k
  {
    var r := TableEvents(JavaScript, JsTable(t), materias, numAulas, 0);
    TableAll(JavaScript, JsTable(t), materias, numAulas, 0);
    TableTaughtAll(JavaScript, JsTable(t), materias, numAulas, 0, JsTable(t));
    forall k | 0 <= k < |r| ensures TableAssigns(t, r[k].grupo, r[k].materia, r[k].profesor) {
      JsTableAssigns(t, r[k].grupo, r[k].materia, r[k].profesor);
    }
  }

  /**
    The web client yields `horas_semanales || 4` events per assigned known subject: the same
    count as the server except that a declared 0 becomes 4.
   */
  lemma WebEventsPerPair(t: Table, materias: seq<Materia>, grupos: seq<Grupo>, numProfesores: nat, numAulas: nat, g: int, m: int)
    requires DictShaped(t) && |t| > 0
    ensures CountPair(GenerarEventosInicialesJs(t, materias, grupos, numProfesores, numAulas), g, m)
         == Expected(JavaScript, t, materias, g, m)
  {
    JsTableSamePairs(t);
    TableCount(JavaScript, JsTable(t), materias, numAulas, 0, g, m);
  }

  /**
    Without a table, the web client yields `horas_semanales || 4` events (none when that is
    negative) for each group and each subject of the group's rotation. With distinct ids no two
    positions share a pair, and every event is of some such position (`Rotated`).
   */
  lemma FallbackEventsPerPair(materias: seq<Materia>, grupos: seq<Grupo>, numProfesores: nat, numAulas: nat, gi: nat, i: nat)
    requires numProfesores > 0 && gi < |grupos| && i < FallbackCount(|materias|)
    requires forall a, b :: 0 <= a < b < |grupos| ==> grupos[a].id != grupos[b].id
    requires forall a, b :: 0 <= a < b < |materias| ==> materias[a].id != materias[b].id
    ensures var mat := materias[FallbackSubject(gi, i, |materias|)];
      CountPair(GenerarEventosInicialesJs([], materias, grupos, numProfesores, numAulas), grupos[gi].id, mat.id) == RotationHours(mat)
  {
    FallbackGroupsCount(0, grupos, materias, numProfesores, numAulas, 0, gi, i);
  }

  /** A sequence with no event of the pair counts 0 for it. */
  lemma {:induction false} CountPairNone(evs: seq<Event>, g: int, m: int)
    requires forall k :: 0 <= k < |evs| ==> evs[k].grupo != g || evs[k].materia != m
    ensures CountPair(evs, g, m) == 0
  {
    if |evs| > 0 {
      assert forall k :: 0 <= k < |evs[1..]| ==> evs[1..][k] == evs[k + 1];
      CountPairNone(evs[1..], g, m);
    }
  }

  lemma {:induction false} FallbackGroupsCount(gi0: nat, grupos: seq<Grupo>, materias: seq<Materia>, numProfesores: nat, numAulas: nat,
                                               id0: int, gi: nat, i: nat)
    requires numProfesores > 0 && gi0 <= gi < |grupos| && i < FallbackCount(|materias|)
    requires forall a, b :: 0 <= a < b < |grupos| ==> grupos[a].id != grupos[b].id
    requires forall a, b :: 0 <= a < b < |materias| ==> materias[a].id != materias[b].id
    ensures CountPair(FallbackGroups(gi0, grupos, materias, numProfesores, numAulas, id0), grupos[gi].id, materias[FallbackSubject(gi, i, |materias|)].id)
      == RotationHours(materias[FallbackSubject(gi, i, |materias|)])
    decreases |grupos| - gi0
  {
    if gi0 == gi {
      GroupsCountHere(grupos, materias, numProfesores, numAulas, id0, gi, i);
    } else {
      FallbackGroupsCount(gi0 + 1, grupos, materias, numProfesores, numAulas,
                          id0 + |FallbackSubjects(gi0, grupos[gi0], 0, materias, numProfesores, numAulas, id0)|, gi, i);
      GroupsSkip(gi0, grupos, materias, numProfesores, numAulas, id0, grupos[gi].id, materias[FallbackSubject(gi, i, |materias|)].id);
    }
  }

  /** The rotation of a group other than `g` adds nothing to the count of the later groups. */
  lemma GroupsSkip(gi0: nat, grupos: seq<Grupo>, materias: seq<Materia>, numProfesores: nat, numAulas: nat, id0: int, g: int, m: int)
    requires numProfesores > 0 && gi0 < |grupos| && grupos[gi0].id != g
    ensures CountPair(FallbackGroups(gi0, grupos, materias, numProfesores, numAulas, id0), g, m)
      == CountPair(FallbackGroups(gi0 + 1, grupos, materias, numProfesores, numAulas,
                                  id0 + |FallbackSubjects(gi0, grupos[gi0], 0, materias, numProfesores, numAulas, id0)|), g, m)
  {
    OtherGroupMisses(gi0, grupos[gi0], materias, numProfesores, numAulas, id0, g, m);
    GroupsSplit(gi0, grupos, materias, numProfesores, numAulas, id0, g, m);
  }

  /** The `gi`-th group's own rotation holds all of the pair's events. */
  lemma GroupsCountHere(grupos: seq<Grupo>, materias: seq<Materia>, numProfesores: nat, numAulas: nat, id0: int, gi: nat, i: nat)
    requires numProfesores > 0 && gi < |grupos| && i < FallbackCount(|materias|)
    requires forall a, b :: 0 <= a < b < |grupos| ==> grupos[a].id != grupos[b].id
    requires forall a, b :: 0 <= a < b < |materias| ==> materias[a].id != materias[b].id
    ensures CountPair(FallbackGroups(gi, grupos, materias, numProfesores, numAulas, id0), grupos[gi].id, materias[FallbackSubject(gi, i, |materias|)].id)
      == RotationHours(materias[FallbackSubject(gi, i, |materias|)])
  {
    var g, m := grupos[gi].id, materias[FallbackSubject(gi, i, |materias|)].id;
    var head := FallbackSubjects(gi, grupos[gi], 0, materias, numProfesores, numAulas, id0);
    GroupsSplit(gi, grupos, materias, numProfesores, numAulas, id0, g, m);
    assert CountPair(head, g, m) == RotationHours(materias[FallbackSubject(gi, i, |materias|)]) by {
      FallbackSubjectsCount(gi, grupos[gi], 0, materias, numProfesores, numAulas, id0, i);
    }
    LaterGroupsMiss(gi + 1, grupos, materias, numProfesores, numAulas, id0 + |head|, gi, m);
  }

  /** The rotation of the `gi0`-th group and of the groups after it, counted for one pair. */
  lemma GroupsSplit(gi0: nat, grupos: seq<Grupo>, materias: seq<Materia>, numProfesores: nat, numAulas: nat, id0: int, g: int, m: int)
    requires numProfesores > 0 && gi0 < |grupos|
    ensures CountPair(FallbackGroups(gi0, grupos, materias, numProfesores, numAulas, id0), g, m)
      == CountPair(FallbackSubjects(gi0, grupos[gi0], 0, materias, numProfesores, numAulas, id0), g, m)
         + CountPair(FallbackGroups(gi0 + 1, grupos, materias, numProfesores, numAulas,
                                    id0 + |FallbackSubjects(gi0, grupos[gi0], 0, materias, numProfesores, numAulas, id0)|), g, m)
  {
    var head := FallbackSubjects(gi0, grupos[gi0], 0, materias, numProfesores, numAulas, id0);
    var tail := FallbackGroups(gi0 + 1, grupos, materias, numProfesores, numAulas, id0 + |head|);
    assert FallbackGroups(gi0, grupos, materias, numProfesores, numAulas, id0) == head + tail;
    CountPairConcat(head, tail, g, m);
  }

  /** The rotation of groups listed after the `gi`-th has no event of that group. */
  lemma LaterGroupsMiss(gi0: nat, grupos: seq<Grupo>, materias: seq<Materia>, numProfesores: nat, numAulas: nat, id0: int, gi: nat, m: int)
    requires numProfesores > 0 && gi < gi0 <= |grupos|
    requires forall a, b :: 0 <= a < b < |grupos| ==> grupos[a].id != grupos[b].id
    ensures CountPair(FallbackGroups(gi0, grupos, materias, numProfesores, numAulas, id0), grupos[gi].id, m) == 0
  {
    var r := FallbackGroups(gi0, grupos, materias, numProfesores, numAulas, id0);
    FallbackGroupsShape(gi0, grupos, materias, numProfesores, numAulas, id0);
    forall k | 0 <= k < |r| ensures r[k].grupo != grupos[gi].id {
      assert Rotated(r[k], gi0, grupos, materias, numProfesores, numAulas);
      var gj: nat, j: nat :| gi0 <= gj < |grupos| && j < FallbackCount(|materias|) && RotationAt(r[k], gj, j, grupos, materias, numProfesores);
    }
    CountPairNone(r, grupos[gi].id, m);
  }

  /** One group's rotation has no event of another group. */
  lemma OtherGroupMisses(gi: nat, gr: Grupo, materias: seq<Materia>, numProfesores: nat, numAulas: nat, id0: int, g: int, m: int)
    requires numProfesores > 0 && gr.id != g
    ensures CountPair(FallbackSubjects(gi, gr, 0, materias, numProfesores, numAulas, id0), g, m) == 0
  {
    var r := FallbackSubjects(gi, gr, 0, materias, numProfesores, numAulas, id0);
    FallbackSubjectsShape(gi, gr, 0, materias, numProfesores, numAulas, id0);
    assert forall k :: 0 <= k < |r| ==> r[k].grupo == gr.id;
    CountPairNone(r, g, m);
  }

  /** Events a subject of the rotation yields: `horas_semanales || 4`, none when that is negative. */
  function RotationHours(mat: Materia): nat
  {
    if HoursOf(JavaScript, mat) > 0 then HoursOf(JavaScript, mat) else 0
  }

  lemma {:induction false} FallbackSubjectsCount(gi: nat, g: Grupo, i0: nat, materias: seq<Materia>, numProfesores: nat, numAulas: nat,
                                                 id0: int, i: nat)
    requires numProfesores > 0 && i0 <= i < FallbackCount(|materias|)
    requires forall a, b :: 0 <= a < b < |materias| ==> materias[a].id != materias[b].id
    ensures CountPair(FallbackSubjects(gi, g, i0, materias, numProfesores, numAulas, id0), g.id, materias[FallbackSubject(gi, i, |materias|)].id)
      == RotationHours(materias[FallbackSubject(gi, i, |materias|)])
    decreases FallbackCount(|materias|) - i0
  {
    if i0 == i {
      SubjectsCountHit(gi, g, i0, materias, numProfesores, numAulas, id0, i);
    } else {
      FallbackSubjectsCount(gi, g, i0 + 1, materias, numProfesores, numAulas,
                            id0 + RotationHours(materias[FallbackSubject(gi, i0, |materias|)]), i);
      SubjectsCountMiss(gi, g, i0, materias, numProfesores, numAulas, id0, i);
    }
  }

  /** Counting from the sought position itself: its block, and nothing after it. */
  lemma SubjectsCountHit(gi: nat, g: Grupo, i0: nat, materias: seq<Materia>, numProfesores: nat, numAulas: nat, id0: int, i: nat)
    requires numProfesores > 0 && i0 == i < FallbackCount(|materias|)
    requires forall a, b :: 0 <= a < b < |materias| ==> materias[a].id != materias[b].id
    ensures CountPair(FallbackSubjects(gi, g, i0, materias, numProfesores, numAulas, id0), g.id, materias[FallbackSubject(gi, i, |materias|)].id)
      == RotationHours(materias[FallbackSubject(gi, i, |materias|)])
  {
    LaterSubjectsMiss(gi, g, i + 1, materias, numProfesores, numAulas,
                      id0 + RotationHours(materias[FallbackSubject(gi, i, |materias|)]), i);
    SubjectsSplitHit(gi, g, i, materias, numProfesores, numAulas, id0);
  }

  /** Counting from an earlier position: its block adds nothing to the count of the rest. */
  lemma SubjectsCountMiss(gi: nat, g: Grupo, i0: nat, materias: seq<Materia>, numProfesores: nat, numAulas: nat, id0: int, i: nat)
    requires numProfesores > 0 && i0 < i < FallbackCount(|materias|)
    requires forall a, b :: 0 <= a < b < |materias| ==> materias[a].id != materias[b].id
    requires CountPair(FallbackSubjects(gi, g, i0 + 1, materias, numProfesores, numAulas,
                                        id0 + RotationHours(materias[FallbackSubject(gi, i0, |materias|)])),
                       g.id, materias[FallbackSubject(gi, i, |materias|)].id)
          == RotationHours(materias[FallbackSubject(gi, i, |materias|)])
    ensures CountPair(FallbackSubjects(gi, g, i0, materias, numProfesores, numAulas, id0), g.id, materias[FallbackSubject(gi, i, |materias|)].id)
      == RotationHours(materias[FallbackSubject(gi, i, |materias|)])
  {
    SubjectPositionsDiffer(gi, i0, i, |materias|, materias);
    SubjectsSplitMiss(gi, g, i0, materias, numProfesores, numAulas, id0, materias[FallbackSubject(gi, i, |materias|)].id);
  }

  /** The block of position `i` and the rest of the rotation, counted for that position's pair. */
  lemma SubjectsSplitHit(gi: nat, g: Grupo, i: nat, materias: seq<Materia>, numProfesores: nat, numAulas: nat, id0: int)
    requires numProfesores > 0 && i < FallbackCount(|materias|)
    ensures CountPair(FallbackSubjects(gi, g, i, materias, numProfesores, numAulas, id0), g.id, materias[FallbackSubject(gi, i, |materias|)].id)
      == RotationHours(materias[FallbackSubject(gi, i, |materias|)])
         + CountPair(FallbackSubjects(gi, g, i + 1, materias, numProfesores, numAulas, id0 + RotationHours(materias[FallbackSubject(gi, i, |materias|)])),
                     g.id, materias[FallbackSubject(gi, i, |materias|)].id)
  {
    var mat := materias[FallbackSubject(gi, i, |materias|)];
    var head := Block(id0, mat.id, (gi + i) % numProfesores, g.id, RoomOf(JavaScript, g.id, numAulas),
                      ByTable(JavaScript, numAulas, g.id), HoursOf(JavaScript, mat));
    var tail := FallbackSubjects(gi, g, i + 1, materias, numProfesores, numAulas, id0 + |head|);
    assert FallbackSubjects(gi, g, i, materias, numProfesores, numAulas, id0) == head + tail;
    CountPairConcat(head, tail, g.id, mat.id);
    BlockCount(id0, mat.id, (gi + i) % numProfesores, g.id, RoomOf(JavaScript, g.id, numAulas),
               ByTable(JavaScript, numAulas, g.id), HoursOf(JavaScript, mat), g.id, mat.id);
  }

  /** The block of position `i0` has no event of another subject. */
  lemma SubjectsSplitMiss(gi: nat, g: Grupo, i0: nat, materias: seq<Materia>, numProfesores: nat, numAulas: nat, id0: int, m: int)
    requires numProfesores > 0 && i0 < FallbackCount(|materias|)
    requires materias[FallbackSubject(gi, i0, |materias|)].id != m
    ensures CountPair(FallbackSubjects(gi, g, i0, materias, numProfesores, numAulas, id0), g.id, m)
      == CountPair(FallbackSubjects(gi, g, i0 + 1, materias, numProfesores, numAulas, id0 + RotationHours(materias[FallbackSubject(gi, i0, |materias|)])),
                   g.id, m)
  {
    var mat := materias[FallbackSubject(gi, i0, |materias|)];
    var head := Block(id0, mat.id, (gi + i0) % numProfesores, g.id, RoomOf(JavaScript, g.id, numAulas),
                      ByTable(JavaScript, numAulas, g.id), HoursOf(JavaScript, mat));
    var tail := FallbackSubjects(gi, g, i0 + 1, materias, numProfesores, numAulas, id0 + |head|);
    assert FallbackSubjects(gi, g, i0, materias, numProfesores, numAulas, id0) == head + tail;
    CountPairConcat(head, tail, g.id, m);
    BlockCount(id0, mat.id, (gi + i0) % numProfesores, g.id, RoomOf(JavaScript, g.id, numAulas),
               ByTable(JavaScript, numAulas, g.id), HoursOf(JavaScript, mat), g.id, m);
  }

  /** The rotation from position `i0` on has no event of an earlier position's subject. */
  lemma LaterSubjectsMiss(gi: nat, g: Grupo, i0: nat, materias: seq<Materia>, numProfesores: nat, numAulas: nat, id0: int, i: nat)
    requires numProfesores > 0 && i < i0 && i < FallbackCount(|materias|)
    requires forall a, b :: 0 <= a < b < |materias| ==> materias[a].id != materias[b].id
    ensures CountPair(FallbackSubjects(gi, g, i0, materias, numProfesores, numAulas, id0), g.id, materias[FallbackSubject(gi, i, |materias|)].id) == 0
  {
    var n := |materias|;
    var m := materias[FallbackSubject(gi, i, n)].id;
    var r := FallbackSubjects(gi, g, i0, materias, numProfesores, numAulas, id0);
    FallbackSubjectsShape(gi, g, i0, materias, numProfesores, numAulas, id0);
    forall k | 0 <= k < |r| ensures r[k].materia != m {
      var j: nat :| i0 <= j < FallbackCount(n) && r[k].materia == materias[FallbackSubject(gi, j, n)].id
        && r[k].profesor == (gi + j) % numProfesores;
      if r[k].materia == m {
        SubjectPositionUnique(gi, i, j, n, materias);
      }
    }
    CountPairNone(r, g.id, m);
  }

  /** A subject declared with 0 hours: the server emits nothing for it, the web client emits 4. */
  lemma ZeroHoursDiffer(t: Table, materias: seq<Materia>, g: int, m: int)
    requires HasPair(t, g, m)
    requires FindMateria(materias, m) == Some(Materia(m, Some(0), false))
    ensures Expected(Python, t, materias, g, m) == 0
    ensures Expected(JavaScript, t, materias, g, m) == 4
  {
  }

  // ---------------------------------------------------------------- the Python system

  /** Rooms that can host the group's class: enough seats and, for a lab subject, a lab. */
  predicate Fits(a: Aula, numEstudiantes: int, requiereLab: bool)
  {
    a.capacidad >= numEstudiantes && (!requiereLab || a.esLab)
  }

  /** Index of the first room in list order that fits, if any. */
  function FirstFit(aulas: seq<Aula>, numEstudiantes: int, requiereLab: bool): (r: Option<nat>)
    ensures r.Some? ==> r.value < |aulas| && Fits(aulas[r.value], numEstudiantes, requiereLab)
    ensures r.Some? ==> forall j :: 0 <= j < r.value ==> !Fits(aulas[j], numEstudiantes, requiereLab)
    ensures r.None? <==> forall j :: 0 <= j < |aulas| ==> !Fits(aulas[j], numEstudiantes, requiereLab)
  {
    if |aulas| == 0 then None
    else if Fits(aulas[0], numEstudiantes, requiereLab) then Some(0)
    else
      match FirstFit(aulas[1..], numEstudiantes, requiereLab)
      case None => None
      case Some(k) =>
        assert forall j :: 1 <= j <= k ==> aulas[j] == aulas[1..][j - 1];
        Some(k + 1)
  }

  /** The room id an event of this group and subject receives, -1 when no room fits. */
  function RoomFor(aulas: seq<Aula>, g: Grupo, mat: Materia): int
  {
    match FirstFit(aulas, g.numEstudiantes, mat.requiereLab)
    case None => -1
    case Some(k) => aulas[k].id
  }

  /** The room is that of a fitting room, and -1 exactly when none fits. */
  lemma RoomForSpec(aulas: seq<Aula>, g: Grupo, mat: Materia)
    ensures (forall j :: 0 <= j < |aulas| ==> !Fits(aulas[j], g.numEstudiantes, mat.requiereLab)) ==> RoomFor(aulas, g, mat) == -1
    ensures RoomFor(aulas, g, mat) == -1
         || exists j :: 0 <= j < |aulas| && aulas[j].id == RoomFor(aulas, g, mat) && Fits(aulas[j], g.numEstudiantes, mat.requiereLab)
  {
  }

  /** A random slot drawn for event `id`: `draw` stands for the two `randint` calls. */
  function DrawSlot(draw: int -> (nat, nat), id: int): (s: Slot)
    ensures ValidSlot(s)
  {
    Slot(draw(id).0 % Days, draw(id).1 % Hours)
  }

  /** Events of one listed group: none when the group has no table entry. */
  function GroupRow(g: Grupo, asign: map<int, Entries>, materias: seq<Materia>, aulas: seq<Aula>,
                    draw: int -> (nat, nat), id0: int): seq<Event>
  {
    if g.id in asign then RowEvents(g.id, asign[g.id], materias, BySistema(aulas, g, draw), id0) else []
  }

  /**
    `generar_solucion_inicial`: for every group of the list that has a table entry, its subjects'
    events, each at a random grid slot and in the first room that fits.
   */
  function SistemaEvents(grupos: seq<Grupo>, asign: map<int, Entries>, materias: seq<Materia>, aulas: seq<Aula>,
                         draw: int -> (nat, nat), id0: int): seq<Event>
  {
    if |grupos| == 0 then []
    else
      var head := GroupRow(grupos[0], asign, materias, aulas, draw, id0);
      head + SistemaEvents(grupos[1..], asign, materias, aulas, draw, id0 + |head|)
  }

  /** What the Python system promises of its event numbered `id`. */
  predicate SistemaGenerated(e: Event, grupos: seq<Grupo>, asign: map<int, Entries>, materias: seq<Materia>, aulas: seq<Aula>, id: int)
  {
    e.id == id && ValidSlot(e.slot) && e.grupo in asign && (e.materia, e.profesor) in asign[e.grupo]
    && FindMateria(materias, e.materia).Some?
    && exists j :: 0 <= j < |grupos| && grupos[j].id == e.grupo && e.aula == RoomFor(aulas, grupos[j], FindMateria(materias, e.materia).value)
  }

  lemma GroupRowAt(g: Grupo, asign: map<int, Entries>, materias: seq<Materia>, aulas: seq<Aula>,
                   draw: int -> (nat, nat), id0: int, k: int)
    requires 0 <= k < |GroupRow(g, asign, materias, aulas, draw, id0)|
    ensures var e := GroupRow(g, asign, materias, aulas, draw, id0)[k];
      e.id == id0 + k && ValidSlot(e.slot) && e.grupo == g.id && g.id in asign && (e.materia, e.profesor) in asign[g.id]
      && FindMateria(materias, e.materia).Some? && e.aula == RoomFor(aulas, g, FindMateria(materias, e.materia).value)
  {
    RowEventAt(g.id, asign[g.id], materias, BySistema(aulas, g, draw), id0, k);
    RowTaughtAll(g.id, asign[g.id], materias, BySistema(aulas, g, draw), id0, asign[g.id]);
  }

  /**
    The `k`-th event of the Python system is numbered `id0 + k`, sits at a grid slot, belongs to a
    listed group that has a table entry, pairs a subject with the professor that entry lists for it,
    is of a known subject, and is in the first room fitting that group and subject, or -1.
   */
  lemma {:induction false} SistemaEventAt(grupos: seq<Grupo>, asign: map<int, Entries>, materias: seq<Materia>, aulas: seq<Aula>,
                                          draw: int -> (nat, nat), id0: int, k: int)
    requires 0 <= k < |SistemaEvents(grupos, asign, materias, aulas, draw, id0)|
    ensures SistemaGenerated(SistemaEvents(grupos, asign, materias, aulas, draw, id0)[k], grupos, asign, materias, aulas, id0 + k)
  {
    var head := GroupRow(grupos[0], asign, materias, aulas, draw, id0);
    var tail := SistemaEvents(grupos[1..], asign, materias, aulas, draw, id0 + |head|);
    assert SistemaEvents(grupos, asign, materias, aulas, draw, id0) == head + tail;
    if k < |head| {
      GroupRowAt(grupos[0], asign, materias, aulas, draw, id0, k);
      assert (head + tail)[k] == head[k];
    } else {
      SistemaEventAt(grupos[1..], asign, materias, aulas, draw, id0 + |head|, k - |head|);
      assert (head + tail)[k] == tail[k - |head|];
      var e := tail[k - |head|];
      var j :| 0 <= j < |grupos[1..]| && grupos[1..][j].id == e.grupo
        && e.aula == RoomFor(aulas, grupos[1..][j], FindMateria(materias, e.materia).value);
      assert grupos[j + 1] == grupos[1..][j];
    }
  }

  /** The whole output of `generar_solucion_inicial` is numbered 0, 1, ... and placed on the grid. */
  lemma SistemaEventsShape(grupos: seq<Grupo>, asign: map<int, Entries>, materias: seq<Materia>, aulas: seq<Aula>,
                           draw: int -> (nat, nat))
    ensures forall k :: 0 <= k < |SistemaEvents(grupos, asign, materias, aulas, draw, 0)| ==>
      SistemaGenerated(SistemaEvents(grupos, asign, materias, aulas, draw, 0)[k], grupos, asign, materias, aulas, k)
  {
    forall k | 0 <= k < |SistemaEvents(grupos, asign, materias, aulas, draw, 0)|
      ensures SistemaGenerated(SistemaEvents(grupos, asign, materias, aulas, draw, 0)[k], grupos, asign, materias, aulas, k)
    {
      SistemaEventAt(grupos, asign, materias, aulas, draw, 0, k);
    }
  }

  /**
    The Python system yields, per group and subject, the subject's hours once for every time the
    group is listed, provided the group has a table entry naming a known subject; otherwise none.
   */
  lemma {:induction false} SistemaEventsPerPair(grupos: seq<Grupo>, asign: map<int, Entries>, materias: seq<Materia>, aulas: seq<Aula>,
                                                draw: int -> (nat, nat), id0: int, g: int, m: int)
    requires forall k :: k in asign ==> NoDups(Firsts(asign[k]))
    ensures CountPair(SistemaEvents(grupos, asign, materias, aulas, draw, id0), g, m)
         == Count(GroupIds(grupos), g) * (if g in asign && m in Firsts(asign[g]) then Emitted(Python, materias, m) else 0)
    decreases |grupos|
  {
    if |grupos| > 0 {
      SistemaEventsPerPair(grupos[1..], asign, materias, aulas, draw,
                           id0 + |GroupRow(grupos[0], asign, materias, aulas, draw, id0)|, g, m);
      SistemaPairStep(grupos, asign, materias, aulas, draw, id0, g, m);
    }
  }

  /** The first listed group's row adds its share to the count of the rest. */
  lemma SistemaPairStep(grupos: seq<Grupo>, asign: map<int, Entries>, materias: seq<Materia>, aulas: seq<Aula>,
                        draw: int -> (nat, nat), id0: int, g: int, m: int)
    requires |grupos| > 0
    requires forall k :: k in asign ==> NoDups(Firsts(asign[k]))
    requires CountPair(SistemaEvents(grupos[1..], asign, materias, aulas, draw, id0 + |GroupRow(grupos[0], asign, materias, aulas, draw, id0)|), g, m)
         == Count(GroupIds(grupos[1..]), g) * (if g in asign && m in Firsts(asign[g]) then Emitted(Python, materias, m) else 0)
    ensures CountPair(SistemaEvents(grupos, asign, materias, aulas, draw, id0), g, m)
         == Count(GroupIds(grupos), g) * (if g in asign && m in Firsts(asign[g]) then Emitted(Python, materias, m) else 0)
  {
    GroupRowCount(grupos[0], asign, materias, aulas, draw, id0, g, m);
    GroupIdsCons(grupos);
    CountCons(grupos[0].id, GroupIds(grupos[1..]), g);
    SistemaEventsCons(grupos, asign, materias, aulas, draw, id0);
    CountPairScaled(SistemaEvents(grupos, asign, materias, aulas, draw, id0), GroupRow(grupos[0], asign, materias, aulas, draw, id0),
                    SistemaEvents(grupos[1..], asign, materias, aulas, draw, id0 + |GroupRow(grupos[0], asign, materias, aulas, draw, id0)|),
                    g, m, grupos[0].id == g,
                    Count(GroupIds(grupos[1..]), g), Count(GroupIds(grupos), g),
                    if g in asign && m in Firsts(asign[g]) then Emitted(Python, materias, m) else 0);
  }

  lemma SistemaEventsCons(grupos: seq<Grupo>, asign: map<int, Entries>, materias: seq<Materia>, aulas: seq<Aula>,
                          draw: int -> (nat, nat), id0: int)
    requires |grupos| > 0
    ensures SistemaEvents(grupos, asign, materias, aulas, draw, id0)
         == GroupRow(grupos[0], asign, materias, aulas, draw, id0)
          + SistemaEvents(grupos[1..], asign, materias, aulas, draw, id0 + |GroupRow(grupos[0], asign, materias, aulas, draw, id0)|)
  {
  }

  /** A list made of a share of `e` events and `c` times `e` more holds `cnt * e` of them. */
  lemma CountPairScaled(all: seq<Event>, head: seq<Event>, tail: seq<Event>, g: int, m: int, here: bool, c: nat, cnt: nat, e: nat)
    requires all == head + tail
    requires CountPair(head, g, m) == (if here then e else 0)
    requires CountPair(tail, g, m) == c * e
    requires cnt == (if here then 1 else 0) + c
    ensures CountPair(all, g, m) == cnt * e
  {
    CountPairConcat(head, tail, g, m);
    MulStep(here, c, e);
  }

  lemma GroupRowCount(gr: Grupo, asign: map<int, Entries>, materias: seq<Materia>, aulas: seq<Aula>,
                      draw: int -> (nat, nat), id0: int, g: int, m: int)
    requires forall k :: k in asign ==> NoDups(Firsts(asign[k]))
    ensures CountPair(GroupRow(gr, asign, materias, aulas, draw, id0), g, m)
         == if gr.id == g && g in asign && m in Firsts(asign[g]) then Emitted(Python, materias, m) else 0
  {
    if gr.id in asign {
      RowCount(gr.id, asign[gr.id], materias, BySistema(aulas, gr, draw), id0, g, m);
    }
  }

  lemma MulStep(b: bool, c: nat, e: nat)
    ensures (if b then e else 0) + c * e == ((if b then 1 else 0) + c) * e
  {
  }

  function GroupIds(grupos: seq<Grupo>): (r: seq<int>)
    ensures |r| == |grupos|
  {
    seq(|grupos|, i requires 0 <= i < |grupos| => grupos[i].id)
  }

  lemma GroupIdsCons(grupos: seq<Grupo>)
    requires |grupos| > 0
    ensures GroupIds(grupos) == [grupos[0].id] + GroupIds(grupos[1..])
  {
  }

  lemma CountCons(x: int, s: seq<int>, y: int)
    ensures Count([x] + s, y) == (if x == y then 1 else 0) + Count(s, y)
  {
    CountConcat([x], s, y);
    assert [x][..0] == [];
  }
}
