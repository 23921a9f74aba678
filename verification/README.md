# Weekly timetabling engine: a Dafny model

This project models the engine of a university timetabling tool. The tool places *events* on a
weekly grid of 5 days × 14 periods. An event is one weekly hour of a subject, taught by a
professor to a group in a room. The compiled optimiser is not shown, so the model covers the
parts of the engine that are implemented in plain Python, C++ headers and JavaScript:

- **Data layout** (`Domain`): the grid, slot ids `dia * 14 + hora`, the `Evento` / `Solucion`
  defaults and the quality rule of `Solucion::calcular_calidad`.
- **Event generators** (`Generation`):
  - `generar_eventos_iniciales` of the server;
  - `generarEventosIniciales` of the web client, including its subject-rotation fallback;
  - `generar_solucion_inicial` of the Python system, with its first-fit room choice and random
    slots.
- **Conflict evaluation**:
  - `Conflicts`: the three hard-conflict counters, each proved equal to one reference count, and
    `calcularConflictosEnSlot`;
  - `SoftConflicts`: the gap count `blandos`;
  - `Detection`: the report-side `detectar_conflictos`.
- **Greedy placement**:
  - `Occupancy`: the 5 × 14 occupancy grid and its day-major first-fit search;
  - `Fallback`: `optimizar_python` of the server;
  - `Constructive`: steps 1 to 4 of the web client's `optimizarEventos`.
- **Local repair** (`Tabu`, `Repair`): step 5 of `optimizarEventos`. It has a bounded FIFO tabu
  list of 30 keys and runs up to 300 rounds. Each round moves one conflicting event to the best
  non-tabu slot, and keeps the move only when it beats the origin slot's count.
- **Compaction** (`Compaction`): step 6, `compactarHorarios`. It is modelled as written and in a
  corrected form; see Findings.
- **Whole optimiser** (`Pipeline`): `optimizarEventos` end to end, followed by the final hard count,
  once with the compaction as written and once with the corrected one.
- **Co-slot graph** (`CoSlotGraph`): the node and edge construction of the React `GraphSection`
  effect and of `buildGraph` in the static page.

`Seqs`, `Buckets` and `Arith` hold generic facts:

- `Seqs`: repeats, distinct elements and stable sorting by key.
- `Buckets`: the insertion-ordered group-by that JavaScript objects and `Map`s give.
- `Arith`: JavaScript's truncating `%` against Dafny's Euclidean one.

Several conventions apply throughout:

- Random choices are function parameters.
- String keys such as `${dia}-${hora}` are modelled as the tuple they render. The rendering is
  injective.
- `double` quality is an exact `real`.

## Model

| member | source | states |
|---|---|---|
| Domain.SlotId | include/estructuras.h:52-61 | a slot of the grid gets an id in 0..69, and that id maps back to the same slot |
| Domain.SlotIdInjective | include/estructuras.h:59-61 | two grid slots have the same id exactly when they are the same slot, so the id is unique as its comment claims |
| Domain.SlotIdCollidesOutsideGrid | include/estructuras.h:59-61 | outside the grid the id is not unique: period 14 of Monday and period 0 of Tuesday share id 14 |
| Domain.SlotOfIdRoundTrip | include/estructuras.h:59-61 | every id 0..69 is the id of the slot it names |
| Domain.Quality | include/estructuras.h:111-119 | quality is 0 whenever there is a hard conflict; otherwise it is 100 − penalty/10, floored at 0; it lies in [0, 100]; it is 100 exactly for a clean, penalty-free solution |
| Domain.CalcularCalidad | include/estructuras.h:111-119 | recomputing leaves events and scores unchanged and sets the quality from the hard count and the penalty |
| Domain.QualityAntitone | include/estructuras.h:111-119 | a larger soft penalty never yields a better quality |
| Domain.DefaultsAreEmpty | include/estructuras.h:56-109 | a default event has room −1 and slot (0, 0); a default solution is empty with all scores 0, and recomputing its quality gives 100 |
| Generation.HoursOf | api_server.py:91 | hours per week: 4 when the field is absent; a declared 0 stays 0 on the server and becomes 4 in the web client (`\|\| 4`) |
| Generation.RoomOf | api_server.py:100 | the default room `grupo mod max(1, #aulas)`, which lies in range for the server and for non-negative ids in the web client |
| Generation.RoomOfDialects | web/app.js:1486 | the two remainders agree for non-negative group ids and when there is at most one room; JavaScript gives a negative room for a negative id that the room count does not divide |
| Generation.FindMateriaSpec | api_server.py:87-89 | the subject lookup fails exactly when no subject has the id, and otherwise yields the first subject with it |
| Generation.GenerarEventosIniciales | api_server.py:74-107 | events are numbered 0, 1, … in order; every event is unassigned at (−1, −1), has the room `grupo mod max(1, #aulas)` under Python's remainder, which is in range, names a known subject and carries the professor the table gives its group and subject |
| Generation.ServerEventsPerPair | api_server.py:83-103 | each assigned group–subject pair with a known subject yields exactly its weekly hours in events; other pairs yield none |
| Generation.GenerarEventosInicialesJs | web/app.js:1453-1516 | ids are 0, 1, … and every slot is (−1, −1); with a loaded table every room is `grupo % max(1, #aulas)` under JavaScript's remainder, every subject is known and every professor is the one the table gives the group and subject; without a table every event is a rotation event: for some group index gi and step i < min(6, #materias), group gi's id, subject `(2·gi + i) mod #materias`, professor `(gi + i) mod #profesores`, the same room rule |
| Generation.FallbackEventsPerPair | web/app.js:1493-1513 | without a table, and with distinct group and subject ids, for every group index gi and step i < min(6, #materias), group gi and subject `(2·gi + i) mod #materias` get exactly `horas_semanales \|\| 4` events, none when that is negative |
| Generation.JsTableEvents | web/app.js:1460-1491 | every event built from the table in `Object.keys` order is unassigned, has the JavaScript room, a known subject and the professor the table gives its group and subject; ids run 0, 1, … |
| Generation.TableAssignsUnique | api_server.py:80-83 | in a table with one entry per group key and, per group, one per subject key, a group and subject name at most one professor |
| Generation.RotatedSameProfessor | web/app.js:1493-1500 | with distinct group ids and subject ids, two rotation events of one group and subject have the same professor, because the group and subject fix the rotation position |
| Generation.WebEventsPerPair | web/app.js:1460-1491 | each assigned known pair yields `horas_semanales \|\| 4` events, whatever order `Object.keys` puts the table in |
| Generation.ZeroHoursDiffer | web/app.js:1477 | a subject declared with 0 hours gets no events from the server and 4 from the web client |
| Generation.FallbackSubjectsDistinct | web/app.js:1495-1500 | the rotation gives each group min(6, #materias) pairwise different subjects |
| Generation.FirstFit | sistema_horarios.py:270-275 | the first room in list order that is large enough and is a laboratory when the subject needs one; none exactly when no room fits |
| Generation.RoomForSpec | sistema_horarios.py:105 | the chosen room id is that of a fitting room, and −1 when none fits |
| Generation.SistemaEventsShape | sistema_horarios.py:244-278 | the events are numbered 0, 1, … and each is a generated event of a listed group with a table entry, a known subject, the professor that entry gives the subject, a grid slot and the first-fit room |
| Generation.SistemaEventsPerPair | sistema_horarios.py:251-268 | per group and subject: the subject's hours, once for each listing of the group, when the group has a table entry with a known subject; none otherwise |
| Conflicts.HardCountsAgree | web/app.js:1796-1814 | the web client's `indexOf` count, the Python `len − len(set)` count and the length of the conflict list all equal the reference count of repeated (slot, professor) and (slot, group) pairs, unassigned slots included |
| Conflicts.HardConflictsZeroIff | api_server.py:366-378 | the reference count is 0 exactly when no slot holds a professor or a group twice |
| Conflicts.ConflictingEventsEmptyIff | web/app.js:1725-1755 | the conflict list is empty, and the web client's count is 0, exactly when the timetable is clash-free |
| Conflicts.SlotConflictsIsBucketTerm | web/app.js:1714-1723 | `calcularConflictosEnSlot(d, h)` is that slot's term of the total, so it never exceeds the total |
| Conflicts.ConflictingEvents | web/app.js:1725-1755 | every entry of the conflict list is the position of an event |
| Conflicts.ConflictingEventsMembers | web/app.js:1725-1755 | event k is listed exactly when an earlier event in its slot has its professor or its group |
| Conflicts.ConflictingEventsCount | web/app.js:1737-1750 | event k is listed once for an earlier event of its slot with its professor, once for one with its group, and twice when both exist |
| SoftConflicts.GapsZeroIffInterval | web/app.js:1822-1827 | a sorted hour list has no gap exactly when it is an unbroken run of periods |
| SoftConflicts.SoftCountZeroIff | web/app.js:1817-1829 | `blandos` is 0 exactly when no listed group has an idle period between two classes of one day |
| Detection.DupEntriesCount | sistema_horarios.py:357-404 | each resource pass reports one entry per repeated key: k − 1 entries for a key held k times |
| Detection.DupEntriesPairing | sistema_horarios.py:362-368 | every entry pairs the first earlier holder of the key with the clashing event, in that order |
| Detection.DetectionAgreesOnGrid | sistema_horarios.py:356-386 | on the grid, the professor and group passes report exactly as many clashes as the web client and the server count |
| Detection.DetectionCollidesOffGrid | sistema_horarios.py:359 | off the grid the slot id is ambiguous: one professor at (0, 14) and (1, 0) is reported as a clash though the slots differ |
| Detection.RoomlessNeverClash | sistema_horarios.py:389-392 | the room pass never reports events without a room |
| Detection.FindProfesor | sistema_horarios.py:411 | the professor lookup fails exactly when no professor has the id, and otherwise yields the first |
| Detection.PreferenceEntriesExact | sistema_horarios.py:409-420 | an event gets a soft entry of weight 15 exactly when its known professor does not want its slot id |
| Detection.DetectarConflictosShape | sistema_horarios.py:349-422 | the report lists professor, then group, then room clashes, then preference entries; its length is the sum of the three repeat counts and the preference entries |
| Occupancy.FirstFree | api_server.py:336-348 | the first day-major slot in the hour window that is free for the group (and for the professor when that is checked), or none exactly when no slot of the window is free |
| Occupancy.FreeSlotExists | api_server.py:351-363 | a group that holds fewer than 70 slots of the grid leaves some slot free |
| Fallback.HasDashThree | api_server.py:325 | true exactly when the name contains `-3` |
| Fallback.FindGrupo | api_server.py:321-323 | the group lookup fails exactly when no group has the id, and otherwise yields the first |
| Fallback.EsVespertino | api_server.py:320-325 | true exactly when the first group with the id is named `ITI 1-1` or `ITI 8-2`, or its name contains `-3`; false for an unknown id |
| Fallback.ShiftWindow | api_server.py:333-334 | periods 7 to 13 in the evening and 0 to 7 in the morning, always on the grid |
| Fallback.FallbackQuality | api_server.py:380 | 100 with no conflicts, otherwise max(0, 100 − 10·conflicts); always in [0, 100] |
| Fallback.QualityRulesDiffer | api_server.py:380 | one to nine conflicts rate above 0 here and exactly 0 under `calcular_calidad` |
| Fallback.PlaceEvent | api_server.py:336-363 | the shift window first, checking group and professor; the whole grid second, checking the group only; unplaced only when both fail |
| Fallback.OptimizarPython | api_server.py:310-387 | only slots change; each event's slot is the first-fit decision against the grid built by the earlier events; no two placed events share a group and slot; every event of a group with at most 70 events is placed; the hard count is the reference count and is 0 exactly when clash-free; soft penalty 0 and the fallback quality |
| Fallback.GroupsNeverShareSlot | api_server.py:351-363 | no two placed events of one group share a slot |
| Fallback.SmallGroupsPlaced | api_server.py:351-363 | every event of a group with at most 70 events gets a slot |
| Fallback.HardCount | api_server.py:366-378 | the Python count equals the reference count and is 0 exactly when clash-free |
| Constructive.MaxPerDay | web/app.js:1575 | 1 hour per day for subjects of up to 3 hours, otherwise 2 |
| Constructive.FillDay | web/app.js:1584-1599 | one day of phase 1 takes, in increasing hour order, only window hours free for group and professor, at most `need` and the day cap; every hour of the day before the last one taken is no longer free afterwards (first fit); stopping short of both bounds means no window hour is left free that day |
| Constructive.SpreadOverDays | web/app.js:1579-1601 | phase 1 places at most n hours, all inside the window, on free slots, in at most 3 cycles, and at most the per-day cap per (cycle, day); when it places fewer than n, every (cycle, day) either reached the cap or left no window hour of that day free for group and professor |
| Constructive.ExpandRange | web/app.js:1604-1623 | phase 2 scans days in order and hours in order within a day, placing only on free grid slots: the hours it takes are in strictly increasing (day, hour) order, every grid slot before the last one taken is no longer free afterwards (first fit), and stopping short means no grid slot is free for group and professor |
| Constructive.PlaceSubject | web/app.js:1567-1623 | phases 1 and 2 together: window hours come first within the cap; when fewer than n window hours were placed, every (cycle, day) of phase 1 reached the cap or left no window hour free; the hours phase 2 adds are in increasing (day, hour) order and leave no free grid slot before the last of them (first fit); falling short overall means the whole grid is taken for the group or the professor |
| Constructive.GroupEvents | web/app.js:1539 | exactly the positions of the group's events, in ascending list order |
| Constructive.PlaceBucket | web/app.js:1568-1627 | one subject of a group: only its events change, the occupancy only grows, no event becomes forced, and an event of it left unplaced is stuck: no grid slot is free both for its group and for the professor of the subject's first event |
| Constructive.PlaceGroup | web/app.js:1543-1628 | one group: only the group's events change, the occupancy only grows, no event becomes forced, and every event of the group left unplaced is stuck |
| Constructive.ServerOneProfessorPerCourse | api_server.py:80-103 | with one entry per group key and per subject key, the server's events give every group and subject one professor |
| Constructive.WebOneProfessorPerCourse | web/app.js:1460-1491 | with a loaded table of that shape, the web client's events give every group and subject one professor |
| Constructive.FallbackOneProfessorPerCourse | web/app.js:1493-1512 | without a table, and with distinct group and subject ids, the rotation gives every group and subject one professor |
| Constructive.SistemaOneProfessorPerCourse | sistema_horarios.py:248-278 | with one entry per subject in each group's table, the Python system's events give every group and subject one professor |
| Constructive.ConstruirHorario | web/app.js:1530-1652 | only slots change; placed events are on the grid and in their shift window when placed by phase 1; forced events were unassigned; no two placed events of a group share a slot; with one professor per course, among events placed by phases 1 and 2 no professor is placed twice in a slot (step 4 checks only the group); an event forced by step 4 of a listed group had no slot free for its group and its subject's first professor after phases 1 and 2; an event left unplaced has a group that fills the whole grid |
| Tabu.Push | web/app.js:1692-1693 | the key goes to the end; the list never grows past 30 and drops its oldest key when full |
| Tabu.PushNoDups | web/app.js:1692 | pushing a key that is not in the list keeps the list free of duplicates |
| Tabu.PushAllWindow | web/app.js:1655-1656 | starting empty, the list is always the last (at most) 30 keys pushed, oldest first |
| Repair.ScanSlots | web/app.js:1673-1687 | the best slot is the first in scan order with the strictly smallest total count among the non-tabu slots; none exactly when every move is tabu; the event is left at the last non-tabu slot tried |
| Repair.OriginCountBound | web/app.js:1689 | the origin slot's count, evaluated with the event still away, never exceeds the total count |
| Repair.RepairStep | web/app.js:1666-1697 | a move is kept exactly when a non-tabu slot was found whose total beats the origin's count; a kept move strictly lowers the total and pushes its key; otherwise nothing changes |
| Repair.BuscarTabu | web/app.js:1655-1698 | only slots change, moved events stay on the grid, at most 300 rounds, stopping early only when clash-free; the total drops by at least one per kept move; the tabu list holds at most 30 distinct grid keys |
| Compaction.DayItems | web/app.js:1764-1765 | the group's events of the day, exactly and each once, sorted by hour, with events of equal hour in list order (the sort is stable) |
| Compaction.Run | web/app.js:1770-1786 | compaction facts for the run; nothing outside the items changes; with distinct items, the i-th item moves only to hour h + i of its day, and it does move there whenever, in the timetable before the run, its hour differs from h + i and its professor has no other event at h + i (the corrected run also needs h + i on the grid and no other event of its group there) |
| Compaction.Day | web/app.js:1762-1787 | fewer than two events of the day leave everything unchanged; otherwise, with h the first event's hour, the i-th event in hour order moves only to hour h + i, and it does move there whenever, before the pass, that hour differs from its own and holds no other event of its professor (and, corrected, is on the grid and holds no other event of its group); no other event changes |
| Compaction.Step | web/app.js:1775-1784 | the event moves exactly when the target hour differs from its own and no other event of its professor sits there (the corrected step also needs the hour on the grid and no other event of its group there); it moves only within its day |
| Compaction.CompactarHorarios | web/app.js:1757-1789 | only hours change; only events of listed groups on the five days move; with unique ids no professor repeat is added |
| Compaction.CompactarLeavesGrid | web/app.js:1770-1786 | two events of one group at period 13: the second is moved to period 14, off the grid |
| Compaction.CompactarAddsClash | web/app.js:1775-1784 | a clash-free timetable in which compaction moves an event onto another event of its group, so the hard count rises |
| Compaction.CompactarCorregido | web/app.js:1757-1789 | as `CompactarHorarios`, and moved events stay on the grid and, with unique ids, the hard count never rises |
| Pipeline.Construct | web/app.js:1527-1698 | steps 1 to 5: only slots change, each to a grid slot; at most 300 repair rounds; stopping before 300 rounds means clash-free |
| Pipeline.OptimizarEventos | web/app.js:1527-1705 | as written: before compaction only slots change, each to a grid slot; compaction changes only hours of listed groups on the five days; at most 300 repair rounds; the final count is the reference count and 0 exactly when clash-free; stopping before 300 rounds means clash-free before compaction, and with unique ids also free of professor clashes after it |
| Pipeline.OptimizarEventosCorregido | web/app.js:1527-1705 | with the corrected compaction: only slots change, each to a grid slot; with unique ids, stopping before 300 rounds means 0 hard conflicts |
| CoSlotGraph.FindSubject | Horarios/src/GraphSection.tsx:41 | the subject lookup fails exactly when no subject has the id, and otherwise yields the first |
| CoSlotGraph.TsNodes | Horarios/src/GraphSection.tsx:40-55 | each node copies the first subject record with its id |
| CoSlotGraph.TsNodeIds | Horarios/src/GraphSection.tsx:40-55 | the nodes are the known subject ids, each once, in order of first appearance |
| CoSlotGraph.TsGraph | Horarios/src/GraphSection.tsx:35-80 | edges number the same-slot pairs of classes: k(k−1)/2 per slot of k classes |
| CoSlotGraph.TsGraphEdges | Horarios/src/GraphSection.tsx:58-77 | an edge a→b exists exactly when a class of a comes before a class of b at the same day and hour, known subject or not |
| CoSlotGraph.TsSelfEdge | Horarios/src/GraphSection.tsx:68-77 | a subject twice in one slot gets an edge to itself |
| CoSlotGraph.TsDuplicateEdges | Horarios/src/GraphSection.tsx:68-77 | two subjects that meet at two slots are joined by two identical edges |
| CoSlotGraph.CoSlotEdgesMembers | Horarios/src/GraphSection.tsx:58-77 | an edge joins a and b exactly when a same-key entry of a precedes one of b |
| CoSlotGraph.JsNodeLoop | UTP-Cython/static/js/main.js:45-65 | the colour index counts the nodes made; node k has colour `colors[k mod 8]`, its id and name are the subject name, never empty |
| CoSlotGraph.JsNodeIds | UTP-Cython/static/js/main.js:49-65 | the nodes are the truthy `materia \|\| subject` names, each once, in order of first appearance |
| CoSlotGraph.JsGraph | UTP-Cython/static/js/main.js:24-96 | an empty list gives no nodes and no edges; never more nodes than rows; k(k−1)/2 edges per key of k rows |
| CoSlotGraph.JsGraphEdges | UTP-Cython/static/js/main.js:67-91 | an edge a→b exists exactly when a row of a precedes a row of b with the same key, rows without a name included |
| CoSlotGraph.JsKeySpanishInjective | UTP-Cython/static/js/main.js:70-73 | rows with only Spanish fields land in the same bucket exactly when their day and hour agree |
| CoSlotGraph.JsKeyZeroIsMissing | UTP-Cython/static/js/main.js:70-73 | `dia \|\| day` turns day 0 into a missing day, so a Monday row shares the bucket of a row without a day |

## Left out

- `optimizar_con_tabu` in sistema_horarios.py and the `BusquedaTabu` calls in api_server.py wrap a compiled module whose source is not part of this model.
- `GrafoConflictos` and `ListaTabu` in include/estructuras.h are declared only; their bodies are not part of this model. The tabu list follows web/app.js instead.
- Flask routes, server state, threads, CSV/JSON loading and saving, the HTML report, the DOM, fetch, alerts and exports are I/O. The stored `horarios` list of main.js is a parameter instead of `localStorage`.
- The force-directed layout and canvas drawing are left out, and so are a node's `x`, `y`, `vx` and `vy`. They are random and floating-point.
- Random choices (`np.random.randint`, `Math.random`) are parameters: `draw` for slots, `pick` for the repair loop's event. No distribution is modelled.
- `calcular_calidad` computes in `double`. `Domain.Quality` and `Fallback.FallbackQuality` use exact reals, so rounding is not modelled.
- Generation.GenerarEventosInicialesJs: requires a loaded table or at least one professor. With neither, the source computes professor ids as `x % 0`, which is `NaN`, and NaN is not modelled.
- Constructive.ConstruirHorario: professors are proved never to be placed twice in one slot only among events placed by phases 1 and 2, and only when each course has one professor. Phases 1 and 2 record the professor of a subject's first event for all of that subject's events, and step 4 checks only the group (web/app.js:1642).
- Constructive.SpreadOverDays: the first-fit choice within a day is stated on FillDay; the phase as a whole promises only the cap-or-full condition per (cycle, day), not which hours were taken.
- Detection.DetectarConflictosShape: the `descripcion` and `tiempo` texts of each entry are not modelled. The source indexes `DIAS_SEMANA` (5 names) and `HORAS_INICIO` (15 times) with the slot, so an entry for an event with a day outside −5..4 or an hour outside −15..14 raises `IndexError`, and negative indices wrap to the end of the list; the model reports such entries instead of failing.
- Generation.JsKeyOrder: takes every non-negative integer key as an array index. JavaScript treats only canonical integer strings below 2^32 − 1 as array indices, so a larger id would be ordered with the string keys, in insertion order; that case is not modelled.
- JavaScript `null` and `undefined` are both a missing field (`None`) in main.js rows.
- main.js edges join rows with a missing subject name under `undefined`. This is modelled as the `None` endpoint, not as the string "undefined".
- Horarios/src/types.ts is not part of this model. A schedule's `day` and `hour` are taken as integers and `subjectId` as a string.
- Generation.HoursOf and the generators take a subject's `horas_semanales` as an integer. Non-numeric JSON values are not modelled.

## Findings

| source | as written | input that shows it | evidently intended | confidence | as-written member | corrected member |
|---|---|---|---|---|---|---|
| web/app.js:1770-1786 | the next hour `horaActual` grows by one per event of the day with no bound, so an event can be moved past the last period | two events of one group on Monday at period 13: the second is moved to period 14, which is not on the grid | move only to periods 0–13 | not executed | Compaction.CompactarLeavesGrid | Compaction.CompactarCorregido |
| web/app.js:1775-1784 | the move checks only that the professor is free at the target hour, not the group | group 1 at Monday periods 0, 2 and 3 (professors 1, 2, 3) and group 2 at period 1 with professor 2: the clash-free timetable gets a group clash at period 2 | move only where neither professor nor group has another event, so compaction never adds a hard conflict | not executed | Compaction.CompactarAddsClash | Compaction.CompactarCorregido |

`Pipeline.OptimizarEventos` runs the pass as written and promises no group-clash freedom after it; `Pipeline.OptimizarEventosCorregido` runs the corrected pass.
