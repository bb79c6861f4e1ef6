# Curriculum map engine, modelled in Dafny

This project models the engine behind an interactive map of a data-engineering degree. The source is a TypeScript web app. The course table `Materias` has 46 courses over eight semesters, including six elective *slots*, `OPT1`..`OPT6`. The elective catalog `Electivas` has twelve electives, and `semestreColors` is the semester palette. Both live in `shared/schema.ts`. The engine functions in `client/src/lib/curriculumUtils.ts` do the following:

- lay the courses out as graph nodes on a semester grid, and draw prerequisite edges, including edges into slots that hold an elective (`buildCurriculumGraph`);
- describe a selected course for the detail panel (`getCourseDetails`);
- list its direct prerequisites and the courses it directly unlocks (`getCourseDependencies`);
- offer the electives for a slot, each marked available or not, sorted by code (`getElectiveOptions`);
- resolve highlight sets for a code (`getHighlightedCourses`).

The page `client/src/pages/curriculum-map.tsx` keeps two pieces of state: the selected course and the elective assignment of each slot. It derives the highlights, the graph, the detail panel and the toolbar's slot list from them.

Modules, one file each:

| file | module | models |
|---|---|---|
| `wrappers.dfy` | `Wrappers` | `Option`; `Result`, whose `TypeError` stands for a property read on `undefined` |
| `records.dfy` | `Records` | JS objects as `Record` (keys in insertion order plus a map); `Array.from(new Set(..))` as `Dedup` |
| `strings.dfy` | `Strings` | `startsWith`; the code-point order `localeCompare` sorts by |
| `schema.dfy` | `Schema` | the three tables, written out, and the facts about them the engine relies on |
| `selection.dfy` | `Selection` | `selectedElectives`, read for truthiness and searched with `find` |
| `graph.dfy` | `CurriculumGraph` | `buildCurriculumGraph` |
| `details.dfy` | `CourseDetails` | `getCourseDetails` |
| `dependencies.dfy` | `CourseDependencies` | `getCourseDependencies` |
| `electives.dfy` | `ElectiveOptions` | `getElectiveOptions` |
| `highlights.dfy` | `HighlightResolver` | `getHighlightedCourses` |
| `curriculum_map.dfy` | `CurriculumMap` | the page as the class `CurriculumMapPage` |

Every engine operation takes the tables as one `Catalog` value, so the properties hold for any well-formed table. Facts about the real tables are stated about the constant `Schema.Curriculum`.

Each imperative function becomes a `method` with its loops. The method is proved equal to a specification function. Two examples: `BuildCurriculumGraph` returns `GraphOf`, and `GetCourseDependencies` returns `Dedup` of `UnlockList`. Lemmas about those functions state what the source promises.

How source behaviours are modelled:

- **Throws.** A read that throws in the source returns `TypeError`. There are two kinds of such read, in four places:
  - the name of an assigned code that is not an elective: in the graph's node display (`curriculumUtils.ts` line 72) and in the course details (line 185);
  - the semester of a slot that is not a course: in the course details (line 186) and in the elective options (line 246).
- **Record iteration.** `Object.entries` visits string keys in insertion order.
- **Integer keys.** `coursesBySemester` has integer keys, which `Object.entries` visits in ascending order. The model takes the least remaining semester on each pass.

Proved consequences for the real tables:

- course edges always point to a later semester;
- no course can reach itself through prerequisites;
- every semester has a colour;
- a slot never lists a prerequisite.

One consequence concerns the page's `finalEnabled` filter (lines 59-69). In the real curriculum it never removes anything while every key of the selection is a slot code: a slot shows up among the unlocks only when it holds an elective (`FilterKeepsUnlocks`). The page keeps that condition, stated as `CurriculumMapPage.SlotKeyed`: it starts keyed by the six slots, and a change to a slot code keeps it. The toolbar only changes the slots the page lists, but `handleElectiveChange` itself accepts any key, so the condition is stated, not assumed.

Three behaviours of the code that are easy to misread, and which the model follows as written:

- `getElectiveOptions` treats a slot as taken elsewhere on `!== null`, so an empty string counts as held.
- Prerequisites listed by an elective that are not courses (`PIS`, listed by `VCO` and `ROB`) count as semester 0 and never block.
- The page does not call `getHighlightedCourses`. It builds its own highlight sets, and the two are modelled separately (`HighlightResolver.Resolved` against `CurriculumMap.PageHighlights`).

## Model

| member | source | states |
|---|---|---|
| Records.Record.Set | client/src/pages/curriculum-map.tsx:124-127 | `{...prev, [slot]: code}`: the key now holds the new value, every other key reads as before, an existing key keeps its place and a new one goes last, and the record stays well formed |
| Records.Dedup | client/src/lib/curriculumUtils.ts:237-238 | definition: walks the list and keeps each element the first time it is seen |
| Records.DedupElements | client/src/lib/curriculumUtils.ts:237-238 | `Array.from(new Set(xs))` has no duplicates and holds exactly the elements of `xs` |
| Records.DedupFirstSeen | client/src/lib/curriculumUtils.ts:237-238 | the deduplicated list keeps elements in the order of their first occurrence |
| Records.DedupOfNoDup | client/src/lib/curriculumUtils.ts:237-238 | deduplicating a list without duplicates changes nothing |
| Strings.LexLessIrreflexive | client/src/lib/curriculumUtils.ts:279 | no code sorts before itself |
| Strings.LexLessTransitive | client/src/lib/curriculumUtils.ts:279 | the code order is transitive |
| Strings.LexLessTotal | client/src/lib/curriculumUtils.ts:279 | of two different codes one sorts first |
| Schema.SlotSpelling | client/src/lib/curriculumUtils.ts:68 | `startsWith('OPT')` means the first three characters are O, P, T |
| Schema.MateriasLayout | shared/schema.ts:43-97 | the course table is a well-formed record and holds every semester group's rows unchanged |
| Schema.ElectivasValid | shared/schema.ts:99-112 | the elective table is a well-formed record with twelve distinct codes |
| Schema.CurriculumValid | shared/schema.ts:43-112 | both tables are well formed |
| Schema.SemestersHaveColors | shared/schema.ts:20-29 | every course's semester is one of 1..8 and has a palette colour |
| Schema.PrerequisitesEarlier | shared/schema.ts:43-97 | every prerequisite of a course is a course of a strictly earlier semester |
| Schema.ChainDescends | shared/schema.ts:43-97 | along a chain of prerequisite links the semester drops by at least one per link |
| Schema.NoPrerequisiteCycle | shared/schema.ts:43-97 | no course is, directly or through others, its own prerequisite |
| Schema.SlotsAreOpt | shared/schema.ts:74-94 | the courses whose code starts with `OPT` are exactly the six slots |
| Schema.SlotCodesPresent | shared/schema.ts:74-94 | each of `OPT1`..`OPT6` is a course and a slot |
| Schema.EarlySlotEntries | shared/schema.ts:74-86 | the rows of OPT1, OPT2 and OPT3: name, 8 credits, semesters 5, 6, 7, no prerequisites |
| Schema.LateSlotEntries | shared/schema.ts:87-94 | the rows of OPT4, OPT5 and OPT6: name, 8 credits, semesters 7, 8, 8, no prerequisites |
| Schema.SlotsHaveNoPrerequisites | shared/schema.ts:74-94 | no slot lists a prerequisite |
| Schema.ElectivePrerequisites | shared/schema.ts:99-112 | electives' prerequisites are courses except `PIS`, which only VCO and ROB list and which is an elective, not a course |
| Schema.CodesDisjoint | shared/schema.ts:43-112 | no code is both a course and an elective |
| Selection.Assigned | client/src/lib/curriculumUtils.ts:69-70 | definition: the selection's value for a code when the key is present and holds a non-empty code, else nothing (the truthiness reads at lines 70, 181 and 211) |
| Selection.FirstSlotHolding | client/src/lib/curriculumUtils.ts:227-229 | `find` returns a key holding exactly the elective with no earlier key holding it, or nothing when no key holds it |
| CurriculumGraph.Min | client/src/lib/curriculumUtils.ts:56 | the next semester visited is the least remaining one |
| CurriculumGraph.OrderIsPermutation | client/src/lib/curriculumUtils.ts:56-101 | the layout order lists every course exactly once |
| CurriculumGraph.OrderSorted | client/src/lib/curriculumUtils.ts:56-101 | the layout order runs by ascending semester and, within a semester, in table order |
| CurriculumGraph.ColumnElements | client/src/lib/curriculumUtils.ts:48-54 | a semester's bucket holds exactly the courses of that semester |
| CurriculumGraph.ColumnRank | client/src/lib/curriculumUtils.ts:60-62 | the `index` a code receives in its bucket is the number of same-semester courses before it in the table |
| CurriculumGraph.ColumnInOrder | client/src/lib/curriculumUtils.ts:48-54 | a semester's bucket keeps the courses of that semester in table order |
| CurriculumGraph.BucketBySemester | client/src/lib/curriculumUtils.ts:48-54 | `coursesBySemester` has one bucket per semester in use, holding that semester's courses in table order |
| CurriculumGraph.LayOutColumn | client/src/lib/curriculumUtils.ts:60-100 | a bucket's `index`-th code becomes the node in row `index`; fails exactly when some code's display throws |
| CurriculumGraph.LayOutNodes | client/src/lib/curriculumUtils.ts:56-101 | the nodes are one per course in layout order, or the TypeError of an assigned non-elective |
| CurriculumGraph.FindNode | client/src/lib/curriculumUtils.ts:105-106 | `nodes.find` returns a node with that id, and finds nothing exactly when none has it |
| CurriculumGraph.AddEdgesInto | client/src/lib/curriculumUtils.ts:104-133 | the edges pushed into one target: one per listed source that has a node, when the target has one |
| CurriculumGraph.AddCourseEdges | client/src/lib/curriculumUtils.ts:103-134 | the prerequisite edges of all courses, target by target |
| CurriculumGraph.AddElectiveEdges | client/src/lib/curriculumUtils.ts:136-172 | the edges from the prerequisites of each slot's truthy elective into the slot |
| CurriculumGraph.Display | client/src/lib/curriculumUtils.ts:64-75 | definition: a slot with a truthy assignment shows the elective's code and name, and throws when it is no elective; any other course shows its own |
| CurriculumGraph.GraphOf | client/src/lib/curriculumUtils.ts:38-175 | definition: the nodes in layout order, then the course edges target by target, then the elective edges slot by slot |
| CurriculumGraph.BuildCurriculumGraph | client/src/lib/curriculumUtils.ts:38-175 | fails exactly when some course's display throws, and otherwise returns the graph `GraphOf` |
| CurriculumGraph.NodesOnePerCourse | client/src/lib/curriculumUtils.ts:56-101 | node ids are exactly the course codes, each once |
| CurriculumGraph.NodesInLayoutOrder | client/src/lib/curriculumUtils.ts:56-60 | nodes come by ascending semester, then in table order |
| CurriculumGraph.NodePlacement | client/src/lib/curriculumUtils.ts:57-62 | `x` is the semester's column and `y` the row of the course in its bucket; semester, credits and colour come from the course |
| CurriculumGraph.NodesDoNotOverlap | client/src/lib/curriculumUtils.ts:57-62 | no two nodes share a position |
| CurriculumGraph.NodeDisplay | client/src/lib/curriculumUtils.ts:64-75 | a node shows the assigned elective's code and name exactly when it is a slot with a truthy assignment, its own otherwise |
| CurriculumGraph.NodeHighlight | client/src/lib/curriculumUtils.ts:77-96 | highlighted exactly when in the highlighted set; blue exactly for prerequisites, green exactly for enabled non-prerequisites, no colour otherwise |
| CurriculumGraph.EdgeStyle | client/src/lib/curriculumUtils.ts:109-131 | width 3 and the highlighted class exactly when both ends are highlighted; blue, green or gray by the prerequisite and enabled rules; id `source-target` |
| CurriculumGraph.EdgesIntoMembers | client/src/lib/curriculumUtils.ts:104-108 | the edges into a target are exactly those from its listed sources that are courses |
| CurriculumGraph.CourseEdgesMembers | client/src/lib/curriculumUtils.ts:103-134 | a course edge p→t exists exactly when t is a course listing p and p is a course |
| CurriculumGraph.ElectiveEdgesMembers | client/src/lib/curriculumUtils.ts:136-172 | an elective edge p→s exists exactly when slot s holds a truthy elective listing p and p is a course |
| CurriculumGraph.EdgesJoinNodes | client/src/lib/curriculumUtils.ts:105-108 | every edge joins two nodes of the graph |
| CurriculumGraph.CourseEdgesPointRight | client/src/lib/curriculumUtils.ts:103-134 | in the curriculum each course edge runs from an earlier semester to a later one |
| CourseDetails.GetCourseDetails | client/src/lib/curriculumUtils.ts:177-201 | throws exactly for a slot with a truthy assignment whose elective or slot row is missing, `null` exactly for a code with no course, otherwise the course's semester, credits and colour |
| CourseDetails.DetailsMatchNode | client/src/lib/curriculumUtils.ts:181-196 | the panel fails exactly when the node's display does, and shows the node's code and name |
| CourseDetails.CurriculumDetailsColored | client/src/lib/curriculumUtils.ts:199 | in the curriculum every panel has its semester's colour |
| CourseDetails.CurriculumDetailsFail | client/src/lib/curriculumUtils.ts:181-183 | in the curriculum a course's panel fails exactly when it is a slot holding a truthy non-elective code |
| CourseDependencies.PushCourseUnlocks | client/src/lib/curriculumUtils.ts:219-223 | appends the unlocked courses in table order |
| CourseDependencies.PushSlotUnlocks | client/src/lib/curriculumUtils.ts:225-234 | appends the slot holding each elective that lists the code |
| CourseDependencies.GetCourseDependencies | client/src/lib/curriculumUtils.ts:203-240 | the deduplicated prerequisite and unlock lists |
| CourseDependencies.CourseUnlocksMembers | client/src/lib/curriculumUtils.ts:219-223 | the courses unlocked are exactly the courses whose prerequisites name the code or its actual code |
| CourseDependencies.SlotUnlocksMembers | client/src/lib/curriculumUtils.ts:225-234 | the slots unlocked are exactly the truthy first holders of electives naming the code |
| CourseDependencies.HoldingSlotHolds | client/src/lib/curriculumUtils.ts:227-231 | the slot found holds the elective and no earlier slot does |
| CourseDependencies.DependenciesNoDup | client/src/lib/curriculumUtils.ts:236-239 | both returned lists are free of duplicates |
| CourseDependencies.PrerequisitesMembers | client/src/lib/curriculumUtils.ts:207-217 | prerequisites are exactly the course's own plus those of the elective its slot holds, in first-seen order |
| CourseDependencies.UnlocksMembers | client/src/lib/curriculumUtils.ts:219-234 | unlocks are exactly the direct unlocks, one hop, courses and holding slots |
| CourseDependencies.UnassignedElectivesUnlockNothing | client/src/lib/curriculumUtils.ts:225-234 | an unlock that is not a course is a slot currently holding an elective that names the code |
| ElectiveOptions.CollectHeldElsewhere | client/src/lib/curriculumUtils.ts:253-259 | the set of non-null codes held by the other slots |
| ElectiveOptions.PrerequisiteSemester | client/src/lib/curriculumUtils.ts:264 | definition: the prerequisite's semester, or 0 when it is not a course |
| ElectiveOptions.HeldElsewhere | client/src/lib/curriculumUtils.ts:254-259 | definition: the non-null values of the selection's other keys |
| ElectiveOptions.OptionFor | client/src/lib/curriculumUtils.ts:261-276 | definition: an elective's entry, available when its prerequisites are all of earlier semesters and no other slot holds it |
| ElectiveOptions.Insert | client/src/lib/curriculumUtils.ts:279 | definition: places an entry in front of the first entry whose code sorts after its own |
| ElectiveOptions.SortByCode | client/src/lib/curriculumUtils.ts:279 | definition: a stable insertion sort by code, inserting the entries in list order |
| ElectiveOptions.GetElectiveOptions | client/src/lib/curriculumUtils.ts:242-280 | throws exactly when the slot is not a course; otherwise the per-elective entries sorted by code |
| ElectiveOptions.InsertElements | client/src/lib/curriculumUtils.ts:279 | insertion adds exactly the one entry |
| ElectiveOptions.InsertSorted | client/src/lib/curriculumUtils.ts:279 | insertion keeps a sorted list sorted |
| ElectiveOptions.SortByCodeSorted | client/src/lib/curriculumUtils.ts:279 | the sort returns a sorted permutation of its input |
| ElectiveOptions.SortedStrictly | client/src/lib/curriculumUtils.ts:279 | with distinct codes the sorted list is strictly ascending |
| ElectiveOptions.OptionsOfCodes | client/src/lib/curriculumUtils.ts:261-277 | one entry per listed elective, each once, with distinct codes |
| ElectiveOptions.RearrangedDistinct | client/src/lib/curriculumUtils.ts:279 | sorting keeps the codes distinct |
| ElectiveOptions.OptionsPerElective | client/src/lib/curriculumUtils.ts:261-279 | the options are each elective exactly once, with its name and the availability `OptionFor` gives it, in strictly ascending code order |
| ElectiveOptions.AvailableExactly | client/src/lib/curriculumUtils.ts:263-275 | available exactly when every prerequisite comes from an earlier semester (a non-course counting as 0) and no other slot holds the elective |
| ElectiveOptions.HeldElsewhereUnavailable | client/src/lib/curriculumUtils.ts:269-275 | an elective another slot holds is unavailable |
| ElectiveOptions.SameSemesterBlocks | client/src/lib/curriculumUtils.ts:263-266 | a prerequisite from the slot's own or a later semester makes it unavailable |
| ElectiveOptions.PisNeverBlocks | client/src/lib/curriculumUtils.ts:264 | in the curriculum the prerequisites are met exactly when every one other than `PIS` is from an earlier semester |
| HighlightResolver.AddPrerequisites | client/src/lib/curriculumUtils.ts:300-306 | adds exactly the course's listed prerequisites |
| HighlightResolver.AddEnabledCourses | client/src/lib/curriculumUtils.ts:309-314 | adds exactly the courses listing the code |
| HighlightResolver.AddSlots | client/src/lib/curriculumUtils.ts:320-325 | adds every slot course |
| HighlightResolver.Resolved | client/src/lib/curriculumUtils.ts:284-330 | definition: the code with its prerequisites and enabled codes highlighted, its listed prerequisites, and the courses listing it plus every slot when an elective lists it |
| HighlightResolver.GetHighlightedCourses | client/src/lib/curriculumUtils.ts:284-330 | nothing for the empty code, otherwise the resolved three sets |
| HighlightResolver.ResolvedContainsParts | client/src/lib/curriculumUtils.ts:297-327 | the code, its prerequisites and its enabled codes are highlighted, and nothing else is |
| HighlightResolver.PrerequisitesListed | client/src/lib/curriculumUtils.ts:300-306 | the prerequisites are exactly those the course lists |
| HighlightResolver.EnabledExactly | client/src/lib/curriculumUtils.ts:309-327 | enabled codes are courses listing the code, or slots when some elective lists it; one hop only |
| HighlightResolver.AllSlotsEnabled | client/src/lib/curriculumUtils.ts:317-327 | an elective listing the code enables every slot, not only those holding it |
| HighlightResolver.Aa2EnablesEverySlot | client/src/lib/curriculumUtils.ts:317-327 | in the curriculum, `AA2` enables all six slots |
| CurriculumMap.FinalEnabled | client/src/pages/curriculum-map.tsx:59-69 | definition: the unlocks whose code is not a key of the selection holding `null` |
| CurriculumMap.PageHighlights | client/src/pages/curriculum-map.tsx:42-91 | definition: empty sets without a truthy selected course; otherwise the course with its deduplicated prerequisites and filtered unlocks highlighted, and those two as the prerequisite and enabled sets |
| CurriculumMap.AllHighlighted | client/src/pages/curriculum-map.tsx:76-78 | the selected course with its prerequisites and the enabled codes |
| CurriculumMap.CurriculumMapPage.constructor | client/src/pages/curriculum-map.tsx:25-35 | no course is selected, every slot is `null`, and the selection is keyed by slot codes |
| CurriculumMap.CurriculumMapPage.HandleNodeClick | client/src/pages/curriculum-map.tsx:93-95 | the clicked code becomes the selected course; the assignment is kept |
| CurriculumMap.CurriculumMapPage.HandleElectiveChange | client/src/pages/curriculum-map.tsx:123-128 | the slot gets the new code, the rest of the state is kept, the assignment stays well formed, and a change to a slot code keeps it keyed by slot codes |
| CurriculumMap.CurriculumMapPage.CurrentDependencies | client/src/pages/curriculum-map.tsx:37-40 | the selected course's dependencies, or two empty lists |
| CurriculumMap.CurriculumMapPage.CurrentHighlights | client/src/pages/curriculum-map.tsx:42-91 | the page's highlight sets `PageHighlights` |
| CurriculumMap.CurriculumMapPage.CurrentGraph | client/src/pages/curriculum-map.tsx:97-106 | fails exactly when some display throws; otherwise the graph with the page's highlights |
| CurriculumMap.CurriculumMapPage.CurrentDetails | client/src/pages/curriculum-map.tsx:108-111 | the selected course's details, or `null` |
| CurriculumMap.CurriculumMapPage.ElectiveSlots | client/src/pages/curriculum-map.tsx:113-121 | throws exactly when some slot key is not a course; otherwise, per slot in order, its options and current assignment |
| CurriculumMap.InitialSelectionValid | client/src/pages/curriculum-map.tsx:26-35 | the initial assignment is well formed, keyed by the six slots, all `null` and none truthy |
| CurriculumMap.FinalEnabledMembers | client/src/pages/curriculum-map.tsx:59-69 | the filter keeps exactly the unlocks that are not a `null` slot of the selection |
| CurriculumMap.PageHighlightsShape | client/src/pages/curriculum-map.tsx:44-87 | empty without a selection; otherwise the course, its prerequisites and its enabled codes are highlighted |
| CurriculumMap.PageEnabledExactly | client/src/pages/curriculum-map.tsx:59-86 | the enabled codes are exactly the unlocks that are not `null` slots |
| CurriculumMap.FilterKeepsUnlocks | client/src/pages/curriculum-map.tsx:59-69 | in the curriculum, while the selection is keyed by slots, the filter removes no unlock |
| CurriculumMap.InitialGraphRenders | client/src/pages/curriculum-map.tsx:25-35 | the initial page's graph can be drawn |
| CurriculumMap.ChoosingAnOptionKeepsRenderable | client/src/pages/curriculum-map.tsx:113-128 | picking an offered elective for a slot, or clearing it, keeps the graph drawable |

## Left out

- The React rendering is not modelled: the JSX after line 129 of `client/src/pages/curriculum-map.tsx`, `useMemo`/`useCallback` memoisation, `ReactFlow` and the toolbar, panel and node components. The page's derived values are modelled as methods that compute them from the current state.
- Each node's `onClick` closure, the nodes' constant `type: 'courseNode'` and the edges' constant `type: 'bezier'` and `animated: false` fields are not modelled; they carry no logic.
- The `users` table and `insertUserSchema` of `shared/schema.ts` (lines 6-18) are not modelled, since the engine never reads them.
- `localeCompare` is modelled as code-point lexicographic order. Locale collation (accents, case) is out of scope; every elective code is upper-case ASCII.
- `Array.prototype.sort` is modelled as a stable insertion sort. The codes are distinct, so stability never shows.
- Record iteration follows insertion order. That is right for the string keys here (none is an array index); `coursesBySemester`'s integer keys are visited in ascending order.
- Semesters are `nat`, and `semestreColors` is keyed by the number instead of by its decimal text.
- Integers are unbounded. Positions stay far below any JS number limit.
- CurriculumGraph.FindNode: returns the node found, but the source uses only whether one was found, so its contents are not related further.
- CurriculumGraph.BuildCurriculumGraph: requires well-formed records. JS objects cannot have duplicate keys, and `Valid` states exactly that.
