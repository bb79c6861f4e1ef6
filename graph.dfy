/** `buildCurriculumGraph` of client/src/lib/curriculumUtils.ts: the course map as nodes laid out
    on a semester grid and prerequisite edges, with the selected course's neighbourhood coloured. */
module CurriculumGraph {
  import opened Wrappers
  import opened Records
  import opened Schema
  import opened Selection

  const HorizontalSpacing: int := 220
  const VerticalSpacing: int := 140
  const StartX: int := 100
  const StartY: int := 100

  const PrerequisiteBlue: string := "#3b82f6"
  const EnabledGreen: string := "#10b981"
  const EdgeGray: string := "#94a3b8"
  const HighlightedEdgeClass: string := "highlighted-edge"

  /** The three sets the page passes in: what to highlight, which of those are prerequisites of
      the selected course and which it enables. */
  datatype Highlights = Highlights(highlighted: set<string>, prerequisites: set<string>, enabled: set<string>)

  /** A node: `id` is the `Materias` key, `code`/`name` what it shows. `color` is `None` when the
      semester has no palette entry (`undefined`), and so is an absent `highlightColor`. */
  datatype CourseNode = CourseNode(
    id: string, x: int, y: int,
    code: string, name: string, semestre: nat, creditos: int, color: Option<string>,
    isElective: bool, isHighlighted: bool, highlightColor: Option<string>)

  /** An edge from a prerequisite to the course it is required for, with its drawing style. */
  datatype CourseEdge = CourseEdge(id: string, source: string, target: string, stroke: string, strokeWidth: int, className: string)

  datatype Graph = Graph(nodes: seq<CourseNode>, edges: seq<CourseEdge>)

  /** What a node shows instead of its own code and name. */
  datatype Shown = Shown(code: string, name: string, isElective: bool)

  // ----- Layout -----

  /** The codes among `ks` of courses in semester `s`, in the order of `ks`: the bucket
      `coursesBySemester[s]` once `ks` has been visited. */
  function Column(cat: Catalog, ks: seq<string>, s: nat): seq<string> {
    if ks == [] then []
    else
      var k := ks[|ks| - 1];
      Column(cat, ks[..|ks| - 1], s) + if k in cat.materias.values && cat.materias.values[k].semestre == s then [k] else []
  }

  /** The semesters of the courses among `ks`: the keys of `coursesBySemester` once `ks` has been
      visited. */
  function SemestersOf(cat: Catalog, ks: seq<string>): set<nat> {
    set k | k in ks && k in cat.materias.values :: cat.materias.values[k].semestre
  }

  /** The smallest semester of a non-empty set: the next key `Object.entries` visits in a record
      with integer keys, which it visits in ascending order. */
  ghost function Min(S: set<nat>): (m: nat)
    requires S != {}
    ensures m in S && forall t :: t in S ==> m <= t
  {
    var x :| x in S;
    if forall t :: t in S ==> x <= t then x
    else
      var t :| t in S && t < x;
      assert t in S - {x};
      var m := Min(S - {x});
      assert forall u :: u in S ==> u == x || u in S - {x};
      assert m <= t;
      m
  }

  /** The codes of the semesters in `S`, column after column in ascending semester order. */
  ghost function OrderFrom(cat: Catalog, S: set<nat>): seq<string>
    decreases |S|
  {
    if S == {} then []
    else
      var s := Min(S);
      Column(cat, cat.materias.keys, s) + OrderFrom(cat, S - {s})
  }

  /** Laying out the semesters `S` starts with the column of the smallest. */
  lemma OrderFromStep(cat: Catalog, S: set<nat>)
    requires S != {}
    ensures OrderFrom(cat, S) == Column(cat, cat.materias.keys, Min(S)) + OrderFrom(cat, S - {Min(S)})
  {
  }

  /** The order in which `buildCurriculumGraph` emits its nodes. */
  ghost function Order(cat: Catalog): seq<string> {
    OrderFrom(cat, SemestersOf(cat, cat.materias.keys))
  }

  /** How many courses of the same semester come before `k` in table order: its row, `index`. */
  function Rank(cat: Catalog, k: string): nat
    requires k in cat.materias.keys && k in cat.materias.values
  {
    |Column(cat, cat.materias.keys[..IndexOf(cat.materias.keys, k)], cat.materias.values[k].semestre)|
  }

  /** A column holds exactly the listed codes of courses of that semester. */
  lemma {:induction false} ColumnElements(cat: Catalog, ks: seq<string>, s: nat)
    ensures forall k :: k in Column(cat, ks, s) ==> k in ks && k in cat.materias.values && cat.materias.values[k].semestre == s
    ensures forall k :: k in ks && k in cat.materias.values && cat.materias.values[k].semestre == s ==> k in Column(cat, ks, s)
  {
    if ks != [] {
      var init := ks[..|ks| - 1];
      ColumnElements(cat, init, s);
      assert ks == init + [ks[|ks| - 1]];
    }
  }

  /** A column lists its codes in table order, so it repeats none when the table does not. */
  lemma {:induction false} ColumnInOrder(cat: Catalog, ks: seq<string>, s: nat, i: nat, j: nat)
    requires NoDup(ks) && i < j < |Column(cat, ks, s)|
    ensures Column(cat, ks, s)[i] in ks && Column(cat, ks, s)[j] in ks
    ensures IndexOf(ks, Column(cat, ks, s)[i]) < IndexOf(ks, Column(cat, ks, s)[j])
  {
    var n := |ks| - 1;
    var init := ks[..n];
    var c := Column(cat, init, s);
    assert ks == init + [ks[n]];
    ColumnElements(cat, init, s);
    ColumnElements(cat, ks, s);
    if j < |c| {
      ColumnInOrder(cat, init, s, i, j);
      IndexOfAppend(init, ks[n], c[i]);
      IndexOfAppend(init, ks[n], c[j]);
    } else {
      assert c[i] in init;
      assert ks[n] !in init;
      IndexOfAppend(init, ks[n], c[i]);
      IndexOfAppend(init, ks[n], ks[n]);
    }
  }

  lemma ColumnNoDup(cat: Catalog, ks: seq<string>, s: nat)
    requires NoDup(ks)
    ensures NoDup(Column(cat, ks, s))
  {
    var c := Column(cat, ks, s);
    forall i, j | 0 <= i < j < |c|
      ensures c[i] != c[j]
    {
      ColumnInOrder(cat, ks, s, i, j);
    }
  }

  /** The `index` a code gets in its bucket is its rank. */
  lemma {:induction false} ColumnRank(cat: Catalog, ks: seq<string>, s: nat, j: nat)
    requires NoDup(ks) && j < |Column(cat, ks, s)|
    ensures Column(cat, ks, s)[j] in ks
    ensures |Column(cat, ks[..IndexOf(ks, Column(cat, ks, s)[j])], s)| == j
  {
    var n := |ks| - 1;
    var init := ks[..n];
    var c := Column(cat, init, s);
    assert ks == init + [ks[n]];
    ColumnElements(cat, ks, s);
    var k := Column(cat, ks, s)[j];
    if j < |c| {
      ColumnRank(cat, init, s, j);
      ColumnElements(cat, init, s);
      IndexOfAppend(init, ks[n], k);
      assert ks[..IndexOf(ks, k)] == init[..IndexOf(init, k)];
    } else {
      assert k == ks[n] && k !in init;
      IndexOfAppend(init, ks[n], k);
      assert ks[..IndexOf(ks, k)] == init;
    }
  }

  /** The emitted order holds every course of the given semesters once, and nothing else. */
  lemma {:induction false} OrderFromElements(cat: Catalog, S: set<nat>)
    requires NoDup(cat.materias.keys)
    ensures NoDup(OrderFrom(cat, S))
    ensures forall k :: k in OrderFrom(cat, S) ==> k in cat.materias.keys && k in cat.materias.values && cat.materias.values[k].semestre in S
    ensures forall k :: k in cat.materias.keys && k in cat.materias.values && cat.materias.values[k].semestre in S ==> k in OrderFrom(cat, S)
    decreases |S|
  {
    if S != {} {
      var s := Min(S);
      var rest := S - {s};
      OrderFromElements(cat, rest);
      ColumnElements(cat, cat.materias.keys, s);
      ColumnNoDup(cat, cat.materias.keys, s);
      NoDupAppend(Column(cat, cat.materias.keys, s), OrderFrom(cat, rest));
    }
  }

  /** `buildCurriculumGraph` emits exactly one node per course. */
  lemma OrderIsPermutation(cat: Catalog)
    requires cat.Valid()
    ensures NoDup(Order(cat))
    ensures forall k :: k in Order(cat) ==> k in cat.materias.values
    ensures forall k :: k in cat.materias.values ==> k in Order(cat)
  {
    OrderFromElements(cat, SemestersOf(cat, cat.materias.keys));
  }

  /** `a` is laid out before `b`: in an earlier semester, or in the same one and earlier in the
      table. */
  ghost predicate Before(cat: Catalog, a: string, b: string) {
    && a in cat.materias.keys && a in cat.materias.values
    && b in cat.materias.keys && b in cat.materias.values
    && (|| cat.materias.values[a].semestre < cat.materias.values[b].semestre
        || (cat.materias.values[a].semestre == cat.materias.values[b].semestre && IndexOf(cat.materias.keys, a) < IndexOf(cat.materias.keys, b)))
  }

  /** Nodes come in ascending semester order, and within a semester in table order. */
  lemma {:induction false} OrderFromSorted(cat: Catalog, S: set<nat>, i: nat, j: nat)
    requires NoDup(cat.materias.keys) && i < j < |OrderFrom(cat, S)|
    ensures Before(cat, OrderFrom(cat, S)[i], OrderFrom(cat, S)[j])
    decreases |S|
  {
    var s := Min(S);
    var rest := S - {s};
    var c := Column(cat, cat.materias.keys, s);
    assert OrderFrom(cat, S) == c + OrderFrom(cat, rest);
    if j < |c| {
      ColumnElements(cat, cat.materias.keys, s);
      ColumnInOrder(cat, cat.materias.keys, s, i, j);
    } else if i < |c| {
      ColumnBeforeRest(cat, S, i, j - |c|);
    } else {
      OrderFromSorted(cat, rest, i - |c|, j - |c|);
    }
  }

  lemma ColumnBeforeRest(cat: Catalog, S: set<nat>, i: nat, j: nat)
    requires NoDup(cat.materias.keys) && S != {}
    requires i < |Column(cat, cat.materias.keys, Min(S))| && j < |OrderFrom(cat, S - {Min(S)})|
    ensures Before(cat, Column(cat, cat.materias.keys, Min(S))[i], OrderFrom(cat, S - {Min(S)})[j])
  {
    var s := Min(S);
    ColumnElements(cat, cat.materias.keys, s);
    OrderFromElements(cat, S - {s});
    assert Column(cat, cat.materias.keys, s)[i] in Column(cat, cat.materias.keys, s);
    assert OrderFrom(cat, S - {s})[j] in OrderFrom(cat, S - {s});
  }

  /** Nodes come in ascending semester order, and within a semester in table order. */
  lemma OrderSorted(cat: Catalog)
    requires cat.Valid()
    ensures forall i, j :: 0 <= i < j < |Order(cat)| ==> Before(cat, Order(cat)[i], Order(cat)[j])
  {
    forall i, j | 0 <= i < j < |Order(cat)|
      ensures Before(cat, Order(cat)[i], Order(cat)[j])
    {
      OrderFromSorted(cat, SemestersOf(cat, cat.materias.keys), i, j);
    }
  }

  // ----- Nodes -----

  /** What the node of course `code` shows: the assigned elective's code and name when `code` is
      a slot with a truthy assignment, its own otherwise. Reading the name of an assigned code that
      is not an elective is the source's TypeError. */
  function Display(cat: Catalog, sel: Assignment, code: string): Result<Shown>
    requires code in cat.materias.values
  {
    if IsSlot(code) && Assigned(sel, code).Some? then
      var e := Assigned(sel, code).value;
      if e in cat.electivas.values then Ok(Shown(e, cat.electivas.values[e].name, true)) else TypeError
    else Ok(Shown(code, cat.materias.values[code].name, false))
  }

  /** No course's display fails. */
  ghost predicate Renderable(cat: Catalog, sel: Assignment) {
    forall k :: k in cat.materias.values ==> Display(cat, sel, k).Ok?
  }

  /** `semestreColors[semestre]`, `undefined` when absent. */
  function ColorOf(cat: Catalog, s: nat): Option<string> {
    if s in cat.colors then Some(cat.colors[s]) else None
  }

  /** The node of course `code` placed in row `row` of its semester's column. */
  function NodeFor(cat: Catalog, sel: Assignment, hl: Highlights, code: string, row: nat): CourseNode
    requires code in cat.materias.values && Display(cat, sel, code).Ok?
  {
    var course := cat.materias.values[code];
    var shown := Display(cat, sel, code).value;
    CourseNode(code, StartX + (course.semestre - 1) * HorizontalSpacing, StartY + row * VerticalSpacing,
      shown.code, shown.name, course.semestre, course.creditos, ColorOf(cat, course.semestre),
      shown.isElective, code in hl.highlighted,
      if code in hl.prerequisites then Some(PrerequisiteBlue)
      else if code in hl.enabled then Some(EnabledGreen)
      else None)
  }

  /** The nodes `buildCurriculumGraph` returns: one per course, in layout order, each in the row
      given by its rank. */
  ghost function Nodes(cat: Catalog, sel: Assignment, hl: Highlights): seq<CourseNode>
    requires cat.Valid() && Renderable(cat, sel)
  {
    var order := Order(cat);
    OrderIsPermutation(cat);
    seq(|order|, i requires 0 <= i < |order| => NodeFor(cat, sel, hl, order[i], Rank(cat, order[i])))
  }

  // ----- Edges -----

  /** The edge from `source` to `target`: highlighted when both ends are, then blue when either
      end is a prerequisite, else green when the target is enabled, else gray. */
  function EdgeFor(hl: Highlights, source: string, target: string): CourseEdge {
    var isHighlighted := source in hl.highlighted && target in hl.highlighted;
    var stroke :=
      if !isHighlighted then EdgeGray
      else if source in hl.prerequisites || target in hl.prerequisites then PrerequisiteBlue
      else if target in hl.enabled then EnabledGreen
      else EdgeGray;
    CourseEdge(source + "-" + target, source, target, stroke,
      if isHighlighted then 3 else 2, if isHighlighted then HighlightedEdgeClass else "")
  }

  /** The edges into `target` from those of `sources` that have a node, in order; none when
      `target` itself has no node. */
  function EdgesInto(cat: Catalog, hl: Highlights, target: string, sources: seq<string>): seq<CourseEdge> {
    if sources == [] then []
    else
      var source := sources[|sources| - 1];
      EdgesInto(cat, hl, target, sources[..|sources| - 1])
      + if source in cat.materias.values && target in cat.materias.values then [EdgeFor(hl, source, target)] else []
  }

  /** The prerequisite edges of the courses `targets`, target by target. */
  function CourseEdges(cat: Catalog, hl: Highlights, targets: seq<string>): seq<CourseEdge> {
    if targets == [] then []
    else
      var target := targets[|targets| - 1];
      CourseEdges(cat, hl, targets[..|targets| - 1])
      + if target in cat.materias.values then EdgesInto(cat, hl, target, cat.materias.values[target].previas) else []
  }

  /** The edges from the prerequisites of the electives assigned to `slots` into those slots,
      slot by slot. */
  function ElectiveEdges(cat: Catalog, sel: Assignment, hl: Highlights, slots: seq<string>): seq<CourseEdge> {
    if slots == [] then []
    else
      var slot := slots[|slots| - 1];
      ElectiveEdges(cat, sel, hl, slots[..|slots| - 1])
      + match Assigned(sel, slot)
        case Some(e) => if e in cat.electivas.values then EdgesInto(cat, hl, slot, cat.electivas.values[e].previas) else []
        case None => []
  }

  /** The graph `buildCurriculumGraph` returns when no display fails. */
  ghost function GraphOf(cat: Catalog, sel: Assignment, hl: Highlights): Graph
    requires cat.Valid() && Renderable(cat, sel)
  {
    Graph(Nodes(cat, sel, hl), CourseEdges(cat, hl, cat.materias.keys) + ElectiveEdges(cat, sel, hl, sel.keys))
  }

  // ----- buildCurriculumGraph -----

  /** A semester with a non-empty column is the semester of some listed course. */
  lemma ColumnNonEmpty(cat: Catalog, ks: seq<string>, s: nat)
    ensures Column(cat, ks, s) != [] ==> s in SemestersOf(cat, ks)
  {
    if Column(cat, ks, s) != [] {
      ColumnElements(cat, ks, s);
      var k := Column(cat, ks, s)[0];
      assert k in Column(cat, ks, s);
    }
  }

  /** Lines 48-54: `coursesBySemester`, the codes of each semester in table order. */
  method BucketBySemester(cat: Catalog) returns (buckets: map<nat, seq<string>>)
    ensures buckets.Keys == SemestersOf(cat, cat.materias.keys)
    ensures forall s :: s in buckets ==> buckets[s] == Column(cat, cat.materias.keys, s)
  {
    var keys := cat.materias.keys;
    buckets := map[];
    for i := 0 to |keys|
      invariant buckets.Keys == SemestersOf(cat, keys[..i])
      invariant forall s :: s in buckets ==> buckets[s] == Column(cat, keys[..i], s)
    {
      var code := keys[i];
      assert keys[..i + 1] == keys[..i] + [code];
      assert keys[..i + 1][..i] == keys[..i];
      if code in cat.materias.values {
        var s := cat.materias.values[code].semestre;
        if s !in buckets {
          ColumnNonEmpty(cat, keys[..i], s);
          buckets := buckets[s := []];
        }
        buckets := buckets[s := buckets[s] + [code]];
      }
      assert SemestersOf(cat, keys[..i + 1]) == SemestersOf(cat, keys[..i]) + (if code in cat.materias.values then {cat.materias.values[code].semestre} else {});
    }
    assert keys[..|keys|] == keys;
  }

  /** Lines 60-100: the nodes of one semester's bucket `codes`, the `index`-th in row `index`;
      reading the name of an assigned code that is not an elective throws. */
  method LayOutColumn(cat: Catalog, sel: Assignment, hl: Highlights, sem: nat, codes: seq<string>)
    returns (r: Result<seq<CourseNode>>)
    requires forall k :: k in codes ==> k in cat.materias.values && cat.materias.values[k].semestre == sem
    ensures r.TypeError? ==> exists k :: k in codes && Display(cat, sel, k).TypeError?
    ensures r.Ok? ==> forall k :: k in codes ==> Display(cat, sel, k).Ok?
    ensures r.Ok? ==> |r.value| == |codes| && forall i :: 0 <= i < |codes| ==> r.value[i] == NodeFor(cat, sel, hl, codes[i], i)
  {
    var nodes: seq<CourseNode> := [];
    var x := StartX + (sem - 1) * HorizontalSpacing;
    for index := 0 to |codes|
      invariant forall k :: k in codes[..index] ==> Display(cat, sel, k).Ok?
      invariant |nodes| == index && forall i :: 0 <= i < index ==> nodes[i] == NodeFor(cat, sel, hl, codes[i], i)
    {
      var code := codes[index];
      assert code in codes;
      var course := cat.materias.values[code];
      var y := StartY + index * VerticalSpacing;
      var displayCode, displayName, isElective := code, course.name, false;
      if IsSlot(code) {
        var selectedElective := Assigned(sel, code);
        if selectedElective.Some? {
          if selectedElective.value !in cat.electivas.values {
            assert Display(cat, sel, code).TypeError?;
            return TypeError;
          }
          displayCode := selectedElective.value;
          displayName := cat.electivas.values[selectedElective.value].name;
          isElective := true;
        }
      }
      var highlightColor: Option<string> := None;
      if code in hl.prerequisites {
        highlightColor := Some(PrerequisiteBlue);
      } else if code in hl.enabled {
        highlightColor := Some(EnabledGreen);
      }
      nodes := nodes + [CourseNode(code, x, y, displayCode, displayName, course.semestre, course.creditos,
        ColorOf(cat, course.semestre), isElective, code in hl.highlighted, highlightColor)];
      assert codes[..index + 1] == codes[..index] + [code];
    }
    assert codes[..|codes|] == codes;
    return Ok(nodes);
  }

  /** `nodes` are the nodes of the codes `done`, each shown and in its row. */
  ghost predicate LaidOut(cat: Catalog, sel: Assignment, hl: Highlights, done: seq<string>, nodes: seq<CourseNode>) {
    && |nodes| == |done|
    && (forall i :: 0 <= i < |done| ==> done[i] in cat.materias.keys && done[i] in cat.materias.values && Display(cat, sel, done[i]).Ok?)
    && (forall i :: 0 <= i < |done| ==> nodes[i] == NodeFor(cat, sel, hl, done[i], Rank(cat, done[i])))
  }

  /** A laid-out column extends the laid-out prefix. */
  lemma LaidOutColumn(cat: Catalog, sel: Assignment, hl: Highlights, done: seq<string>, nodes: seq<CourseNode>, sem: nat, column: seq<CourseNode>)
    requires NoDup(cat.materias.keys) && LaidOut(cat, sel, hl, done, nodes)
    requires forall k :: k in Column(cat, cat.materias.keys, sem) ==> k in cat.materias.values
    requires forall k :: k in Column(cat, cat.materias.keys, sem) ==> Display(cat, sel, k).Ok?
    requires |column| == |Column(cat, cat.materias.keys, sem)|
    requires forall i :: 0 <= i < |column| ==> column[i] == NodeFor(cat, sel, hl, Column(cat, cat.materias.keys, sem)[i], i)
    ensures LaidOut(cat, sel, hl, done + Column(cat, cat.materias.keys, sem), nodes + column)
  {
    var codes := Column(cat, cat.materias.keys, sem);
    ColumnElements(cat, cat.materias.keys, sem);
    forall i | 0 <= i < |codes|
      ensures codes[i] in cat.materias.keys && Rank(cat, codes[i]) == i
    {
      ColumnRank(cat, cat.materias.keys, sem, i);
    }
    assert forall i :: 0 <= i < |codes| ==> codes[i] in codes;
  }

  /** Nodes laid out for the whole layout order are the graph's nodes. */
  lemma LaidOutIsNodes(cat: Catalog, sel: Assignment, hl: Highlights, nodes: seq<CourseNode>)
    requires cat.Valid() && LaidOut(cat, sel, hl, Order(cat), nodes)
    ensures Renderable(cat, sel) && nodes == Nodes(cat, sel, hl)
  {
    var done := Order(cat);
    OrderIsPermutation(cat);
    forall k | k in cat.materias.values
      ensures Display(cat, sel, k).Ok?
    {
      var i :| 0 <= i < |done| && done[i] == k;
    }
  }

  /** Lines 56-101: the nodes, semester by semester in ascending order and row by row within a
      semester. */
  method LayOutNodes(cat: Catalog, sel: Assignment, hl: Highlights, buckets: map<nat, seq<string>>)
    returns (r: Result<seq<CourseNode>>)
    requires cat.Valid()
    requires buckets.Keys == SemestersOf(cat, cat.materias.keys)
    requires forall s :: s in buckets ==> buckets[s] == Column(cat, cat.materias.keys, s)
    ensures r.TypeError? ==> !Renderable(cat, sel)
    ensures r.Ok? ==> Renderable(cat, sel) && r.value == Nodes(cat, sel, hl)
  {
    var nodes: seq<CourseNode> := [];
    ghost var done: seq<string> := [];
    var remaining := buckets.Keys;
    while remaining != {}
      invariant remaining <= buckets.Keys
      invariant done + OrderFrom(cat, remaining) == Order(cat)
      invariant LaidOut(cat, sel, hl, done, nodes)
      decreases |remaining|
    {
      ghost var least := Min(remaining);
      var sem :| sem in remaining && forall t :: t in remaining ==> sem <= t;
      assert sem == least;
      var codes := buckets[sem];
      ColumnElements(cat, cat.materias.keys, sem);
      var column := LayOutColumn(cat, sel, hl, sem, codes);
      if column.TypeError? {
        return TypeError;
      }
      LaidOutColumn(cat, sel, hl, done, nodes, sem, column.value);
      OrderFromStep(cat, remaining);
      ghost var rest := OrderFrom(cat, remaining - {sem});
      assert OrderFrom(cat, remaining) == codes + rest;
      AppendAssoc(done, codes, rest);
      nodes := nodes + column.value;
      done := done + codes;
      remaining := remaining - {sem};
    }
    assert done == Order(cat);
    LaidOutIsNodes(cat, sel, hl, nodes);
    return Ok(nodes);
  }

  /** Every node is the node of a course, and every course has one. */
  ghost predicate NodeIds(cat: Catalog, nodes: seq<CourseNode>) {
    && (forall i :: 0 <= i < |nodes| ==> nodes[i].id in cat.materias.values)
    && (forall k :: k in cat.materias.values ==> exists i :: 0 <= i < |nodes| && nodes[i].id == k)
  }

  /** `nodes.find((n) => n.id === id)`: the first node with that id, `undefined` when none. */
  method FindNode(nodes: seq<CourseNode>, id: string) returns (found: Option<CourseNode>)
    ensures found.Some? ==> found.value in nodes && found.value.id == id
    ensures found.None? ==> forall i :: 0 <= i < |nodes| ==> nodes[i].id != id
  {
    for i := 0 to |nodes|
      invariant forall j :: 0 <= j < i ==> nodes[j].id != id
    {
      if nodes[i].id == id {
        return Some(nodes[i]);
      }
    }
    return None;
  }

  /** Lines 105-131 and 143-169: for each of `sources`, the edge into `target` when both ends have
      a node. */
  method AddEdgesInto(cat: Catalog, hl: Highlights, nodes: seq<CourseNode>, target: string, sources: seq<string>)
    returns (edges: seq<CourseEdge>)
    requires NodeIds(cat, nodes)
    ensures edges == EdgesInto(cat, hl, target, sources)
  {
    edges := [];
    for j := 0 to |sources|
      invariant edges == EdgesInto(cat, hl, target, sources[..j])
    {
      var source := sources[j];
      assert sources[..j + 1][..j] == sources[..j];
      var sourceNode := FindNode(nodes, source);
      var targetNode := FindNode(nodes, target);
      if sourceNode.Some? && targetNode.Some? {
        var isHighlighted := source in hl.highlighted && target in hl.highlighted;
        var edgeColor := EdgeGray;
        if isHighlighted {
          if source in hl.prerequisites || target in hl.prerequisites {
            edgeColor := PrerequisiteBlue;
          } else if target in hl.enabled {
            edgeColor := EnabledGreen;
          }
        }
        edges := edges + [CourseEdge(source + "-" + target, source, target, edgeColor,
          if isHighlighted then 3 else 2, if isHighlighted then HighlightedEdgeClass else "")];
      } else if source in cat.materias.values && target in cat.materias.values {
        assert false;
      }
    }
    assert sources[..|sources|] == sources;
  }

  /** Lines 103-134: the prerequisite edges of every course, in table order. */
  method AddCourseEdges(cat: Catalog, hl: Highlights, nodes: seq<CourseNode>) returns (edges: seq<CourseEdge>)
    requires cat.Valid() && NodeIds(cat, nodes)
    ensures edges == CourseEdges(cat, hl, cat.materias.keys)
  {
    var keys := cat.materias.keys;
    edges := [];
    for i := 0 to |keys|
      invariant edges == CourseEdges(cat, hl, keys[..i])
    {
      var target := keys[i];
      assert target in cat.materias.values;
      var into := AddEdgesInto(cat, hl, nodes, target, cat.materias.values[target].previas);
      assert keys[..i + 1][..i] == keys[..i];
      assert CourseEdges(cat, hl, keys[..i + 1]) == CourseEdges(cat, hl, keys[..i]) + into;
      edges := edges + into;
    }
    assert keys[..|keys|] == keys;
  }

  /** Lines 136-172: the edges into each slot with a truthy assignment to an elective, from that
      elective's prerequisites. */
  method AddElectiveEdges(cat: Catalog, sel: Assignment, hl: Highlights, nodes: seq<CourseNode>) returns (edges: seq<CourseEdge>)
    requires sel.Valid() && NodeIds(cat, nodes)
    ensures edges == ElectiveEdges(cat, sel, hl, sel.keys)
  {
    edges := [];
    for i := 0 to |sel.keys|
      invariant edges == ElectiveEdges(cat, sel, hl, sel.keys[..i])
    {
      var slot := sel.keys[i];
      assert sel.keys[..i + 1][..i] == sel.keys[..i];
      var electiveCode := sel.values[slot];
      if electiveCode.Some? && electiveCode.value != "" {
        if electiveCode.value in cat.electivas.values {
          var elective := cat.electivas.values[electiveCode.value];
          var into := AddEdgesInto(cat, hl, nodes, slot, elective.previas);
          edges := edges + into;
        }
      }
    }
    assert sel.keys[..|sel.keys|] == sel.keys;
  }

  /** Lines 38-175, `buildCurriculumGraph`: the graph of the course table, or the TypeError thrown
      when a slot is assigned a code that is not an elective. */
  method BuildCurriculumGraph(cat: Catalog, sel: Assignment, hl: Highlights) returns (r: Result<Graph>)
    requires cat.Valid() && sel.Valid()
    ensures r.TypeError? ==> !Renderable(cat, sel)
    ensures r.Ok? ==> Renderable(cat, sel) && r.value == GraphOf(cat, sel, hl)
  {
    var buckets := BucketBySemester(cat);
    var nodes := LayOutNodes(cat, sel, hl, buckets);
    if nodes.TypeError? {
      return TypeError;
    }
    NodesOnePerCourse(cat, sel, hl);
    var courseEdges := AddCourseEdges(cat, hl, nodes.value);
    var electiveEdges := AddElectiveEdges(cat, sel, hl, nodes.value);
    return Ok(Graph(nodes.value, courseEdges + electiveEdges));
  }

  // ----- Properties of the graph -----

  /** A course's row is its position in its semester's column. */
  lemma RankInColumn(cat: Catalog, k: string)
    requires NoDup(cat.materias.keys) && k in cat.materias.keys && k in cat.materias.values
    ensures Rank(cat, k) < |Column(cat, cat.materias.keys, cat.materias.values[k].semestre)|
    ensures Column(cat, cat.materias.keys, cat.materias.values[k].semestre)[Rank(cat, k)] == k
  {
    var c := Column(cat, cat.materias.keys, cat.materias.values[k].semestre);
    ColumnElements(cat, cat.materias.keys, cat.materias.values[k].semestre);
    var j :| 0 <= j < |c| && c[j] == k;
    ColumnRank(cat, cat.materias.keys, cat.materias.values[k].semestre, j);
  }

  /** The `i`-th node is that of the `i`-th code of the layout order, in the row of its rank. */
  lemma NodeAt(cat: Catalog, sel: Assignment, hl: Highlights, i: nat)
    requires cat.Valid() && Renderable(cat, sel) && i < |Order(cat)|
    ensures |Nodes(cat, sel, hl)| == |Order(cat)|
    ensures Order(cat)[i] in cat.materias.keys && Order(cat)[i] in cat.materias.values
    ensures Nodes(cat, sel, hl)[i] == NodeFor(cat, sel, hl, Order(cat)[i], Rank(cat, Order(cat)[i]))
  {
    OrderIsPermutation(cat);
    assert Order(cat)[i] in Order(cat);
  }

  /** There is one node per course: the node ids are the course codes, each once. */
  lemma NodesOnePerCourse(cat: Catalog, sel: Assignment, hl: Highlights)
    requires cat.Valid() && Renderable(cat, sel)
    ensures NodeIds(cat, Nodes(cat, sel, hl))
    ensures forall i, j :: 0 <= i < j < |Nodes(cat, sel, hl)| ==> Nodes(cat, sel, hl)[i].id != Nodes(cat, sel, hl)[j].id
  {
    NodeIdsFollowOrder(cat, sel, hl);
    OrderIsPermutation(cat);
    forall k | k in cat.materias.values
      ensures exists i :: 0 <= i < |Nodes(cat, sel, hl)| && Nodes(cat, sel, hl)[i].id == k
    {
      CourseHasNode(cat, sel, hl, k);
    }
  }

  /** Every course has a node. */
  lemma CourseHasNode(cat: Catalog, sel: Assignment, hl: Highlights, k: string)
    requires cat.Valid() && Renderable(cat, sel) && k in cat.materias.values
    ensures exists i :: 0 <= i < |Nodes(cat, sel, hl)| && Nodes(cat, sel, hl)[i].id == k
  {
    NodeIdsFollowOrder(cat, sel, hl);
    OrderIsPermutation(cat);
    var i :| 0 <= i < |Order(cat)| && Order(cat)[i] == k;
    assert Nodes(cat, sel, hl)[i].id == k;
  }

  /** The `i`-th node's id is the `i`-th code of the layout order. */
  lemma NodeIdsFollowOrder(cat: Catalog, sel: Assignment, hl: Highlights)
    requires cat.Valid() && Renderable(cat, sel)
    ensures |Nodes(cat, sel, hl)| == |Order(cat)|
    ensures forall i :: 0 <= i < |Nodes(cat, sel, hl)| ==> Nodes(cat, sel, hl)[i].id == Order(cat)[i]
  {
    OrderIsPermutation(cat);
    forall i | 0 <= i < |Nodes(cat, sel, hl)|
      ensures Nodes(cat, sel, hl)[i].id == Order(cat)[i]
    {
      NodeAt(cat, sel, hl, i);
    }
  }

  /** Distinct semesters get distinct columns and distinct rows distinct heights. */
  lemma GridDistinct(a: nat, b: nat)
    ensures a != b ==> StartX + (a - 1) * HorizontalSpacing != StartX + (b - 1) * HorizontalSpacing
    ensures a != b ==> StartY + a * VerticalSpacing != StartY + b * VerticalSpacing
  {
  }

  /** Nodes come semester by semester in ascending order, and within a semester in table order. */
  lemma NodesInLayoutOrder(cat: Catalog, sel: Assignment, hl: Highlights, i: nat, j: nat)
    requires cat.Valid() && Renderable(cat, sel) && i < j < |Nodes(cat, sel, hl)|
    ensures Before(cat, Nodes(cat, sel, hl)[i].id, Nodes(cat, sel, hl)[j].id)
  {
    OrderSorted(cat);
  }

  /** A node sits in the column of its semester (`x`) and in the row of its rank among that
      semester's courses (`y`), and shows the course's semester, credits and semester colour. */
  lemma NodePlacement(cat: Catalog, sel: Assignment, hl: Highlights, i: nat)
    requires cat.Valid() && Renderable(cat, sel) && i < |Nodes(cat, sel, hl)|
    ensures var n := Nodes(cat, sel, hl)[i];
      && n.id in cat.materias.values
      && n.semestre == cat.materias.values[n.id].semestre
      && n.creditos == cat.materias.values[n.id].creditos
      && n.color == ColorOf(cat, n.semestre)
      && n.x == StartX + (n.semestre - 1) * HorizontalSpacing
      && exists row :: 0 <= row < |Column(cat, cat.materias.keys, n.semestre)|
           && Column(cat, cat.materias.keys, n.semestre)[row] == n.id
           && n.y == StartY + row * VerticalSpacing
  {
    OrderIsPermutation(cat);
    var k := Order(cat)[i];
    assert k in Order(cat);
    RankInColumn(cat, k);
  }

  /** No two nodes are drawn at the same position. */
  lemma NodesDoNotOverlap(cat: Catalog, sel: Assignment, hl: Highlights, i: nat, j: nat)
    requires cat.Valid() && Renderable(cat, sel) && i < |Nodes(cat, sel, hl)| && j < |Nodes(cat, sel, hl)| && i != j
    ensures Nodes(cat, sel, hl)[i].x != Nodes(cat, sel, hl)[j].x || Nodes(cat, sel, hl)[i].y != Nodes(cat, sel, hl)[j].y
  {
    var order := Order(cat);
    OrderIsPermutation(cat);
    NodeAt(cat, sel, hl, i);
    NodeAt(cat, sel, hl, j);
    var a, b := order[i], order[j];
    assert a != b;
    var sa, sb := cat.materias.values[a].semestre, cat.materias.values[b].semestre;
    GridDistinct(sa, sb);
    if sa == sb {
      RankInColumn(cat, a);
      RankInColumn(cat, b);
      GridDistinct(Rank(cat, a), Rank(cat, b));
    }
  }

  /** A node shows the assigned elective exactly when its course is a slot with a truthy
      assignment; otherwise it shows the course's own code and name. */
  lemma NodeDisplay(cat: Catalog, sel: Assignment, hl: Highlights, i: nat)
    requires cat.Valid() && Renderable(cat, sel) && i < |Nodes(cat, sel, hl)|
    ensures var n := Nodes(cat, sel, hl)[i];
      && n.id in cat.materias.values
      && (n.isElective <==> IsSlot(n.id) && Assigned(sel, n.id).Some?)
      && (n.isElective ==> Assigned(sel, n.id) == Some(n.code) && n.code in cat.electivas.values && n.name == cat.electivas.values[n.code].name)
      && (!n.isElective ==> n.code == n.id && n.name == cat.materias.values[n.id].name)
  {
    OrderIsPermutation(cat);
    assert Order(cat)[i] in Order(cat);
  }

  /** A node is highlighted exactly when its course is, coloured blue exactly when it is a
      prerequisite, green exactly when it is enabled and not a prerequisite, and has no highlight
      colour otherwise. */
  lemma NodeHighlight(cat: Catalog, sel: Assignment, hl: Highlights, i: nat)
    requires cat.Valid() && Renderable(cat, sel) && i < |Nodes(cat, sel, hl)|
    ensures var n := Nodes(cat, sel, hl)[i];
      && (n.isHighlighted <==> n.id in hl.highlighted)
      && (n.highlightColor == Some(PrerequisiteBlue) <==> n.id in hl.prerequisites)
      && (n.highlightColor == Some(EnabledGreen) <==> n.id !in hl.prerequisites && n.id in hl.enabled)
      && (n.highlightColor == None <==> n.id !in hl.prerequisites && n.id !in hl.enabled)
  {
    OrderIsPermutation(cat);
    assert Order(cat)[i] in Order(cat);
  }

  /** An edge is drawn highlighted (width 3, the highlighted class) exactly when both its ends are
      highlighted, and is coloured only when highlighted; its id joins its ends with a dash. */
  lemma EdgeStyle(hl: Highlights, source: string, target: string)
    ensures var e := EdgeFor(hl, source, target);
      && e.id == source + "-" + target && e.source == source && e.target == target
      && (e.strokeWidth == 3 <==> source in hl.highlighted && target in hl.highlighted)
      && (e.className == HighlightedEdgeClass <==> e.strokeWidth == 3)
      && (e.strokeWidth == 2 <==> e.strokeWidth != 3)
      && (e.stroke != EdgeGray ==> e.strokeWidth == 3)
      && (e.stroke == PrerequisiteBlue <==> e.strokeWidth == 3 && (source in hl.prerequisites || target in hl.prerequisites))
      && (e.stroke == EnabledGreen <==> e.strokeWidth == 3 && source !in hl.prerequisites && target !in hl.prerequisites && target in hl.enabled)
  {
  }

  /** The edges into `target` are those from the listed sources that are courses, when `target`
      is one. */
  lemma {:induction false} EdgesIntoMembers(cat: Catalog, hl: Highlights, target: string, sources: seq<string>)
    ensures forall e :: e in EdgesInto(cat, hl, target, sources) ==>
      e.source in sources && e.source in cat.materias.values && target in cat.materias.values && e == EdgeFor(hl, e.source, target)
    ensures forall p :: p in sources && p in cat.materias.values && target in cat.materias.values ==>
      EdgeFor(hl, p, target) in EdgesInto(cat, hl, target, sources)
  {
    if sources != [] {
      var init := sources[..|sources| - 1];
      EdgesIntoMembers(cat, hl, target, init);
      assert sources == init + [sources[|sources| - 1]];
    }
  }

  /** Lines 103-134: there is a course edge from `p` to `t` exactly when `t` is a course listing `p`
      among its prerequisites and `p` is a course. */
  lemma {:induction false} CourseEdgesMembers(cat: Catalog, hl: Highlights, targets: seq<string>)
    ensures forall e :: e in CourseEdges(cat, hl, targets) ==>
      && e.target in targets && e.target in cat.materias.values
      && e.source in cat.materias.values[e.target].previas && e.source in cat.materias.values
      && e == EdgeFor(hl, e.source, e.target)
    ensures forall t, p :: t in targets && t in cat.materias.values && p in cat.materias.values[t].previas && p in cat.materias.values ==>
      EdgeFor(hl, p, t) in CourseEdges(cat, hl, targets)
  {
    if targets != [] {
      var init := targets[..|targets| - 1];
      var t := targets[|targets| - 1];
      CourseEdgesMembers(cat, hl, init);
      assert targets == init + [t];
      if t in cat.materias.values {
        EdgesIntoMembers(cat, hl, t, cat.materias.values[t].previas);
      }
    }
  }

  /** Lines 136-172: there is an elective edge from `p` into slot `s` exactly when `s` is a course
      with a truthy assignment to an elective that lists `p`, and `p` is a course. */
  lemma {:induction false} ElectiveEdgesMembers(cat: Catalog, sel: Assignment, hl: Highlights, slots: seq<string>)
    ensures forall e :: e in ElectiveEdges(cat, sel, hl, slots) ==>
      && e.target in slots && e.target in cat.materias.values
      && Assigned(sel, e.target).Some? && Assigned(sel, e.target).value in cat.electivas.values
      && e.source in cat.electivas.values[Assigned(sel, e.target).value].previas && e.source in cat.materias.values
      && e == EdgeFor(hl, e.source, e.target)
    ensures forall s, p ::
      (&& s in slots && s in cat.materias.values && Assigned(sel, s).Some? && Assigned(sel, s).value in cat.electivas.values
       && p in cat.electivas.values[Assigned(sel, s).value].previas && p in cat.materias.values)
      ==> EdgeFor(hl, p, s) in ElectiveEdges(cat, sel, hl, slots)
  {
    if slots != [] {
      var init := slots[..|slots| - 1];
      var s := slots[|slots| - 1];
      ElectiveEdgesMembers(cat, sel, hl, init);
      assert slots == init + [s];
      if Assigned(sel, s).Some? && Assigned(sel, s).value in cat.electivas.values {
        EdgesIntoMembers(cat, hl, s, cat.electivas.values[Assigned(sel, s).value].previas);
      }
    }
  }

  /** Every edge joins two nodes of the graph. */
  lemma EdgesJoinNodes(cat: Catalog, sel: Assignment, hl: Highlights)
    requires cat.Valid() && Renderable(cat, sel)
    ensures var g := GraphOf(cat, sel, hl);
      forall e :: e in g.edges ==>
        (exists i :: 0 <= i < |g.nodes| && g.nodes[i].id == e.source) && (exists j :: 0 <= j < |g.nodes| && g.nodes[j].id == e.target)
  {
    NodesOnePerCourse(cat, sel, hl);
    CourseEdgesMembers(cat, hl, cat.materias.keys);
    ElectiveEdgesMembers(cat, sel, hl, sel.keys);
  }

  /** In the curriculum every course edge points from an earlier semester to a later one, that
      is from a column to one further right. */
  lemma CourseEdgesPointRight(hl: Highlights)
    ensures forall e :: e in CourseEdges(Curriculum, hl, Materias.keys) ==>
      e.source in Materias.values && e.target in Materias.values
      && Materias.values[e.source].semestre < Materias.values[e.target].semestre
  {
    CourseEdgesMembers(Curriculum, hl, Materias.keys);
    PrerequisitesEarlier();
  }
}
