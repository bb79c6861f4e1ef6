/** client/src/pages/curriculum-map.tsx: the page's two pieces of state (the selected course and
    the elective selection) and the values it derives from them with the engine. */
module CurriculumMap {
  import opened Wrappers
  import opened Records
  import opened Schema
  import opened Selection
  import opened CurriculumGraph
  import opened CourseDetails
  import opened CourseDependencies
  import opened ElectiveOptions

  /** Lines 27-35: every slot starts unassigned (`null`). */
  const InitialSelection: Assignment := Record(SlotCodes, map[
    "OPT1" := None, "OPT2" := None, "OPT3" := None, "OPT4" := None, "OPT5" := None, "OPT6" := None])

  /** `selectedCourse` is truthy. */
  predicate Truthy(s: Option<string>) {
    s.Some? && s.value != ""
  }

  /** The elements of a list, as a set. */
  function Elements(s: seq<string>): set<string> {
    set x | x in s
  }

  /** Lines 59-69, `finalEnabled`: the unlocks, without the slot keys of the selection whose
      assignment is `null`. */
  function FinalEnabled(sel: Assignment, unlocks: seq<string>): seq<string> {
    if unlocks == [] then []
    else
      var code := unlocks[|unlocks| - 1];
      FinalEnabled(sel, unlocks[..|unlocks| - 1])
      + if code in sel.keys && sel.Get(code) == Some(None) then [] else [code]
  }

  /** Lines 76-87: the selected course, its prerequisites and the enabled codes. */
  method AllHighlighted(selected: string, prerequisites: seq<string>, finalEnabled: seq<string>) returns (allHighlighted: set<string>)
    ensures allHighlighted == {selected} + Elements(prerequisites) + Elements(finalEnabled)
  {
    allHighlighted := {selected};
    for i := 0 to |prerequisites|
      invariant allHighlighted == {selected} + Elements(prerequisites[..i])
    {
      assert prerequisites[..i + 1] == prerequisites[..i] + [prerequisites[i]];
      allHighlighted := allHighlighted + {prerequisites[i]};
    }
    assert prerequisites[..|prerequisites|] == prerequisites;
    ghost var withPrerequisites := allHighlighted;
    for i := 0 to |finalEnabled|
      invariant allHighlighted == withPrerequisites + Elements(finalEnabled[..i])
    {
      assert finalEnabled[..i + 1] == finalEnabled[..i] + [finalEnabled[i]];
      allHighlighted := allHighlighted + {finalEnabled[i]};
    }
    assert finalEnabled[..|finalEnabled|] == finalEnabled;
  }

  /** Lines 42-91, `highlightData`: empty without a selected course; otherwise the selected
      course, its prerequisites and the filtered unlocks are highlighted, the prerequisites are
      the set of `dependencies.prerequisites` and the enabled codes those of `finalEnabled`. */
  function PageHighlights(cat: Catalog, sel: Assignment, selectedCourse: Option<string>): Highlights {
    if !Truthy(selectedCourse) then Highlights({}, {}, {})
    else
      var prerequisites := Dedup(PrerequisiteList(cat, sel, selectedCourse.value));
      var enabled := FinalEnabled(sel, Dedup(UnlockList(cat, sel, selectedCourse.value)));
      Highlights({selectedCourse.value} + Elements(prerequisites) + Elements(enabled), Elements(prerequisites), Elements(enabled))
  }

  /** One entry of `electiveSlots` (lines 113-121). */
  datatype SlotView = SlotView(slot: string, options: seq<ElectiveOption>, selected: Option<string>)

  /** The options `getElectiveOptions` returns for a slot that is a course. */
  function OptionsForSlot(cat: Catalog, sel: Assignment, slot: string): seq<ElectiveOption>
    requires slot in cat.materias.values
  {
    SortByCode(OptionsOf(cat, sel, slot, cat.materias.values[slot].semestre, cat.electivas.keys))
  }

  /** The page: `selectedCourse` and `selectedElectives`. */
  class CurriculumMapPage {
    var selectedCourse: Option<string>
    var selectedElectives: Assignment

    ghost predicate Valid()
      reads this
    {
      selectedElectives.Valid()
    }

    /** The selection is keyed by slot codes only, as the toolbar only ever changes the slots it
        lists. */
    ghost predicate SlotKeyed()
      reads this
    {
      forall k :: k in selectedElectives.keys ==> IsSlot(k)
    }

    /** Lines 25-35: no course selected, every slot unassigned. */
    constructor ()
      ensures Valid() && SlotKeyed()
      ensures selectedCourse == None && selectedElectives == InitialSelection
    {
      selectedCourse := None;
      selectedElectives := InitialSelection;
      new;
      InitialSelectionValid();
      SlotCodesAreSlots();
    }

    /** Lines 93-95: clicking a node selects its course. */
    method HandleNodeClick(code: string)
      modifies this
      ensures selectedCourse == Some(code) && selectedElectives == old(selectedElectives)
    {
      selectedCourse := Some(code);
    }

    /** Lines 123-128: `{...prev, [slot]: code}`. */
    method HandleElectiveChange(slot: string, code: Option<string>)
      requires Valid()
      modifies this
      ensures Valid()
      ensures old(SlotKeyed()) && IsSlot(slot) ==> SlotKeyed()
      ensures selectedElectives == old(selectedElectives).Set(slot, code) && selectedCourse == old(selectedCourse)
    {
      selectedElectives := selectedElectives.Set(slot, code);
    }

    /** Lines 37-40, `dependencies`: those of the selected course, or none. */
    method CurrentDependencies(cat: Catalog) returns (d: Dependencies)
      ensures !Truthy(selectedCourse) ==> d == Dependencies([], [])
      ensures Truthy(selectedCourse) ==> d.prerequisites == Dedup(PrerequisiteList(cat, selectedElectives, selectedCourse.value))
      ensures Truthy(selectedCourse) ==> d.unlocks == Dedup(UnlockList(cat, selectedElectives, selectedCourse.value))
    {
      if Truthy(selectedCourse) {
        d := GetCourseDependencies(cat, selectedCourse.value, selectedElectives);
      } else {
        d := Dependencies([], []);
      }
    }

    /** Lines 42-91, `highlightData`. */
    method CurrentHighlights(cat: Catalog) returns (h: Highlights)
      ensures h == PageHighlights(cat, selectedElectives, selectedCourse)
    {
      var dependencies := CurrentDependencies(cat);
      if !Truthy(selectedCourse) {
        return Highlights({}, {}, {});
      }
      var finalEnabled := FinalEnabled(selectedElectives, dependencies.unlocks);
      var allHighlighted := AllHighlighted(selectedCourse.value, dependencies.prerequisites, finalEnabled);
      return Highlights(allHighlighted, Elements(dependencies.prerequisites), Elements(finalEnabled));
    }

    /** Lines 97-106: the graph drawn with the current highlights. */
    method CurrentGraph(cat: Catalog) returns (r: Result<Graph>)
      requires cat.Valid() && Valid()
      ensures r.TypeError? ==> !Renderable(cat, selectedElectives)
      ensures r.Ok? ==> (Renderable(cat, selectedElectives)
        && r.value == GraphOf(cat, selectedElectives, PageHighlights(cat, selectedElectives, selectedCourse)))
    {
      var h := CurrentHighlights(cat);
      r := BuildCurriculumGraph(cat, selectedElectives, h);
    }

    /** Lines 108-111, `courseDetails`: the selected course's details, or `null`. */
    method CurrentDetails(cat: Catalog) returns (r: Result<Option<Details>>)
      ensures !Truthy(selectedCourse) ==> r == Ok(None)
      ensures Truthy(selectedCourse) ==> r == GetCourseDetails(cat, selectedCourse.value, selectedElectives)
    {
      if Truthy(selectedCourse) {
        r := GetCourseDetails(cat, selectedCourse.value, selectedElectives);
      } else {
        r := Ok(None);
      }
    }

    /** Lines 113-121, `electiveSlots`: for each slot key in order, its options and its current
        assignment; reading the semester of a key that is not a course throws. */
    method ElectiveSlots(cat: Catalog) returns (r: Result<seq<SlotView>>)
      requires Valid()
      ensures r.TypeError? ==> exists k :: k in selectedElectives.keys && k !in cat.materias.values
      ensures (exists k :: k in selectedElectives.keys && k !in cat.materias.values) ==> r.TypeError?
      ensures r.Ok? ==> forall k :: k in selectedElectives.keys ==> k in cat.materias.values
      ensures r.Ok? ==> |r.value| == |selectedElectives.keys| && forall i :: 0 <= i < |selectedElectives.keys| ==>
        r.value[i] == SlotView(selectedElectives.keys[i], OptionsForSlot(cat, selectedElectives, selectedElectives.keys[i]), selectedElectives.values[selectedElectives.keys[i]])
    {
      var slots := selectedElectives.keys;
      var views: seq<SlotView> := [];
      for i := 0 to |slots|
        invariant forall k :: k in slots[..i] ==> k in cat.materias.values
        invariant |views| == i && forall j :: 0 <= j < i ==>
          views[j] == SlotView(slots[j], OptionsForSlot(cat, selectedElectives, slots[j]), selectedElectives.values[slots[j]])
      {
        var slot := slots[i];
        assert slots[..i + 1] == slots[..i] + [slot];
        var options := GetElectiveOptions(cat, slot, selectedElectives);
        if options.TypeError? {
          assert slot in slots;
          return TypeError;
        }
        views := views + [SlotView(slot, options.value, selectedElectives.values[slot])];
      }
      assert slots[..|slots|] == slots;
      return Ok(views);
    }
  }

  /** The initial selection is a well-formed record of the six slots, all `null`. */
  lemma InitialSelectionValid()
    ensures InitialSelection.Valid()
    ensures InitialSelection.keys == SlotCodes
    ensures forall k :: k in SlotCodes ==> InitialSelection.Get(k) == Some(None)
    ensures forall k :: Assigned(InitialSelection, k) == None
  {
    assert NoDup(SlotCodes);
  }

  /** The filter keeps exactly the unlocks that are not a `null` slot of the selection, in
      order; codes that are not keys of the selection are always kept. */
  lemma {:induction false} FinalEnabledMembers(sel: Assignment, unlocks: seq<string>)
    ensures forall u :: u in FinalEnabled(sel, unlocks) ==> u in unlocks && !(u in sel.keys && sel.Get(u) == Some(None))
    ensures forall u :: u in unlocks && !(u in sel.keys && sel.Get(u) == Some(None)) ==> u in FinalEnabled(sel, unlocks)
  {
    if unlocks != [] {
      var init := unlocks[..|unlocks| - 1];
      FinalEnabledMembers(sel, init);
      assert unlocks == init + [unlocks[|unlocks| - 1]];
    }
  }

  /** Lines 44-50 and 76-87: without a selected course nothing is highlighted; with one, the
      course is highlighted with its prerequisites and the enabled codes, and the prerequisites
      and the enabled codes are highlighted. */
  lemma PageHighlightsShape(cat: Catalog, sel: Assignment, selectedCourse: Option<string>)
    ensures !Truthy(selectedCourse) ==> PageHighlights(cat, sel, selectedCourse) == Highlights({}, {}, {})
    ensures Truthy(selectedCourse) ==> selectedCourse.value in PageHighlights(cat, sel, selectedCourse).highlighted
    ensures PageHighlights(cat, sel, selectedCourse).prerequisites <= PageHighlights(cat, sel, selectedCourse).highlighted
    ensures PageHighlights(cat, sel, selectedCourse).enabled <= PageHighlights(cat, sel, selectedCourse).highlighted
  {
  }

  /** Lines 59-69: a code is enabled exactly when it is an unlock of the selected course and not a
      `null` slot. */
  lemma PageEnabledExactly(cat: Catalog, sel: Assignment, code: string)
    requires code != ""
    ensures forall u :: u in PageHighlights(cat, sel, Some(code)).enabled ==>
      u in Dedup(UnlockList(cat, sel, code)) && !(u in sel.keys && sel.Get(u) == Some(None))
    ensures forall u :: u in Dedup(UnlockList(cat, sel, code)) && !(u in sel.keys && sel.Get(u) == Some(None)) ==>
      u in PageHighlights(cat, sel, Some(code)).enabled
  {
    FinalEnabledMembers(sel, Dedup(UnlockList(cat, sel, code)));
  }

  /** In the curriculum the filter removes nothing while the selection's keys are slots: a slot
      enters the unlocks only by holding an elective, and no slot course lists a prerequisite,
      so no slot is unlocked as a course. */
  lemma FilterKeepsUnlocks(sel: Assignment, code: string)
    requires forall k :: k in sel.keys ==> IsSlot(k)
    ensures forall u :: u in Dedup(UnlockList(Curriculum, sel, code)) ==> u in FinalEnabled(sel, Dedup(UnlockList(Curriculum, sel, code)))
  {
    forall u | u in Dedup(UnlockList(Curriculum, sel, code))
      ensures u in FinalEnabled(sel, Dedup(UnlockList(Curriculum, sel, code)))
    {
      UnlockIsNoNullSlot(sel, code, u);
      FinalEnabledMembers(sel, Dedup(UnlockList(Curriculum, sel, code)));
    }
  }

  /** An unlock of the curriculum is a course with prerequisites, so not a slot, or a slot
      holding an elective. */
  lemma UnlockIsNoNullSlot(sel: Assignment, code: string, u: string)
    requires forall k :: k in sel.keys ==> IsSlot(k)
    requires u in Dedup(UnlockList(Curriculum, sel, code))
    ensures !(u in sel.keys && sel.Get(u) == Some(None))
  {
    var actual := ActualCode(sel, code);
    UnlocksMembers(Curriculum, sel, code);
    if u in Materias.values && Lists(Materias.values[u].previas, code, actual) {
      SlotsHaveNoPrerequisites();
      assert !IsSlot(u);
    } else {
      var e :| e in Electivas.keys && e in Electivas.values && Lists(Electivas.values[e].previas, code, actual) && HoldingSlot(sel, e) == Some(u);
      HoldingSlotHolds(sel, e);
    }
  }

  /** Without assigned electives the curriculum's graph can always be drawn. */
  lemma InitialGraphRenders()
    ensures Renderable(Curriculum, InitialSelection)
  {
    InitialSelectionValid();
  }

  /** Picking one of a slot's offered electives, or clearing the slot, keeps the graph drawable:
      every offered code is an elective. */
  lemma ChoosingAnOptionKeepsRenderable(cat: Catalog, sel: Assignment, slot: string, choice: Option<string>)
    requires Renderable(cat, sel) && slot in cat.materias.values
    requires choice.Some? ==> exists o :: o in OptionsForSlot(cat, sel, slot) && o.code == choice.value
    ensures Renderable(cat, sel.Set(slot, choice))
  {
    var s := OptionsOf(cat, sel, slot, cat.materias.values[slot].semestre, cat.electivas.keys);
    OptionsOfCodes(cat, sel, slot, cat.materias.values[slot].semestre, cat.electivas.keys);
    SortByCodeSorted(s);
    if choice.Some? {
      var o :| o in OptionsForSlot(cat, sel, slot) && o.code == choice.value;
      assert o in multiset(s);
    }
    var sel' := sel.Set(slot, choice);
    forall k | k in cat.materias.values
      ensures Display(cat, sel', k).Ok?
    {
      if k != slot {
        assert Assigned(sel', k) == Assigned(sel, k) by {
          assert sel'.Get(k) == sel.Get(k);
        }
        assert Display(cat, sel', k) == Display(cat, sel, k);
      }
    }
  }
}
