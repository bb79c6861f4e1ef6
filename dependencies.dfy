/** `getCourseDependencies` of client/src/lib/curriculumUtils.ts: the direct prerequisites of a
    code and the codes it directly unlocks. */
module CourseDependencies {
  import opened Wrappers
  import opened Records
  import opened Schema
  import opened Selection

  datatype Dependencies = Dependencies(prerequisites: seq<string>, unlocks: seq<string>)

  /** Lines 211-213: the assigned elective for a slot with a truthy assignment, the code itself
      otherwise. */
  function ActualCode(sel: Assignment, code: string): string {
    if IsSlot(code) && Assigned(sel, code).Some? then Assigned(sel, code).value else code
  }

  /** The elective whose prerequisites a slot adds (line 215): the actual code, when `code` is a
      slot and the actual code is a truthy elective code. */
  function AddedElective(cat: Catalog, sel: Assignment, code: string): Option<string> {
    var actual := ActualCode(sel, code);
    if IsSlot(code) && actual != "" && actual in cat.electivas.values then Some(actual) else None
  }

  /** Lines 207-217, before deduplication: the course's prerequisites, then those of the elective
      its slot holds. */
  function PrerequisiteList(cat: Catalog, sel: Assignment, code: string): seq<string> {
    (if code in cat.materias.values then cat.materias.values[code].previas else [])
    + match AddedElective(cat, sel, code)
      case Some(e) => cat.electivas.values[e].previas
      case None => []
  }

  /** `t.previas.includes(code) || t.previas.includes(actualCode)`. */
  predicate Lists(previas: seq<string>, code: string, actual: string) {
    code in previas || actual in previas
  }

  /** Lines 219-223: the courses among `targets` whose prerequisites list `code` or `actual`, in
      order. */
  function CourseUnlocks(cat: Catalog, code: string, actual: string, targets: seq<string>): seq<string> {
    if targets == [] then []
    else
      var t := targets[|targets| - 1];
      CourseUnlocks(cat, code, actual, targets[..|targets| - 1])
      + if t in cat.materias.values && Lists(cat.materias.values[t].previas, code, actual) then [t] else []
  }

  /** The slot an elective's unlock shows up as (lines 227-232): the first slot holding it, when
      that slot key is truthy. */
  function HoldingSlot(sel: Assignment, e: string): Option<string> {
    match FirstSlotHolding(sel, e)
    case Some(slot) => if slot != "" then Some(slot) else None
    case None => None
  }

  /** Lines 225-234: for each of `electives` that lists `code` or `actual`, the slot holding it,
      in order. */
  function SlotUnlocks(cat: Catalog, sel: Assignment, code: string, actual: string, electives: seq<string>): seq<string> {
    if electives == [] then []
    else
      var e := electives[|electives| - 1];
      SlotUnlocks(cat, sel, code, actual, electives[..|electives| - 1])
      + if e in cat.electivas.values && Lists(cat.electivas.values[e].previas, code, actual) && HoldingSlot(sel, e).Some?
        then [HoldingSlot(sel, e).value] else []
  }

  /** Lines 219-234, before deduplication. */
  function UnlockList(cat: Catalog, sel: Assignment, code: string): seq<string> {
    var actual := ActualCode(sel, code);
    CourseUnlocks(cat, code, actual, cat.materias.keys) + SlotUnlocks(cat, sel, code, actual, cat.electivas.keys)
  }

  /** Lines 219-223: pushes onto `unlocks` each course whose prerequisites list `code` or
      `actualCode`. */
  method PushCourseUnlocks(cat: Catalog, code: string, actualCode: string, unlocks0: seq<string>) returns (unlocks: seq<string>)
    ensures unlocks == unlocks0 + CourseUnlocks(cat, code, actualCode, cat.materias.keys)
  {
    unlocks := unlocks0;
    var targets := cat.materias.keys;
    for i := 0 to |targets|
      invariant unlocks == unlocks0 + CourseUnlocks(cat, code, actualCode, targets[..i])
    {
      var targetCode := targets[i];
      assert targets[..i + 1][..i] == targets[..i];
      if targetCode in cat.materias.values {
        var previas := cat.materias.values[targetCode].previas;
        if code in previas || actualCode in previas {
          AppendAssoc(unlocks0, CourseUnlocks(cat, code, actualCode, targets[..i]), [targetCode]);
          unlocks := unlocks + [targetCode];
        }
      }
    }
    assert targets[..|targets|] == targets;
  }

  /** Lines 225-234: pushes onto `unlocks` the slot holding each elective whose prerequisites list
      `code` or `actualCode`. */
  method PushSlotUnlocks(cat: Catalog, sel: Assignment, code: string, actualCode: string, unlocks0: seq<string>) returns (unlocks: seq<string>)
    ensures unlocks == unlocks0 + SlotUnlocks(cat, sel, code, actualCode, cat.electivas.keys)
  {
    unlocks := unlocks0;
    var electives := cat.electivas.keys;
    for i := 0 to |electives|
      invariant unlocks == unlocks0 + SlotUnlocks(cat, sel, code, actualCode, electives[..i])
    {
      var electiveCode := electives[i];
      assert electives[..i + 1][..i] == electives[..i];
      if electiveCode in cat.electivas.values {
        var previas := cat.electivas.values[electiveCode].previas;
        if code in previas || actualCode in previas {
          var slot := FirstSlotHolding(sel, electiveCode);
          if slot.Some? && slot.value != "" {
            AppendAssoc(unlocks0, SlotUnlocks(cat, sel, code, actualCode, electives[..i]), [slot.value]);
            unlocks := unlocks + [slot.value];
          }
        }
      }
    }
    assert electives[..|electives|] == electives;
  }

  /** Lines 203-240, `getCourseDependencies`. */
  method GetCourseDependencies(cat: Catalog, code: string, sel: Assignment) returns (d: Dependencies)
    ensures d.prerequisites == Dedup(PrerequisiteList(cat, sel, code))
    ensures d.unlocks == Dedup(UnlockList(cat, sel, code))
  {
    var prerequisites: seq<string> := if code in cat.materias.values then cat.materias.values[code].previas else [];
    var unlocks: seq<string> := [];
    var actualCode := if IsSlot(code) && Assigned(sel, code).Some? then Assigned(sel, code).value else code;
    if IsSlot(code) && actualCode != "" && actualCode in cat.electivas.values {
      prerequisites := prerequisites + cat.electivas.values[actualCode].previas;
    }
    assert actualCode == ActualCode(sel, code);
    assert prerequisites == PrerequisiteList(cat, sel, code);
    unlocks := PushCourseUnlocks(cat, code, actualCode, unlocks);
    assert unlocks == CourseUnlocks(cat, code, actualCode, cat.materias.keys);
    unlocks := PushSlotUnlocks(cat, sel, code, actualCode, unlocks);
    assert unlocks == UnlockList(cat, sel, code);
    return Dependencies(Dedup(prerequisites), Dedup(unlocks));
  }

  // ----- Properties -----

  /** The courses unlocked are exactly the listed courses whose prerequisites name the code. */
  lemma {:induction false} CourseUnlocksMembers(cat: Catalog, code: string, actual: string, targets: seq<string>)
    ensures forall u :: u in CourseUnlocks(cat, code, actual, targets) ==>
      u in targets && u in cat.materias.values && Lists(cat.materias.values[u].previas, code, actual)
    ensures forall u :: u in targets && u in cat.materias.values && Lists(cat.materias.values[u].previas, code, actual) ==>
      u in CourseUnlocks(cat, code, actual, targets)
  {
    if targets != [] {
      var init := targets[..|targets| - 1];
      CourseUnlocksMembers(cat, code, actual, init);
      assert targets == init + [targets[|targets| - 1]];
    }
  }

  /** The slots unlocked are exactly the truthy first holders of the listed electives whose
      prerequisites name the code. */
  lemma {:induction false} SlotUnlocksMembers(cat: Catalog, sel: Assignment, code: string, actual: string, electives: seq<string>)
    ensures forall u :: u in SlotUnlocks(cat, sel, code, actual, electives) ==>
      exists e :: e in electives && e in cat.electivas.values && Lists(cat.electivas.values[e].previas, code, actual) && HoldingSlot(sel, e) == Some(u)
    ensures forall e :: e in electives && e in cat.electivas.values && Lists(cat.electivas.values[e].previas, code, actual) && HoldingSlot(sel, e).Some? ==>
      HoldingSlot(sel, e).value in SlotUnlocks(cat, sel, code, actual, electives)
  {
    if electives != [] {
      var init := electives[..|electives| - 1];
      SlotUnlocksMembers(cat, sel, code, actual, init);
      assert electives == init + [electives[|electives| - 1]];
    }
  }

  /** A slot shows up for an elective only when it holds exactly that elective, and when no
      earlier slot does. */
  lemma HoldingSlotHolds(sel: Assignment, e: string)
    ensures HoldingSlot(sel, e).Some? ==> HoldingSlot(sel, e).value in sel.keys && sel.Get(HoldingSlot(sel, e).value) == Some(Some(e))
    ensures HoldingSlot(sel, e).Some? ==> forall j :: 0 <= j < IndexOf(sel.keys, HoldingSlot(sel, e).value) ==> sel.Get(sel.keys[j]) != Some(Some(e))
    ensures (forall k :: k in sel.keys ==> sel.Get(k) != Some(Some(e))) ==> HoldingSlot(sel, e).None?
  {
  }

  /** Both lists are free of duplicates. */
  lemma DependenciesNoDup(cat: Catalog, sel: Assignment, code: string)
    ensures NoDup(Dedup(PrerequisiteList(cat, sel, code)))
    ensures NoDup(Dedup(UnlockList(cat, sel, code)))
  {
    DedupElements(PrerequisiteList(cat, sel, code));
    DedupElements(UnlockList(cat, sel, code));
  }

  /** Lines 207-217: the prerequisites are the course's own, then, for a slot holding an
      elective, that elective's, each once and in first-seen order. */
  lemma PrerequisitesMembers(cat: Catalog, sel: Assignment, code: string)
    ensures forall p :: p in Dedup(PrerequisiteList(cat, sel, code)) ==>
      || (code in cat.materias.values && p in cat.materias.values[code].previas)
      || (AddedElective(cat, sel, code).Some? && p in cat.electivas.values[AddedElective(cat, sel, code).value].previas)
    ensures forall p :: code in cat.materias.values && p in cat.materias.values[code].previas ==> p in Dedup(PrerequisiteList(cat, sel, code))
    ensures forall p :: AddedElective(cat, sel, code).Some? && p in cat.electivas.values[AddedElective(cat, sel, code).value].previas ==>
      p in Dedup(PrerequisiteList(cat, sel, code))
    ensures forall i, j :: 0 <= i < j < |Dedup(PrerequisiteList(cat, sel, code))| ==>
      IndexOf(PrerequisiteList(cat, sel, code), Dedup(PrerequisiteList(cat, sel, code))[i]) < IndexOf(PrerequisiteList(cat, sel, code), Dedup(PrerequisiteList(cat, sel, code))[j])
  {
    var l := PrerequisiteList(cat, sel, code);
    DedupElements(l);
    forall i, j | 0 <= i < j < |Dedup(l)|
      ensures IndexOf(l, Dedup(l)[i]) < IndexOf(l, Dedup(l)[j])
    {
      DedupFirstSeen(l, i, j);
    }
  }

  /** Lines 219-234: each unlock is a course whose prerequisites name the code or its actual
      code, or the first slot holding an elective whose prerequisites do. It is one hop: nothing
      reached only through another unlock is included. */
  lemma UnlocksMembers(cat: Catalog, sel: Assignment, code: string)
    ensures forall u :: u in Dedup(UnlockList(cat, sel, code)) ==>
      || (u in cat.materias.values && Lists(cat.materias.values[u].previas, code, ActualCode(sel, code)))
      || (exists e :: e in cat.electivas.keys && e in cat.electivas.values && Lists(cat.electivas.values[e].previas, code, ActualCode(sel, code)) && HoldingSlot(sel, e) == Some(u))
    ensures forall u :: u in cat.materias.keys && u in cat.materias.values && Lists(cat.materias.values[u].previas, code, ActualCode(sel, code)) ==>
      u in Dedup(UnlockList(cat, sel, code))
    ensures forall e :: e in cat.electivas.keys && e in cat.electivas.values && Lists(cat.electivas.values[e].previas, code, ActualCode(sel, code)) && HoldingSlot(sel, e).Some? ==>
      HoldingSlot(sel, e).value in Dedup(UnlockList(cat, sel, code))
  {
    var actual := ActualCode(sel, code);
    CourseUnlocksMembers(cat, code, actual, cat.materias.keys);
    SlotUnlocksMembers(cat, sel, code, actual, cat.electivas.keys);
    DedupElements(UnlockList(cat, sel, code));
  }

  /** An elective assigned to no slot unlocks nothing: every unlock that is not a course is a
      slot that currently holds an elective naming the code. */
  lemma UnassignedElectivesUnlockNothing(cat: Catalog, sel: Assignment, code: string, u: string)
    requires u in Dedup(UnlockList(cat, sel, code)) && u !in cat.materias.values
    ensures u in sel.keys
    ensures exists e :: e in cat.electivas.values && Lists(cat.electivas.values[e].previas, code, ActualCode(sel, code)) && sel.Get(u) == Some(Some(e))
  {
    UnlocksMembers(cat, sel, code);
    var e :| e in cat.electivas.keys && e in cat.electivas.values && Lists(cat.electivas.values[e].previas, code, ActualCode(sel, code)) && HoldingSlot(sel, e) == Some(u);
    HoldingSlotHolds(sel, e);
  }
}
