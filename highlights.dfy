/** `getHighlightedCourses` of client/src/lib/curriculumUtils.ts: a stand-alone resolver of the
    courses to highlight around a selected code. */
module HighlightResolver {
  import opened Schema
  import opened CurriculumGraph

  /** The courses among `ks` that list `code` as a prerequisite. */
  function EnabledAmong(cat: Catalog, code: string, ks: seq<string>): set<string> {
    set t | t in ks && t in cat.materias.values && code in cat.materias.values[t].previas
  }

  /** The slot courses among `ks`. */
  function SlotsAmong(cat: Catalog, ks: seq<string>): set<string> {
    set k | k in ks && k in cat.materias.values && IsSlot(k)
  }

  /** Some elective among `es` lists `code` as a prerequisite. */
  predicate SomeElectiveLists(cat: Catalog, code: string, es: seq<string>) {
    exists e :: e in es && e in cat.electivas.values && code in cat.electivas.values[e].previas
  }

  /** Lines 301-306: the course's own prerequisites. */
  function PrerequisiteSet(cat: Catalog, code: string): set<string> {
    if code in cat.materias.values then set p | p in cat.materias.values[code].previas else {}
  }

  /** Lines 309-327: the courses listing `code`, and every slot when some elective lists it. */
  function EnabledSet(cat: Catalog, code: string): set<string> {
    EnabledAmong(cat, code, cat.materias.keys)
    + if SomeElectiveLists(cat, code, cat.electivas.keys) then SlotsAmong(cat, cat.materias.keys) else {}
  }

  /** The three sets for a non-empty code. */
  function Resolved(cat: Catalog, code: string): Highlights {
    Highlights({code} + PrerequisiteSet(cat, code) + EnabledSet(cat, code), PrerequisiteSet(cat, code), EnabledSet(cat, code))
  }

  /** Lines 302-305. */
  method AddPrerequisites(cat: Catalog, selectedCode: string, highlighted0: set<string>) returns (highlighted: set<string>, prerequisites: set<string>)
    ensures prerequisites == PrerequisiteSet(cat, selectedCode)
    ensures highlighted == highlighted0 + prerequisites
  {
    highlighted, prerequisites := highlighted0, {};
    if selectedCode in cat.materias.values {
      var previas := cat.materias.values[selectedCode].previas;
      for i := 0 to |previas|
        invariant prerequisites == set p | p in previas[..i]
        invariant highlighted == highlighted0 + prerequisites
      {
        assert previas[..i + 1] == previas[..i] + [previas[i]];
        prerequisites := prerequisites + {previas[i]};
        highlighted := highlighted + {previas[i]};
      }
      assert previas[..|previas|] == previas;
    }
  }

  /** Lines 309-314. */
  method AddEnabledCourses(cat: Catalog, selectedCode: string, highlighted0: set<string>) returns (highlighted: set<string>, enabled: set<string>)
    ensures enabled == EnabledAmong(cat, selectedCode, cat.materias.keys)
    ensures highlighted == highlighted0 + enabled
  {
    highlighted, enabled := highlighted0, {};
    var targets := cat.materias.keys;
    for i := 0 to |targets|
      invariant enabled == EnabledAmong(cat, selectedCode, targets[..i])
      invariant highlighted == highlighted0 + enabled
    {
      var targetCode := targets[i];
      assert targets[..i + 1] == targets[..i] + [targetCode];
      if targetCode in cat.materias.values && selectedCode in cat.materias.values[targetCode].previas {
        enabled := enabled + {targetCode};
        highlighted := highlighted + {targetCode};
      }
    }
    assert targets[..|targets|] == targets;
  }

  /** Lines 320-325: adds every slot course. */
  method AddSlots(cat: Catalog, highlighted0: set<string>, enabled0: set<string>) returns (highlighted: set<string>, enabled: set<string>)
    ensures enabled == enabled0 + SlotsAmong(cat, cat.materias.keys)
    ensures highlighted == highlighted0 + SlotsAmong(cat, cat.materias.keys)
  {
    highlighted, enabled := highlighted0, enabled0;
    var codes := cat.materias.keys;
    for j := 0 to |codes|
      invariant enabled == enabled0 + SlotsAmong(cat, codes[..j])
      invariant highlighted == highlighted0 + SlotsAmong(cat, codes[..j])
    {
      var slotCode := codes[j];
      assert codes[..j + 1] == codes[..j] + [slotCode];
      if slotCode in cat.materias.values && IsSlot(slotCode) {
        enabled := enabled + {slotCode};
        highlighted := highlighted + {slotCode};
      }
    }
    assert codes[..|codes|] == codes;
  }

  /** Lines 284-330, `getHighlightedCourses`: nothing for the empty code; otherwise the code, its
      prerequisites, the courses that list it and, when an elective lists it, every slot. */
  method GetHighlightedCourses(cat: Catalog, selectedCode: string) returns (h: Highlights)
    ensures selectedCode == "" ==> h == Highlights({}, {}, {})
    ensures selectedCode != "" ==> h == Resolved(cat, selectedCode)
  {
    if selectedCode == "" {
      return Highlights({}, {}, {});
    }
    var highlighted, prerequisites := AddPrerequisites(cat, selectedCode, {selectedCode});
    var enabled;
    highlighted, enabled := AddEnabledCourses(cat, selectedCode, highlighted);
    ghost var enabledCourses := enabled;
    ghost var highlighted1 := highlighted;
    var electives := cat.electivas.keys;
    for i := 0 to |electives|
      invariant SomeElectiveLists(cat, selectedCode, electives[..i]) ==> enabled == enabledCourses + SlotsAmong(cat, cat.materias.keys)
      invariant !SomeElectiveLists(cat, selectedCode, electives[..i]) ==> enabled == enabledCourses
      invariant highlighted == highlighted1 + (enabled - enabledCourses)
    {
      var e := electives[i];
      assert electives[..i + 1] == electives[..i] + [e];
      if e in cat.electivas.values && selectedCode in cat.electivas.values[e].previas {
        assert e in electives[..i + 1];
        highlighted, enabled := AddSlots(cat, highlighted, enabled);
      } else {
        assert SomeElectiveLists(cat, selectedCode, electives[..i + 1]) == SomeElectiveLists(cat, selectedCode, electives[..i]);
      }
    }
    assert electives[..|electives|] == electives;
    return Highlights(highlighted, prerequisites, enabled);
  }

  // ----- Properties -----

  /** The selected code is highlighted, and so are its prerequisites and the courses it enables. */
  lemma ResolvedContainsParts(cat: Catalog, code: string)
    ensures code in Resolved(cat, code).highlighted
    ensures Resolved(cat, code).prerequisites <= Resolved(cat, code).highlighted
    ensures Resolved(cat, code).enabled <= Resolved(cat, code).highlighted
    ensures Resolved(cat, code).highlighted == {code} + Resolved(cat, code).prerequisites + Resolved(cat, code).enabled
  {
  }

  /** The prerequisites are exactly those the course lists. */
  lemma PrerequisitesListed(cat: Catalog, code: string)
    ensures forall p :: p in Resolved(cat, code).prerequisites ==> code in cat.materias.values && p in cat.materias.values[code].previas
    ensures forall p :: code in cat.materias.values && p in cat.materias.values[code].previas ==> p in Resolved(cat, code).prerequisites
  {
  }

  /** Lines 309-327: a code is enabled exactly when it is a course listing the selected code, or a
      slot while some elective lists the selected code. It is one hop: nothing is followed
      further. */
  lemma EnabledExactly(cat: Catalog, code: string)
    ensures forall t :: t in Resolved(cat, code).enabled ==>
      t in cat.materias.keys && t in cat.materias.values
      && (code in cat.materias.values[t].previas || (IsSlot(t) && SomeElectiveLists(cat, code, cat.electivas.keys)))
    ensures forall t :: t in cat.materias.keys && t in cat.materias.values && code in cat.materias.values[t].previas ==> t in Resolved(cat, code).enabled
  {
  }

  /** Lines 317-327: when some elective lists the selected code every slot course is enabled, not
      only those holding that elective. */
  lemma AllSlotsEnabled(cat: Catalog, code: string, e: string)
    requires e in cat.electivas.keys && e in cat.electivas.values && code in cat.electivas.values[e].previas
    ensures forall k :: k in cat.materias.keys && k in cat.materias.values && IsSlot(k) ==> k in Resolved(cat, code).enabled
  {
  }

  /** In the curriculum, selecting `AA2`, a prerequisite of the elective `PACD`, enables all six
      slots. */
  lemma Aa2EnablesEverySlot()
    ensures forall k :: k in SlotCodes ==> k in Resolved(Curriculum, "AA2").enabled
  {
    SlotCodesPresent();
    MateriasLayout();
    assert "PACD" in Electivas.keys && "AA2" in Electivas.values["PACD"].previas;
    forall k | k in SlotCodes
      ensures k in Resolved(Curriculum, "AA2").enabled
    {
      AllSlotsEnabled(Curriculum, "AA2", "PACD");
    }
  }
}
