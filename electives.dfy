/** `getElectiveOptions` of client/src/lib/curriculumUtils.ts: the electives offered for one slot,
    each marked available or not, sorted by code. */
module ElectiveOptions {
  import opened Wrappers
  import opened Records
  import opened Strings
  import opened Schema
  import opened Selection

  datatype ElectiveOption = ElectiveOption(code: string, name: string, available: bool)

  // ----- Availability -----

  /** Line 264, `Materias[prereq]?.semestre || 0`: a prerequisite that is not a course counts as
      semester 0. */
  function PrerequisiteSemester(cat: Catalog, p: string): nat {
    if p in cat.materias.values then cat.materias.values[p].semestre else 0
  }

  /** Lines 263-266: every prerequisite comes from a strictly earlier semester. */
  predicate PrerequisitesMet(cat: Catalog, previas: seq<string>, slotSemester: nat) {
    forall p :: p in previas ==> PrerequisiteSemester(cat, p) < slotSemester
  }

  /** Lines 254-259: the codes held, `null` aside, by the slots among `ks` other than `slot`. */
  function HeldElsewhere(sel: Assignment, slot: string, ks: seq<string>): set<string> {
    set k | k in ks && k != slot && k in sel.values && sel.values[k].Some? :: sel.values[k].value
  }

  /** Lines 269-276: the entry for elective `code`. */
  function OptionFor(cat: Catalog, sel: Assignment, slot: string, slotSemester: nat, code: string): ElectiveOption
    requires code in cat.electivas.values
  {
    var elective := cat.electivas.values[code];
    ElectiveOption(code, elective.name,
      PrerequisitesMet(cat, elective.previas, slotSemester) && code !in HeldElsewhere(sel, slot, sel.keys))
  }

  /** Lines 261-277: one entry per listed elective, in table order. */
  function OptionsOf(cat: Catalog, sel: Assignment, slot: string, slotSemester: nat, codes: seq<string>): seq<ElectiveOption> {
    if codes == [] then []
    else
      var code := codes[|codes| - 1];
      OptionsOf(cat, sel, slot, slotSemester, codes[..|codes| - 1])
      + if code in cat.electivas.values then [OptionFor(cat, sel, slot, slotSemester, code)] else []
  }

  // ----- Sorting by code -----

  /** No entry's code comes before that of an entry in front of it. */
  predicate SortedByCode(s: seq<ElectiveOption>) {
    forall i, j :: 0 <= i < j < |s| ==> !LexLess(s[j].code, s[i].code)
  }

  /** `o` placed in front of the first entry whose code comes after its own. */
  function Insert(o: ElectiveOption, s: seq<ElectiveOption>): seq<ElectiveOption> {
    if s == [] then [o]
    else if LexLess(o.code, s[0].code) then [o] + s
    else [s[0]] + Insert(o, s[1..])
  }

  /** Line 279, `options.sort((a, b) => a.code.localeCompare(b.code))`, as a stable insertion
      sort. */
  function SortByCode(s: seq<ElectiveOption>): seq<ElectiveOption> {
    if s == [] then []
    else Insert(s[|s| - 1], SortByCode(s[..|s| - 1]))
  }

  lemma LexLessAsymmetric(a: string, b: string)
    ensures LexLess(a, b) ==> !LexLess(b, a)
  {
    if LexLess(a, b) && LexLess(b, a) {
      LexLessTransitive(a, b, a);
      LexLessIrreflexive(a);
    }
  }

  lemma LexLessChain(a: string, b: string, c: string)
    ensures LexLess(a, b) && LexLess(b, c) ==> LexLess(a, c)
  {
    if LexLess(a, b) && LexLess(b, c) {
      LexLessTransitive(a, b, c);
    }
  }

  /** Inserting adds exactly the one entry. */
  lemma {:induction false} InsertElements(o: ElectiveOption, s: seq<ElectiveOption>)
    ensures multiset(Insert(o, s)) == multiset(s) + multiset{o}
    ensures forall x :: x in Insert(o, s) ==> x == o || x in s
  {
    if s != [] {
      assert s == [s[0]] + s[1..];
      if !LexLess(o.code, s[0].code) {
        InsertElements(o, s[1..]);
      }
    }
  }

  /** Inserting into a sorted list keeps it sorted. */
  lemma {:induction false} InsertSorted(o: ElectiveOption, s: seq<ElectiveOption>)
    requires SortedByCode(s)
    ensures SortedByCode(Insert(o, s))
  {
    if s != [] {
      if LexLess(o.code, s[0].code) {
        InsertInFront(o, s);
      } else {
        InsertSorted(o, s[1..]);
        InsertElements(o, s[1..]);
        var t := Insert(o, s[1..]);
        forall x | x in t
          ensures !LexLess(x.code, s[0].code)
        {
          if x != o {
            var k :| 0 <= k < |s[1..]| && s[1..][k] == x;
            assert s[k + 1] == x;
          }
        }
      }
    }
  }

  /** An entry whose code comes before the first code of a sorted list can go in front. */
  lemma InsertInFront(o: ElectiveOption, s: seq<ElectiveOption>)
    requires SortedByCode(s) && s != [] && LexLess(o.code, s[0].code)
    ensures SortedByCode([o] + s)
  {
    var r := [o] + s;
    forall j | 0 < j < |r|
      ensures !LexLess(r[j].code, o.code)
    {
      LexLessAsymmetric(o.code, s[0].code);
      LexLessChain(r[j].code, o.code, s[0].code);
      LexLessIrreflexive(s[0].code);
      assert !LexLess(s[j - 1].code, s[0].code);
    }
  }

  /** Sorting yields a sorted rearrangement of its input. */
  lemma {:induction false} SortByCodeSorted(s: seq<ElectiveOption>)
    ensures SortedByCode(SortByCode(s))
    ensures multiset(SortByCode(s)) == multiset(s)
  {
    if s != [] {
      var init := s[..|s| - 1];
      SortByCodeSorted(init);
      InsertSorted(s[|s| - 1], SortByCode(init));
      InsertElements(s[|s| - 1], SortByCode(init));
      assert s == init + [s[|s| - 1]];
      assert multiset(s) == multiset(init) + multiset{s[|s| - 1]};
    }
  }

  /** With distinct codes a sorted list is strictly ascending. */
  lemma SortedStrictly(s: seq<ElectiveOption>)
    requires SortedByCode(s)
    requires forall i, j :: 0 <= i < j < |s| ==> s[i].code != s[j].code
    ensures forall i, j :: 0 <= i < j < |s| ==> LexLess(s[i].code, s[j].code)
  {
    forall i, j | 0 <= i < j < |s|
      ensures LexLess(s[i].code, s[j].code)
    {
      LexLessTotal(s[i].code, s[j].code);
    }
  }

  // ----- getElectiveOptions -----

  /** Lines 253-259: `selectedInOtherSlots`. */
  method CollectHeldElsewhere(sel: Assignment, slot: string) returns (selectedInOtherSlots: set<string>)
    ensures selectedInOtherSlots == HeldElsewhere(sel, slot, sel.keys)
  {
    selectedInOtherSlots := {};
    var slots := sel.keys;
    for i := 0 to |slots|
      invariant selectedInOtherSlots == HeldElsewhere(sel, slot, slots[..i])
    {
      var otherSlot := slots[i];
      assert slots[..i + 1] == slots[..i] + [otherSlot];
      if otherSlot in sel.values {
        var selectedCode := sel.values[otherSlot];
        if otherSlot != slot && selectedCode.Some? {
          selectedInOtherSlots := selectedInOtherSlots + {selectedCode.value};
        }
      }
    }
    assert slots[..|slots|] == slots;
  }

  /** Lines 242-280, `getElectiveOptions`: the entries sorted by code, or the TypeError of
      reading the semester of a slot that is not a course. */
  method GetElectiveOptions(cat: Catalog, slot: string, sel: Assignment) returns (r: Result<seq<ElectiveOption>>)
    ensures r.TypeError? ==> slot !in cat.materias.values
    ensures slot !in cat.materias.values ==> r.TypeError?
    ensures r.Ok? ==> r.value == SortByCode(OptionsOf(cat, sel, slot, cat.materias.values[slot].semestre, cat.electivas.keys))
  {
    if slot !in cat.materias.values {
      return TypeError;
    }
    var slotSemester := cat.materias.values[slot].semestre;
    var options: seq<ElectiveOption> := [];
    var selectedInOtherSlots := CollectHeldElsewhere(sel, slot);
    var codes := cat.electivas.keys;
    for i := 0 to |codes|
      invariant options == OptionsOf(cat, sel, slot, slotSemester, codes[..i])
    {
      var code := codes[i];
      assert codes[..i + 1][..i] == codes[..i];
      if code in cat.electivas.values {
        var elective := cat.electivas.values[code];
        var allPrereqsMet := PrerequisitesMet(cat, elective.previas, slotSemester);
        var isUsedElsewhere := code in selectedInOtherSlots;
        options := options + [ElectiveOption(code, elective.name, allPrereqsMet && !isUsedElsewhere)];
      }
    }
    assert codes[..|codes|] == codes;
    return Ok(SortByCode(options));
  }

  // ----- Properties -----

  /** The entries before sorting are those of the listed electives, each once and in order. */
  lemma {:induction false} OptionsOfCodes(cat: Catalog, sel: Assignment, slot: string, slotSemester: nat, codes: seq<string>)
    ensures forall o :: o in OptionsOf(cat, sel, slot, slotSemester, codes) ==>
      o.code in codes && o.code in cat.electivas.values && o == OptionFor(cat, sel, slot, slotSemester, o.code)
    ensures forall c :: c in codes && c in cat.electivas.values ==> OptionFor(cat, sel, slot, slotSemester, c) in OptionsOf(cat, sel, slot, slotSemester, codes)
    ensures NoDup(codes) ==> forall i, j :: 0 <= i < j < |OptionsOf(cat, sel, slot, slotSemester, codes)| ==>
      OptionsOf(cat, sel, slot, slotSemester, codes)[i].code != OptionsOf(cat, sel, slot, slotSemester, codes)[j].code
  {
    if codes != [] {
      var init := codes[..|codes| - 1];
      var c := codes[|codes| - 1];
      OptionsOfCodes(cat, sel, slot, slotSemester, init);
      assert codes == init + [c];
      if NoDup(codes) {
        assert NoDup(init);
        assert c !in init;
      }
    }
  }

  /** Entries have distinct codes. */
  predicate DistinctCodes(s: seq<ElectiveOption>) {
    forall i, j :: 0 <= i < j < |s| ==> s[i].code != s[j].code
  }

  /** A rearrangement of entries with distinct codes has distinct codes. */
  lemma RearrangedDistinct(s: seq<ElectiveOption>, r: seq<ElectiveOption>)
    requires DistinctCodes(s) && multiset(r) == multiset(s)
    ensures DistinctCodes(r)
  {
    assert NoDup(s);
    forall i, j | 0 <= i < j < |r|
      ensures r[i].code != r[j].code
    {
      if r[i].code == r[j].code {
        assert r[i] in multiset(s) && r[j] in multiset(s);
        var a :| 0 <= a < |s| && s[a] == r[i];
        var b :| 0 <= b < |s| && s[b] == r[j];
        assert a == b;
        CountTwo(r, i, j);
        NoDupCount(s, r[i]);
      }
    }
  }

  /** Lines 261-279: the result has exactly one entry per elective, with its name, and is sorted
      strictly by code. */
  lemma OptionsPerElective(cat: Catalog, sel: Assignment, slot: string, slotSemester: nat)
    requires cat.electivas.Valid()
    ensures var r := SortByCode(OptionsOf(cat, sel, slot, slotSemester, cat.electivas.keys));
      && (forall o :: o in r ==>
            o.code in cat.electivas.values && o.name == cat.electivas.values[o.code].name && o == OptionFor(cat, sel, slot, slotSemester, o.code))
      && (forall c :: c in cat.electivas.values ==> exists i :: 0 <= i < |r| && r[i].code == c)
      && (forall i, j :: 0 <= i < j < |r| ==> LexLess(r[i].code, r[j].code))
  {
    var s := OptionsOf(cat, sel, slot, slotSemester, cat.electivas.keys);
    var r := SortByCode(s);
    OptionsOfCodes(cat, sel, slot, slotSemester, cat.electivas.keys);
    SortByCodeSorted(s);
    forall o | o in r
      ensures o.code in cat.electivas.values && o.name == cat.electivas.values[o.code].name
        && o == OptionFor(cat, sel, slot, slotSemester, o.code)
    {
      assert o in multiset(s);
    }
    forall c | c in cat.electivas.values
      ensures exists i :: 0 <= i < |r| && r[i].code == c
    {
      var o := OptionFor(cat, sel, slot, slotSemester, c);
      assert o in multiset(r);
      var i :| 0 <= i < |r| && r[i] == o;
    }
    RearrangedDistinct(s, r);
    SortedStrictly(r);
  }

  /** Lines 263-275: an elective is offered as available exactly when each of its prerequisites
      is a course of a strictly earlier semester than the slot, or is not a course at all, and no
      other slot holds it; the slot's own assignment does not count against it. */
  lemma AvailableExactly(cat: Catalog, sel: Assignment, slot: string, slotSemester: nat, code: string)
    requires code in cat.electivas.values
    ensures OptionFor(cat, sel, slot, slotSemester, code).available ==>
      (forall p :: p in cat.electivas.values[code].previas && p in cat.materias.values ==> cat.materias.values[p].semestre < slotSemester)
      && (forall p :: p in cat.electivas.values[code].previas && p !in cat.materias.values ==> 0 < slotSemester)
      && (forall k :: k in sel.keys && k != slot ==> sel.Get(k) != Some(Some(code)))
    ensures
      (forall p :: p in cat.electivas.values[code].previas && p in cat.materias.values ==> cat.materias.values[p].semestre < slotSemester)
      && (forall p :: p in cat.electivas.values[code].previas && p !in cat.materias.values ==> 0 < slotSemester)
      && (forall k :: k in sel.keys && k != slot ==> sel.Get(k) != Some(Some(code)))
      ==> OptionFor(cat, sel, slot, slotSemester, code).available
  {
    var previas := cat.electivas.values[code].previas;
    if OptionFor(cat, sel, slot, slotSemester, code).available {
      forall p | p in previas && p in cat.materias.values
        ensures cat.materias.values[p].semestre < slotSemester
      {
        assert PrerequisiteSemester(cat, p) < slotSemester;
      }
      forall p | p in previas && p !in cat.materias.values
        ensures 0 < slotSemester
      {
        assert PrerequisiteSemester(cat, p) < slotSemester;
      }
    }
  }

  /** An elective another slot holds is never available, whatever its prerequisites. */
  lemma HeldElsewhereUnavailable(cat: Catalog, sel: Assignment, slot: string, slotSemester: nat, code: string, other: string)
    requires code in cat.electivas.values
    requires other in sel.keys && other != slot && sel.Get(other) == Some(Some(code))
    ensures !OptionFor(cat, sel, slot, slotSemester, code).available
  {
    assert code in HeldElsewhere(sel, slot, sel.keys);
  }

  /** A prerequisite from the slot's own semester or a later one makes an elective unavailable:
      the comparison is strict. */
  lemma SameSemesterBlocks(cat: Catalog, sel: Assignment, slot: string, slotSemester: nat, code: string, p: string)
    requires code in cat.electivas.values && p in cat.electivas.values[code].previas
    requires p in cat.materias.values && slotSemester <= cat.materias.values[p].semestre
    ensures !OptionFor(cat, sel, slot, slotSemester, code).available
  {
    assert PrerequisiteSemester(cat, p) >= slotSemester;
  }

  /** In the curriculum the code `PIS` that `VCO` and `ROB` list is not a course and so never
      stands in the way: for any slot, their availability depends only on their course
      prerequisites and on the other slots. */
  lemma PisNeverBlocks(sel: Assignment, slot: string, code: string)
    requires slot in Materias.values && code in Electivas.values
    ensures PrerequisitesMet(Curriculum, Electivas.values[code].previas, Materias.values[slot].semestre) <==>
      forall p :: p in Electivas.values[code].previas && p != "PIS" ==> PrerequisiteSemester(Curriculum, p) < Materias.values[slot].semestre
  {
    ElectivePrerequisites();
    SemestersHaveColors();
  }
}
