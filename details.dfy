/** `getCourseDetails` of client/src/lib/curriculumUtils.ts: what the detail panel shows for a
    selected code. */
module CourseDetails {
  import opened Wrappers
  import opened Records
  import opened Schema
  import opened Selection
  import opened CurriculumGraph

  /** The panel's fields; `color` is `None` when the semester has no palette entry. */
  datatype Details = Details(code: string, name: string, semestre: nat, creditos: int, color: Option<string>)

  /** Lines 177-201: a slot with a truthy assignment shows the elective's code, name and
      prerequisites with the slot's semester and credits; any other code shows its own course. The
      result is `null` (here `Ok(None)`) for a code with no course, and the lookups of the
      elective's name and the slot's semester throw when the elective or the slot is missing. */
  function GetCourseDetails(cat: Catalog, code: string, sel: Assignment): (r: Result<Option<Details>>)
    ensures r.TypeError? ==> IsSlot(code) && Assigned(sel, code).Some?
    ensures r.TypeError? ==> Assigned(sel, code).value !in cat.electivas.values || code !in cat.materias.values
    ensures IsSlot(code) && Assigned(sel, code).Some? && Assigned(sel, code).value !in cat.electivas.values ==> r.TypeError?
    ensures IsSlot(code) && Assigned(sel, code).Some? && code !in cat.materias.values ==> r.TypeError?
    ensures r.Ok? && r.value.None? ==> code !in cat.materias.values
    ensures r.Ok? && code !in cat.materias.values ==> r.value.None?
    ensures r.Ok? && r.value.Some? ==>
      && code in cat.materias.values
      && r.value.value.semestre == cat.materias.values[code].semestre
      && r.value.value.creditos == cat.materias.values[code].creditos
      && r.value.value.color == ColorOf(cat, r.value.value.semestre)
  {
    if IsSlot(code) && Assigned(sel, code).Some? then
      var actualCode := Assigned(sel, code).value;
      if actualCode !in cat.electivas.values || code !in cat.materias.values then TypeError
      else
        var elective := cat.electivas.values[actualCode];
        var slot := cat.materias.values[code];
        Ok(Some(Details(actualCode, elective.name, slot.semestre, slot.creditos, ColorOf(cat, slot.semestre))))
    else if code !in cat.materias.values then Ok(None)
    else
      var course := cat.materias.values[code];
      Ok(Some(Details(code, course.name, course.semestre, course.creditos, ColorOf(cat, course.semestre))))
  }

  /** The panel shows the code and name the course's node shows, and fails exactly when drawing
      that node fails. */
  lemma DetailsMatchNode(cat: Catalog, code: string, sel: Assignment)
    requires code in cat.materias.values
    ensures GetCourseDetails(cat, code, sel).TypeError? <==> Display(cat, sel, code).TypeError?
    ensures GetCourseDetails(cat, code, sel).Ok? ==>
      && GetCourseDetails(cat, code, sel).value.Some?
      && GetCourseDetails(cat, code, sel).value.value.code == Display(cat, sel, code).value.code
      && GetCourseDetails(cat, code, sel).value.value.name == Display(cat, sel, code).value.name
  {
  }

  /** In the curriculum every course's panel has a colour, since every semester has one. */
  lemma CurriculumDetailsColored(code: string, sel: Assignment)
    ensures GetCourseDetails(Curriculum, code, sel).Ok? && GetCourseDetails(Curriculum, code, sel).value.Some? ==>
      var d := GetCourseDetails(Curriculum, code, sel).value.value;
      d.semestre in SemestreColors && d.color == Some(SemestreColors[d.semestre])
  {
    SemestersHaveColors();
  }

  /** In the curriculum a course's panel fails exactly when the course is a slot holding a truthy
      code that is not an elective. */
  lemma CurriculumDetailsFail(code: string, sel: Assignment)
    requires code in Materias.values
    ensures GetCourseDetails(Curriculum, code, sel).TypeError? <==>
      IsSlot(code) && Assigned(sel, code).Some? && Assigned(sel, code).value !in Electivas.values
  {
  }
}
