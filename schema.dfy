/** The curriculum tables of shared/schema.ts: the course table `Materias`, the elective catalog
    `Electivas` and the semester palette `semestreColors`, with the facts about them that the
    engine relies on. */
module Schema {
  import opened Records
  import opened Strings

  /** A required course (`Course`): display name, credits, the semester column it occupies and
      the codes of its direct prerequisites. Semesters are non-negative integers. */
  datatype Course = Course(name: string, creditos: int, semestre: nat, previas: seq<string>)

  /** An elective (`Elective`): it has no semester or credits of its own; a slot lends it both. */
  datatype Elective = Elective(name: string, previas: seq<string>)

  /** The tables every engine function reads, passed in as one value. `colors` is keyed by the
      semester number; the source keys it by the number's decimal text. */
  datatype Catalog = Catalog(materias: Record<Course>, electivas: Record<Elective>, colors: map<nat, string>) {
    ghost predicate Valid() {
      materias.Valid() && electivas.Valid()
    }
  }

  /** An elective slot is a course whose code starts with this prefix. */
  const SlotPrefix: string := "OPT"

  predicate IsSlot(code: string) {
    StartsWith(code, SlotPrefix)
  }

  /** A slot code's first three characters are `O`, `P`, `T`. */
  lemma SlotSpelling(code: string)
    ensures IsSlot(code) ==> 3 <= |code| && code[0] == 'O' && code[1] == 'P' && code[2] == 'T'
  {
    if IsSlot(code) {
      assert code[..3] == SlotPrefix;
      assert code[0] == code[..3][0];
    }
  }

  /** The six slot codes, which are also the keys of the page's elective selection. */
  const SlotCodes: seq<string> := ["OPT1", "OPT2", "OPT3", "OPT4", "OPT5", "OPT6"]

  /** `semestreColors`: one colour per semester 1..8. */
  const SemestreColors: map<nat, string> := map[
    1 := "#A8DADC", 2 := "#B8E6F0", 3 := "#F4A6C8", 4 := "#FFD6A5",
    5 := "#FFCBB3", 6 := "#C5E8B7", 7 := "#9BD5C1", 8 := "#B4ADCF"
  ]

  // `Materias` is written in the source as eight consecutive groups of entries, one per
  // semester; here each group is a record of its own and the table is their join.

  /** The semester-1 entries of `Materias`. */
  const Semestre1Codes: seq<string> := ["INT", "FIS", "PRO1", "MDI", "MAT1", "ING1"]
  const Semestre1Courses: map<string, Course> := map[
    "INT" := Course("Introducción a la Ing. de Datos e IA", 4, 1, []),
    "FIS" := Course("Física para Ing. de Datos e IA", 10, 1, []),
    "PRO1" := Course("Programación I", 8, 1, []),
    "MDI" := Course("Matemática Discreta", 8, 1, []),
    "MAT1" := Course("Matemática I", 10, 1, []),
    "ING1" := Course("Inglés I", 4, 1, [])
  ]
  const Semestre1: Record<Course> := Record(Semestre1Codes, Semestre1Courses)

  /** The semester-2 entries of `Materias`. */
  const Semestre2Codes: seq<string> := ["EDA", "ARC", "PRO2", "ALL", "MAT2", "ING2"]
  const Semestre2Courses: map<string, Course> := map[
    "EDA" := Course("Estructuras de Datos y Algoritmos", 8, 2, ["PRO1", "MDI"]),
    "ARC" := Course("Arquitectura de Computadoras", 8, 2, ["MDI"]),
    "PRO2" := Course("Programación II", 8, 2, ["PRO1"]),
    "ALL" := Course("Álgebra Lineal", 8, 2, []),
    "MAT2" := Course("Matemática II", 10, 2, ["MAT1"]),
    "ING2" := Course("Inglés II", 4, 2, ["ING1"])
  ]
  const Semestre2: Record<Course> := Record(Semestre2Codes, Semestre2Courses)

  /** The semester-3 entries of `Materias`. */
  const Semestre3Codes: seq<string> := ["SOP", "BDR", "TALF", "MNC", "PRE", "ING3"]
  const Semestre3Courses: map<string, Course> := map[
    "SOP" := Course("Sistemas Operativos", 8, 3, ["ARC"]),
    "BDR" := Course("Bases de Datos Relacionales", 8, 3, ["EDA"]),
    "TALF" := Course("Teoría de Autómatas y Lenguajes Formales", 8, 3, ["EDA"]),
    "MNC" := Course("Métodos Numéricos Computacionales", 8, 3, ["ALL", "PRO2"]),
    "PRE" := Course("Probabilidad y Estadística", 8, 3, ["MDI", "MAT1"]),
    "ING3" := Course("Inglés III", 4, 3, ["ING2"])
  ]
  const Semestre3: Record<Course> := Record(Semestre3Codes, Semestre3Courses)

  /** The semester-4 entries of `Materias`. */
  const Semestre4Codes: seq<string> := ["AA1", "BDN", "TITD", "MOP", "MIN", "ING4"]
  const Semestre4Courses: map<string, Course> := map[
    "AA1" := Course("Aprendizaje Automático I", 8, 4, ["PRE"]),
    "BDN" := Course("Bases de Datos NoSQL", 8, 4, ["BDR"]),
    "TITD" := Course("Teoría de la Info. y Transmisión de Datos", 8, 4, ["PRE"]),
    "MOP" := Course("Métodos de Optimización", 8, 4, ["ALL"]),
    "MIN" := Course("Metodología de la Investigación", 4, 4, []),
    "ING4" := Course("Inglés IV", 4, 4, ["ING3"])
  ]
  const Semestre4: Record<Course> := Record(Semestre4Codes, Semestre4Courses)

  /** The semester-5 entries of `Materias`. */
  const Semestre5Codes: seq<string> := ["AA2", "RCO", "OPT1", "ERS", "PID", "ING5"]
  const Semestre5Courses: map<string, Course> := map[
    "AA2" := Course("Aprendizaje Automático II", 8, 5, ["AA1"]),
    "RCO" := Course("Redes de Computadoras", 8, 5, ["TITD"]),
    "OPT1" := Course("Optativa I", 8, 5, []),
    "ERS" := Course("Ética y Responsabilidad Social en TI", 4, 5, []),
    "PID" := Course("Proyecto de Ingeniería de Datos", 8, 5, ["BDN"]),
    "ING5" := Course("Inglés V", 4, 5, ["ING4"])
  ]
  const Semestre5: Record<Course> := Record(Semestre5Codes, Semestre5Courses)

  /** The semester-6 entries of `Materias`. */
  const Semestre6Codes: seq<string> := ["OPT2", "AAA", "CSE", "LNPD", "PAA", "ING6"]
  const Semestre6Courses: map<string, Course> := map[
    "OPT2" := Course("Optativa II", 8, 6, []),
    "AAA" := Course("Aplicaciones del Aprendizaje Automático", 8, 6, ["AA2"]),
    "CSE" := Course("Ciberseguridad", 8, 6, ["RCO"]),
    "LNPD" := Course("Leyes y Normativas de Protección de Datos", 4, 6, []),
    "PAA" := Course("Proyecto de Aprendizaje Automático", 8, 6, ["AA2"]),
    "ING6" := Course("Inglés VI", 4, 6, ["ING5"])
  ]
  const Semestre6: Record<Course> := Record(Semestre6Codes, Semestre6Courses)

  /** The semester-7 entries of `Materias`. */
  const Semestre7Codes: seq<string> := ["OPT3", "OPT4", "APR", "IBD", "AOGP", "ING7"]
  const Semestre7Courses: map<string, Course> := map[
    "OPT3" := Course("Optativa III", 8, 7, []),
    "OPT4" := Course("Optativa IV", 8, 7, []),
    "APR" := Course("Aprendizaje Profundo", 8, 7, ["AAA", "PAA"]),
    "IBD" := Course("Infraestructura de Big Data", 8, 7, ["BDN", "PID"]),
    "AOGP" := Course("Adm. de Org. y Gestión de Proyectos", 4, 7, []),
    "ING7" := Course("Inglés VII", 4, 7, ["ING6"])
  ]
  const Semestre7: Record<Course> := Record(Semestre7Codes, Semestre7Courses)

  /** The semester-8 entries of `Materias`. */
  const Semestre8Codes: seq<string> := ["OPT5", "OPT6", "TFC", "ING8"]
  const Semestre8Courses: map<string, Course> := map[
    "OPT5" := Course("Optativa V", 8, 8, []),
    "OPT6" := Course("Optativa VI", 8, 8, []),
    "TFC" := Course("Trabajo Final de Carrera", 25, 8, ["PAA", "PID"]),
    "ING8" := Course("Inglés VIII", 4, 8, ["ING7"])
  ]
  const Semestre8: Record<Course> := Record(Semestre8Codes, Semestre8Courses)

  const MateriasBlocks: seq<Record<Course>> :=
    [Semestre1, Semestre2, Semestre3, Semestre4, Semestre5, Semestre6, Semestre7, Semestre8]

  /** `Materias`: every course, keyed by code, in table order. */
  const Materias: Record<Course> := Join(MateriasBlocks)

  /** `Electivas`: the elective catalog, keyed by code, in table order. */
  const ElectivasCodes: seq<string> := ["PACD", "ISO", "PIS", "SEM", "RES", "PDTR", "CNU", "VDM", "PLN", "VCO", "ROB", "ARS"]
  const ElectivasEntries: map<string, Elective> := map[
    "PACD" := Elective("Programación Avanzada para Ciencia de Datos", ["AA2"]),
    "ISO" := Elective("Ingeniería de Software", ["BDR"]),
    "PIS" := Elective("Procesamiento de Imágenes y Señales", ["TITD"]),
    "SEM" := Elective("Sistemas Embebidos", ["ARC"]),
    "RES" := Elective("Redes de Sensores", ["RCO"]),
    "PDTR" := Elective("Procesamiento de Datos en Tiempo Real", ["BDN"]),
    "CNU" := Elective("Computación en la Nube", ["RCO"]),
    "VDM" := Elective("Visualización de Datos Masivos", ["BDN"]),
    "PLN" := Elective("Procesamiento de Lenguaje Natural", ["APR"]),
    "VCO" := Elective("Visión Computacional", ["PIS"]),
    "ROB" := Elective("Introducción a la Robótica", ["AA2", "PIS"]),
    "ARS" := Elective("Análisis de Redes Sociales", ["AA2"])
  ]
  const Electivas: Record<Elective> := Record(ElectivasCodes, ElectivasEntries)

  /** The tables as the engine receives them. */
  const Curriculum: Catalog := Catalog(Materias, Electivas, SemestreColors)

  // ----- Facts about each semester group, checked entry by entry -----

  lemma Semestre1Valid()
    ensures Semestre1.Valid()
  {
  }

  lemma Semestre1InColumn()
    ensures forall k :: k in Semestre1Courses ==> Semestre1Courses[k].semestre == 1
  {
  }

  lemma Semestre1SlotsA()
    ensures forall k :: k in Semestre1Courses && k !in SlotCodes ==> !IsSlot(k)
  {
    forall k | k in Semestre1Courses && k !in SlotCodes
      ensures !IsSlot(k)
    {
      SlotSpelling(k);
    }
  }

  lemma Semestre1SlotsB()
    ensures forall k :: k in Semestre1Courses && k in SlotCodes ==> IsSlot(k)
  {
  }

  lemma Semestre1Earlier()
    ensures forall k, p :: k in Semestre1Courses && p in Semestre1Courses[k].previas ==> false
  {
  }

  lemma Semestre2Valid()
    ensures Semestre2.Valid()
  {
  }

  lemma Semestre2InColumn()
    ensures forall k :: k in Semestre2Courses ==> Semestre2Courses[k].semestre == 2
  {
  }

  lemma Semestre2SlotsA()
    ensures forall k :: k in Semestre2Courses && k !in SlotCodes ==> !IsSlot(k)
  {
    forall k | k in Semestre2Courses && k !in SlotCodes
      ensures !IsSlot(k)
    {
      SlotSpelling(k);
    }
  }

  lemma Semestre2SlotsB()
    ensures forall k :: k in Semestre2Courses && k in SlotCodes ==> IsSlot(k)
  {
  }

  lemma Semestre2Earlier()
    ensures forall k, p :: k in Semestre2Courses && p in Semestre2Courses[k].previas ==> p in Semestre1Codes
  {
  }

  lemma Semestre3Valid()
    ensures Semestre3.Valid()
  {
  }

  lemma Semestre3InColumn()
    ensures forall k :: k in Semestre3Courses ==> Semestre3Courses[k].semestre == 3
  {
  }

  lemma Semestre3SlotsA()
    ensures forall k :: k in Semestre3Courses && k !in SlotCodes ==> !IsSlot(k)
  {
    forall k | k in Semestre3Courses && k !in SlotCodes
      ensures !IsSlot(k)
    {
      SlotSpelling(k);
    }
  }

  lemma Semestre3SlotsB()
    ensures forall k :: k in Semestre3Courses && k in SlotCodes ==> IsSlot(k)
  {
  }

  lemma Semestre3Earlier()
    ensures forall k, p :: k in Semestre3Courses && p in Semestre3Courses[k].previas ==> p in Semestre1Codes || p in Semestre2Codes
  {
  }

  lemma Semestre4Valid()
    ensures Semestre4.Valid()
  {
  }

  lemma Semestre4InColumn()
    ensures forall k :: k in Semestre4Courses ==> Semestre4Courses[k].semestre == 4
  {
  }

  lemma Semestre4SlotsA()
    ensures forall k :: k in Semestre4Courses && k !in SlotCodes ==> !IsSlot(k)
  {
    forall k | k in Semestre4Courses && k !in SlotCodes
      ensures !IsSlot(k)
    {
      SlotSpelling(k);
    }
  }

  lemma Semestre4SlotsB()
    ensures forall k :: k in Semestre4Courses && k in SlotCodes ==> IsSlot(k)
  {
  }

  lemma Semestre4Earlier()
    ensures forall k, p :: k in Semestre4Courses && p in Semestre4Courses[k].previas ==> p in Semestre1Codes || p in Semestre2Codes || p in Semestre3Codes
  {
  }

  lemma Semestre5Valid()
    ensures Semestre5.Valid()
  {
  }

  lemma Semestre5InColumn()
    ensures forall k :: k in Semestre5Courses ==> Semestre5Courses[k].semestre == 5
  {
  }

  lemma Semestre5SlotsA()
    ensures forall k :: k in Semestre5Courses && k !in SlotCodes ==> !IsSlot(k)
  {
    forall k | k in Semestre5Courses && k !in SlotCodes
      ensures !IsSlot(k)
    {
      SlotSpelling(k);
    }
  }

  lemma Semestre5SlotsB()
    ensures forall k :: k in Semestre5Courses && k in SlotCodes ==> IsSlot(k)
  {
  }

  lemma Semestre5Earlier()
    ensures forall k, p :: k in Semestre5Courses && p in Semestre5Courses[k].previas ==> p in Semestre1Codes || p in Semestre2Codes || p in Semestre3Codes || p in Semestre4Codes
  {
  }

  lemma Semestre6Valid()
    ensures Semestre6.Valid()
  {
  }

  lemma Semestre6InColumn()
    ensures forall k :: k in Semestre6Courses ==> Semestre6Courses[k].semestre == 6
  {
  }

  lemma Semestre6SlotsA()
    ensures forall k :: k in Semestre6Courses && k !in SlotCodes ==> !IsSlot(k)
  {
    forall k | k in Semestre6Courses && k !in SlotCodes
      ensures !IsSlot(k)
    {
      SlotSpelling(k);
    }
  }

  lemma Semestre6SlotsB()
    ensures forall k :: k in Semestre6Courses && k in SlotCodes ==> IsSlot(k)
  {
  }

  lemma Semestre6Earlier()
    ensures forall k, p :: k in Semestre6Courses && p in Semestre6Courses[k].previas ==> p in Semestre1Codes || p in Semestre2Codes || p in Semestre3Codes || p in Semestre4Codes || p in Semestre5Codes
  {
  }

  lemma Semestre7Valid()
    ensures Semestre7.Valid()
  {
  }

  lemma Semestre7InColumn()
    ensures forall k :: k in Semestre7Courses ==> Semestre7Courses[k].semestre == 7
  {
  }

  lemma Semestre7SlotsA()
    ensures forall k :: k in Semestre7Courses && k !in SlotCodes ==> !IsSlot(k)
  {
    forall k | k in Semestre7Courses && k !in SlotCodes
      ensures !IsSlot(k)
    {
      SlotSpelling(k);
    }
  }

  lemma Semestre7SlotsB()
    ensures forall k :: k in Semestre7Courses && k in SlotCodes ==> IsSlot(k)
  {
  }

  lemma Semestre7Earlier()
    ensures forall k, p :: k in Semestre7Courses && p in Semestre7Courses[k].previas ==> p in Semestre1Codes || p in Semestre2Codes || p in Semestre3Codes || p in Semestre4Codes || p in Semestre5Codes || p in Semestre6Codes
  {
  }

  lemma Semestre8Valid()
    ensures Semestre8.Valid()
  {
  }

  lemma Semestre8InColumn()
    ensures forall k :: k in Semestre8Courses ==> Semestre8Courses[k].semestre == 8
  {
  }

  lemma Semestre8SlotsA()
    ensures forall k :: k in Semestre8Courses && k !in SlotCodes ==> !IsSlot(k)
  {
    forall k | k in Semestre8Courses && k !in SlotCodes
      ensures !IsSlot(k)
    {
      SlotSpelling(k);
    }
  }

  lemma Semestre8SlotsB()
    ensures forall k :: k in Semestre8Courses && k in SlotCodes ==> IsSlot(k)
  {
  }

  lemma Semestre8Earlier()
    ensures forall k, p :: k in Semestre8Courses && p in Semestre8Courses[k].previas ==> p in Semestre1Codes || p in Semestre2Codes || p in Semestre3Codes || p in Semestre4Codes || p in Semestre5Codes || p in Semestre6Codes || p in Semestre7Codes
  {
  }

  lemma Semestre1Apart()
    ensures (forall k :: k in Semestre1Codes ==> k !in Semestre2Codes) && (forall k :: k in Semestre1Codes ==> k !in Semestre3Codes) && (forall k :: k in Semestre1Codes ==> k !in Semestre4Codes) && (forall k :: k in Semestre1Codes ==> k !in Semestre5Codes) && (forall k :: k in Semestre1Codes ==> k !in Semestre6Codes) && (forall k :: k in Semestre1Codes ==> k !in Semestre7Codes) && (forall k :: k in Semestre1Codes ==> k !in Semestre8Codes)
  {
  }

  lemma Semestre1ApartFromElectivas()
    ensures forall k :: k in Semestre1Codes ==> k !in ElectivasCodes
  {
  }

  lemma Semestre2Apart()
    ensures (forall k :: k in Semestre2Codes ==> k !in Semestre3Codes) && (forall k :: k in Semestre2Codes ==> k !in Semestre4Codes) && (forall k :: k in Semestre2Codes ==> k !in Semestre5Codes) && (forall k :: k in Semestre2Codes ==> k !in Semestre6Codes) && (forall k :: k in Semestre2Codes ==> k !in Semestre7Codes) && (forall k :: k in Semestre2Codes ==> k !in Semestre8Codes)
  {
  }

  lemma Semestre2ApartFromElectivas()
    ensures forall k :: k in Semestre2Codes ==> k !in ElectivasCodes
  {
  }

  lemma Semestre3Apart()
    ensures (forall k :: k in Semestre3Codes ==> k !in Semestre4Codes) && (forall k :: k in Semestre3Codes ==> k !in Semestre5Codes) && (forall k :: k in Semestre3Codes ==> k !in Semestre6Codes) && (forall k :: k in Semestre3Codes ==> k !in Semestre7Codes) && (forall k :: k in Semestre3Codes ==> k !in Semestre8Codes)
  {
  }

  lemma Semestre3ApartFromElectivas()
    ensures forall k :: k in Semestre3Codes ==> k !in ElectivasCodes
  {
  }

  lemma Semestre4Apart()
    ensures (forall k :: k in Semestre4Codes ==> k !in Semestre5Codes) && (forall k :: k in Semestre4Codes ==> k !in Semestre6Codes) && (forall k :: k in Semestre4Codes ==> k !in Semestre7Codes) && (forall k :: k in Semestre4Codes ==> k !in Semestre8Codes)
  {
  }

  lemma Semestre4ApartFromElectivas()
    ensures forall k :: k in Semestre4Codes ==> k !in ElectivasCodes
  {
  }

  lemma Semestre5Apart()
    ensures (forall k :: k in Semestre5Codes ==> k !in Semestre6Codes) && (forall k :: k in Semestre5Codes ==> k !in Semestre7Codes) && (forall k :: k in Semestre5Codes ==> k !in Semestre8Codes)
  {
  }

  lemma Semestre5ApartFromElectivas()
    ensures forall k :: k in Semestre5Codes ==> k !in ElectivasCodes
  {
  }

  lemma Semestre6Apart()
    ensures (forall k :: k in Semestre6Codes ==> k !in Semestre7Codes) && (forall k :: k in Semestre6Codes ==> k !in Semestre8Codes)
  {
  }

  lemma Semestre6ApartFromElectivas()
    ensures forall k :: k in Semestre6Codes ==> k !in ElectivasCodes
  {
  }

  lemma Semestre7Apart()
    ensures (forall k :: k in Semestre7Codes ==> k !in Semestre8Codes)
  {
  }

  lemma Semestre7ApartFromElectivas()
    ensures forall k :: k in Semestre7Codes ==> k !in ElectivasCodes
  {
  }

  lemma Semestre8ApartFromElectivas()
    ensures forall k :: k in Semestre8Codes ==> k !in ElectivasCodes
  {
  }

  // ----- The same facts, indexed by group -----

  lemma BlockValid(i: nat)
    requires i < |MateriasBlocks|
    ensures MateriasBlocks[i].Valid()
  {
    if i == 0 { Semestre1Valid(); } else if i == 1 { Semestre2Valid(); }
    else if i == 2 { Semestre3Valid(); } else if i == 3 { Semestre4Valid(); }
    else if i == 4 { Semestre5Valid(); } else if i == 5 { Semestre6Valid(); }
    else if i == 6 { Semestre7Valid(); } else { Semestre8Valid(); }
  }

  lemma BlockInColumn(i: nat)
    requires i < |MateriasBlocks|
    ensures forall k :: k in MateriasBlocks[i].values ==> MateriasBlocks[i].values[k].semestre == i + 1
  {
    if i == 0 { Semestre1InColumn(); } else if i == 1 { Semestre2InColumn(); }
    else if i == 2 { Semestre3InColumn(); } else if i == 3 { Semestre4InColumn(); }
    else if i == 4 { Semestre5InColumn(); } else if i == 5 { Semestre6InColumn(); }
    else if i == 6 { Semestre7InColumn(); } else { Semestre8InColumn(); }
  }

  lemma BlockSlots(i: nat)
    requires i < |MateriasBlocks|
    ensures forall k :: k in MateriasBlocks[i].values && IsSlot(k) ==> k in SlotCodes
    ensures forall k :: k in MateriasBlocks[i].values && k in SlotCodes ==> IsSlot(k)
  {
    if i == 0 { Semestre1SlotsA(); Semestre1SlotsB(); } else if i == 1 { Semestre2SlotsA(); Semestre2SlotsB(); }
    else if i == 2 { Semestre3SlotsA(); Semestre3SlotsB(); } else if i == 3 { Semestre4SlotsA(); Semestre4SlotsB(); }
    else if i == 4 { Semestre5SlotsA(); Semestre5SlotsB(); } else if i == 5 { Semestre6SlotsA(); Semestre6SlotsB(); }
    else if i == 6 { Semestre7SlotsA(); Semestre7SlotsB(); } else { Semestre8SlotsA(); Semestre8SlotsB(); }
  }

  lemma BlocksApart(i: nat, j: nat)
    requires i < j < |MateriasBlocks|
    ensures Apart(MateriasBlocks[i], MateriasBlocks[j])
  {
    if i == 0 { Semestre1Apart(); } else if i == 1 { Semestre2Apart(); }
    else if i == 2 { Semestre3Apart(); } else if i == 3 { Semestre4Apart(); }
    else if i == 4 { Semestre5Apart(); } else if i == 5 { Semestre6Apart(); }
    else { Semestre7Apart(); }
  }

  /** No code of group `i` is an elective code. */
  lemma BlockApartFromElectivas(i: nat)
    requires i < |MateriasBlocks|
    ensures forall k :: k in MateriasBlocks[i].keys ==> k !in ElectivasCodes
  {
    if i == 0 { Semestre1ApartFromElectivas(); } else if i == 1 { Semestre2ApartFromElectivas(); }
    else if i == 2 { Semestre3ApartFromElectivas(); } else if i == 3 { Semestre4ApartFromElectivas(); }
    else if i == 4 { Semestre5ApartFromElectivas(); } else if i == 5 { Semestre6ApartFromElectivas(); }
    else if i == 6 { Semestre7ApartFromElectivas(); } else { Semestre8ApartFromElectivas(); }
  }

  // ----- Facts about the whole table -----

  /** `Materias` is a well-formed record and holds every group's entries unchanged. */
  lemma MateriasLayout()
    ensures Materias.Valid()
    ensures forall i, k :: 0 <= i < |MateriasBlocks| && k in MateriasBlocks[i].values ==> k in Materias.values && Materias.values[k] == MateriasBlocks[i].values[k]
  {
    forall i | 0 <= i < |MateriasBlocks|
      ensures MateriasBlocks[i].Valid()
    {
      BlockValid(i);
    }
    forall i, j | 0 <= i < j < |MateriasBlocks|
      ensures Apart(MateriasBlocks[i], MateriasBlocks[j])
    {
      BlocksApart(i, j);
    }
    JoinValid(MateriasBlocks);
  }

  /** The group a course's row comes from. */
  lemma GroupOf(k: string) returns (i: nat)
    requires k in Materias.values
    ensures i < |MateriasBlocks| && k in MateriasBlocks[i].values && Materias.values[k] == MateriasBlocks[i].values[k]
  {
    JoinMember(MateriasBlocks, k);
    i :| 0 <= i < |MateriasBlocks| && k in MateriasBlocks[i].values && Materias.values[k] == MateriasBlocks[i].values[k];
  }

  lemma Semestre1InMaterias()
    ensures forall k :: k in Semestre1Courses ==> k in Materias.values && Materias.values[k] == Semestre1Courses[k]
  {
    MateriasLayout();
    assert MateriasBlocks[0] == Semestre1;
  }

  lemma Semestre2InMaterias()
    ensures forall k :: k in Semestre2Courses ==> k in Materias.values && Materias.values[k] == Semestre2Courses[k]
  {
    MateriasLayout();
    assert MateriasBlocks[1] == Semestre2;
  }

  lemma Semestre3InMaterias()
    ensures forall k :: k in Semestre3Courses ==> k in Materias.values && Materias.values[k] == Semestre3Courses[k]
  {
    MateriasLayout();
    assert MateriasBlocks[2] == Semestre3;
  }

  lemma Semestre4InMaterias()
    ensures forall k :: k in Semestre4Courses ==> k in Materias.values && Materias.values[k] == Semestre4Courses[k]
  {
    MateriasLayout();
    assert MateriasBlocks[3] == Semestre4;
  }

  lemma Semestre5InMaterias()
    ensures forall k :: k in Semestre5Courses ==> k in Materias.values && Materias.values[k] == Semestre5Courses[k]
  {
    MateriasLayout();
    assert MateriasBlocks[4] == Semestre5;
  }

  lemma Semestre6InMaterias()
    ensures forall k :: k in Semestre6Courses ==> k in Materias.values && Materias.values[k] == Semestre6Courses[k]
  {
    MateriasLayout();
    assert MateriasBlocks[5] == Semestre6;
  }

  lemma Semestre7InMaterias()
    ensures forall k :: k in Semestre7Courses ==> k in Materias.values && Materias.values[k] == Semestre7Courses[k]
  {
    MateriasLayout();
    assert MateriasBlocks[6] == Semestre7;
  }

  lemma Semestre8InMaterias()
    ensures forall k :: k in Semestre8Courses ==> k in Materias.values && Materias.values[k] == Semestre8Courses[k]
  {
    MateriasLayout();
    assert MateriasBlocks[7] == Semestre8;
  }

  /** Every code listed in group `j` is a course of semester `j + 1`. */
  lemma CodesInColumn(j: nat)
    requires j < |MateriasBlocks|
    ensures forall p :: p in MateriasBlocks[j].keys ==> p in Materias.values && Materias.values[p].semestre == j + 1
  {
    MateriasLayout();
    BlockValid(j);
    BlockInColumn(j);
  }

  lemma BlockPrerequisitesEarlier(i: nat)
    requires i < |MateriasBlocks|
    ensures forall k, p :: k in MateriasBlocks[i].values && p in MateriasBlocks[i].values[k].previas ==> p in Materias.values && Materias.values[p].semestre <= i
  {
    if i == 0 { Semestre1Earlier();  }
    else if i == 1 { Semestre2Earlier(); CodesInColumn(0); }
    else if i == 2 { Semestre3Earlier(); CodesInColumn(0); CodesInColumn(1); }
    else if i == 3 { Semestre4Earlier(); CodesInColumn(0); CodesInColumn(1); CodesInColumn(2); }
    else if i == 4 { Semestre5Earlier(); CodesInColumn(0); CodesInColumn(1); CodesInColumn(2); CodesInColumn(3); }
    else if i == 5 { Semestre6Earlier(); CodesInColumn(0); CodesInColumn(1); CodesInColumn(2); CodesInColumn(3); CodesInColumn(4); }
    else if i == 6 { Semestre7Earlier(); CodesInColumn(0); CodesInColumn(1); CodesInColumn(2); CodesInColumn(3); CodesInColumn(4); CodesInColumn(5); }
    else { Semestre8Earlier(); CodesInColumn(0); CodesInColumn(1); CodesInColumn(2); CodesInColumn(3); CodesInColumn(4); CodesInColumn(5); CodesInColumn(6); }
  }

  /** Every course sits in one of the semesters 1..8, each of which has a colour, so the colour
      lookups of the graph and of the details panel always find one. */
  lemma SemestersHaveColors()
    ensures forall k :: k in Materias.values ==> 1 <= Materias.values[k].semestre <= 8
    ensures forall k :: k in Materias.values ==> Materias.values[k].semestre in SemestreColors
  {
    forall k | k in Materias.values
      ensures 1 <= Materias.values[k].semestre <= 8 && Materias.values[k].semestre in SemestreColors
    {
      SemesterInRange(k);
      PaletteCovers(Materias.values[k].semestre);
    }
  }

  /** The palette has an entry for each of the semesters 1..8. */
  lemma PaletteCovers(s: nat)
    requires 1 <= s <= 8
    ensures s in SemestreColors
  {
  }

  /** A course's semester is that of its group, one of 1..8. */
  lemma SemesterInRange(k: string)
    requires k in Materias.values
    ensures 1 <= Materias.values[k].semestre <= 8
  {
    var i := GroupOf(k);
    BlockInColumn(i);
  }

  /** Each prerequisite of a course is a course, of a strictly earlier semester. */
  ghost predicate PrerequisitesPrecede(m: map<string, Course>) {
    forall k, p :: k in m && p in m[k].previas ==> p in m && m[p].semestre < m[k].semestre
  }

  lemma PrerequisitesEarlier()
    ensures PrerequisitesPrecede(Materias.values)
  {
    forall k, p | k in Materias.values && p in Materias.values[k].previas
      ensures p in Materias.values && Materias.values[p].semestre < Materias.values[k].semestre
    {
      var i := GroupOf(k);
      BlockInColumn(i);
      PrerequisiteInEarlierColumn(i, k, p);
    }
  }

  lemma PrerequisiteInEarlierColumn(i: nat, k: string, p: string)
    requires i < |MateriasBlocks| && k in MateriasBlocks[i].values && p in MateriasBlocks[i].values[k].previas
    ensures p in Materias.values && Materias.values[p].semestre <= i
  {
    BlockPrerequisitesEarlier(i);
  }

  /** `c` is a walk down prerequisite links: each code after the first is a prerequisite of the
      one before it. */
  ghost predicate PrerequisiteChain(m: map<string, Course>, c: seq<string>) {
    && |c| >= 1
    && (forall i :: 0 <= i < |c| ==> c[i] in m)
    && (forall i :: 0 <= i < |c| - 1 ==> c[i + 1] in m[c[i]].previas)
  }

  /** Along a prerequisite chain the semester drops by at least one per step. */
  lemma {:induction false} ChainDescends(m: map<string, Course>, c: seq<string>)
    requires PrerequisitesPrecede(m) && PrerequisiteChain(m, c)
    ensures m[c[|c| - 1]].semestre + (|c| - 1) <= m[c[0]].semestre
  {
    if |c| > 1 {
      var tail := c[1..];
      assert forall i :: 0 <= i < |tail| ==> tail[i] == c[i + 1];
      ChainDescends(m, tail);
      assert c[1] in m[c[0]].previas;
    }
  }

  /** So no course is, directly or through other courses, a prerequisite of itself: the course
      graph is acyclic. */
  lemma NoPrerequisiteCycle(c: seq<string>)
    requires PrerequisiteChain(Materias.values, c) && |c| >= 2
    ensures c[0] != c[|c| - 1]
  {
    PrerequisitesEarlier();
    ChainDescends(Materias.values, c);
  }

  /** A code of `Materias` that starts with "OPT" is one of the six slot codes. */
  lemma SlotsAreOpt()
    ensures forall k :: k in Materias.values && IsSlot(k) ==> k in SlotCodes
    ensures forall k :: k in SlotCodes ==> k in Materias.values && IsSlot(k)
  {
    SlotCodesPresent();
    forall k | k in Materias.values && IsSlot(k)
      ensures k in SlotCodes
    {
      var i := GroupOf(k);
      BlockSlots(i);
    }
  }

  /** Each of the six slot codes is a code of `Materias` that starts with "OPT". */
  lemma SlotCodesPresent()
    ensures forall k :: k in SlotCodes ==> k in Materias.values && IsSlot(k)
  {
    EarlySlotEntries();
    LateSlotEntries();
    SlotCodesAreSlots();
  }

  lemma SlotCodesAreSlots()
    ensures forall k :: k in SlotCodes ==> IsSlot(k)
  {
    assert forall i :: 0 <= i < |SlotCodes| ==> SlotCodes[i][..3] == SlotPrefix;
  }

  /** The entries of the slots OPT1..OPT3. */
  lemma EarlySlotEntries()
    ensures "OPT1" in Materias.values && Materias.values["OPT1"] == Course("Optativa I", 8, 5, [])
    ensures "OPT2" in Materias.values && Materias.values["OPT2"] == Course("Optativa II", 8, 6, [])
    ensures "OPT3" in Materias.values && Materias.values["OPT3"] == Course("Optativa III", 8, 7, [])
  {
    SlotRow(4, "OPT1");
    SlotRow(5, "OPT2");
    SlotRow(6, "OPT3");
  }

  /** The entries of the slots OPT4..OPT6. */
  lemma LateSlotEntries()
    ensures "OPT4" in Materias.values && Materias.values["OPT4"] == Course("Optativa IV", 8, 7, [])
    ensures "OPT5" in Materias.values && Materias.values["OPT5"] == Course("Optativa V", 8, 8, [])
    ensures "OPT6" in Materias.values && Materias.values["OPT6"] == Course("Optativa VI", 8, 8, [])
  {
    SlotRow(6, "OPT4");
    SlotRow(7, "OPT5");
    SlotRow(7, "OPT6");
  }

  /** A row of group `i` is the table's row for that code. */
  lemma SlotRow(i: nat, code: string)
    requires i < |MateriasBlocks| && code in MateriasBlocks[i].values
    ensures code in Materias.values && Materias.values[code] == MateriasBlocks[i].values[code]
  {
    MateriasLayout();
  }

  /** No slot has prerequisites. */
  lemma SlotsHaveNoPrerequisites()
    ensures forall k :: k in Materias.values && IsSlot(k) ==> Materias.values[k].previas == []
  {
    SlotsAreOpt();
    EarlySlotEntries();
    LateSlotEntries();
  }

  lemma ElectivasValid()
    ensures Electivas.Valid()
  {
    ElectivasCodesDistinct();
  }

  lemma ElectivasCodesDistinct()
    ensures NoDup(ElectivasCodes)
  {
    var front := ["PACD", "ISO", "PIS", "SEM", "RES", "PDTR"];
    var back := ["CNU", "VDM", "PLN", "VCO", "ROB", "ARS"];
    assert NoDup(front);
    assert NoDup(back);
    assert ElectivasCodes == front + back;
    NoDupAppend(front, back);
  }

  /** The codes that electives list as prerequisites. */
  const ElectivePrerequisiteCodes: seq<string> := ["AA2", "BDR", "TITD", "ARC", "RCO", "BDN", "APR", "PIS"]

  lemma ElectivePrerequisiteCodesListed()
    ensures forall e, p :: e in Electivas.values && p in Electivas.values[e].previas ==> p in ElectivePrerequisiteCodes
  {
  }

  lemma ElectivePrerequisiteCodesAreCourses()
    ensures forall p :: p in ElectivePrerequisiteCodes && p != "PIS" ==> p in Materias.values
  {
    forall p | p in ElectivePrerequisiteCodes && p != "PIS"
      ensures p in Materias.values
    {
      if p == "ARC" { Semestre2InMaterias(); assert p in Semestre2Courses; }
      else if p == "BDR" { Semestre3InMaterias(); assert p in Semestre3Courses; }
      else if p == "TITD" || p == "BDN" { Semestre4InMaterias(); assert p in Semestre4Courses; }
      else if p == "AA2" || p == "RCO" { Semestre5InMaterias(); assert p in Semestre5Courses; }
      else { Semestre7InMaterias(); assert p in Semestre7Courses; }
    }
  }

  lemma OnlyVcoAndRobListPis()
    ensures forall e :: e in Electivas.values && "PIS" in Electivas.values[e].previas ==> e == "VCO" || e == "ROB"
  {
  }

  /** An elective's prerequisites are courses, with one exception: VCO and ROB list PIS, which is
      itself an elective and not a course. */
  lemma ElectivePrerequisites()
    ensures forall e, p :: e in Electivas.values && p in Electivas.values[e].previas && p != "PIS" ==> p in Materias.values
    ensures forall e :: e in Electivas.values && "PIS" in Electivas.values[e].previas ==> e == "VCO" || e == "ROB"
    ensures "PIS" in Electivas.values && "PIS" !in Materias.values
  {
    ElectivePrerequisiteCodesListed();
    ElectivePrerequisiteCodesAreCourses();
    OnlyVcoAndRobListPis();
    CodesDisjoint();
  }

  /** No code is both a course and an elective. */
  lemma CodesDisjoint()
    ensures forall k :: k in Materias.values ==> k !in Electivas.values
  {
    forall k | k in Materias.values
      ensures k !in Electivas.values
    {
      NotAnElective(k);
    }
  }

  /** A course's code is none of the elective codes. */
  lemma NotAnElective(k: string)
    requires k in Materias.values
    ensures k !in Electivas.values
  {
    var i := GroupOf(k);
    BlockValid(i);
    ElectivasValid();
    BlockApartFromElectivas(i);
  }

  /** The tables the page renders are well formed. */
  lemma CurriculumValid()
    ensures Curriculum.Valid()
  {
    MateriasLayout();
    ElectivasValid();
  }
}
