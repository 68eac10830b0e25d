/**
 * The initial screening of a hospital patient: ten emergency rules over the
 * patient's age, vital signs and symptoms, a department chosen in a fixed
 * priority order, and the precaution lines printed on the receipt.
 */
module Screening {

  datatype Patient = Patient(name: string, age: int, gender: string, contact: string, arrivalTime: string)

  /** The temperature is the `float` the program read, taken as its exact value. */
  datatype Vitals = Vitals(temperatureC: real, heartRate: int, systolicBP: int, diastolicBP: int, spo2: int)

  datatype Symptoms = Symptoms(
    unconscious: bool,
    severeBleeding: bool,
    chestPain: bool,
    breathingDifficulty: bool,
    strokeSigns: bool,
    seizureNow: bool,
    highFever: bool,
    fractureOrMajorTrauma: bool,
    persistentVomiting: bool,
    dehydration: bool,
    coughCold: bool,
    abdominalPainSevere: bool,
    pregnancyComplication: bool)

  // ---------------------------------------------------------------------------
  // Emergency classification
  // ---------------------------------------------------------------------------

  /** The ten rules that make a patient an emergency. */
  datatype Rule =
    | Unresponsive     // unconscious, severe bleeding, stroke signs or a seizure
    | Breathing        // breathing difficulty or SpO2 below 92
    | CardiacRisk      // chest pain at age 40 or more, or with SpO2 below 94
    | Trauma           // suspected fracture or major trauma
    | Pregnancy        // pregnancy with bleeding or severe pain
    | Temperature      // 40.0 C or more, or below 35.0 C
    | HeartRate        // above 130 or below 40 beats per minute
    | SystolicPressure // above 180 or below 80 mmHg
    | InfantFever      // high fever under the age of 3
    | AbdominalShock   // severe abdominal pain with systolic below 90 or SpO2 below 94

  /** When one rule holds, each on its own. */
  predicate Holds(rule: Rule, p: Patient, v: Vitals, s: Symptoms)
  {
    match rule
    case Unresponsive => s.unconscious || s.severeBleeding || s.strokeSigns || s.seizureNow
    case Breathing => s.breathingDifficulty || v.spo2 < 92
    case CardiacRisk => s.chestPain && (p.age >= 40 || v.spo2 < 94)
    case Trauma => s.fractureOrMajorTrauma
    case Pregnancy => s.pregnancyComplication
    case Temperature => v.temperatureC >= 40.0 || v.temperatureC < 35.0
    case HeartRate => v.heartRate > 130 || v.heartRate < 40
    case SystolicPressure => v.systolicBP > 180 || v.systolicBP < 80
    case InfantFever => s.highFever && p.age < 3
    case AbdominalShock => s.abdominalPainSevere && (v.systolicBP < 90 || v.spo2 < 94)
  }

  /**
   * `isEmergency`: the guarded returns, checked in the program's order.  The
   * patient is an emergency exactly when one of the ten rules holds.
   */
  function IsEmergency(p: Patient, v: Vitals, s: Symptoms): (r: bool)
    ensures r <==> exists rule :: Holds(rule, p, v, s)
    ensures !r <==> forall rule :: !Holds(rule, p, v, s)
  {
    if s.unconscious || s.severeBleeding || s.strokeSigns || s.seizureNow then
      assert Holds(Unresponsive, p, v, s); true
    else if s.breathingDifficulty || v.spo2 < 92 then
      assert Holds(Breathing, p, v, s); true
    else if s.chestPain && (p.age >= 40 || v.spo2 < 94) then
      assert Holds(CardiacRisk, p, v, s); true
    else if s.fractureOrMajorTrauma then
      assert Holds(Trauma, p, v, s); true
    else if s.pregnancyComplication then
      assert Holds(Pregnancy, p, v, s); true
    else if v.temperatureC >= 40.0 || v.temperatureC < 35.0 then
      assert Holds(Temperature, p, v, s); true
    else if v.heartRate > 130 || v.heartRate < 40 then
      assert Holds(HeartRate, p, v, s); true
    else if v.systolicBP > 180 || v.systolicBP < 80 then
      assert Holds(SystolicPressure, p, v, s); true
    else if s.highFever && p.age < 3 then
      assert Holds(InfantFever, p, v, s); true
    else if s.abdominalPainSevere && (v.systolicBP < 90 || v.spo2 < 94) then
      assert Holds(AbdominalShock, p, v, s); true
    else
      false
  }

  /**
   * The classification reads neither the diastolic pressure nor the name,
   * gender, contact or arrival time, nor vomiting, dehydration or a cough.
   */
  lemma EmergencyIgnores(p: Patient, v: Vitals, s: Symptoms,
                         name: string, gender: string, contact: string, arrivalTime: string,
                         diastolicBP: int, persistentVomiting: bool, dehydration: bool, coughCold: bool)
    ensures IsEmergency(p, v, s)
      == IsEmergency(p.(name := name, gender := gender, contact := contact, arrivalTime := arrivalTime),
                     v.(diastolicBP := diastolicBP),
                     s.(persistentVomiting := persistentVomiting, dehydration := dehydration, coughCold := coughCold))
  {
    var p' := p.(name := name, gender := gender, contact := contact, arrivalTime := arrivalTime);
    var v' := v.(diastolicBP := diastolicBP);
    var s' := s.(persistentVomiting := persistentVomiting, dehydration := dehydration, coughCold := coughCold);
    forall rule ensures Holds(rule, p, v, s) == Holds(rule, p', v', s') {
    }
  }

  // ---------------------------------------------------------------------------
  // Department allocation
  // ---------------------------------------------------------------------------

  datatype Department =
    | EmergencyMedicine
    | Pediatrics
    | Cardiology
    | Pulmonology
    | Neurology
    | Orthopedics
    | SurgeryGastro
    | Obstetrics
    | GeneralMedicine

  /** The name `allocateDoctor` returns for each department. */
  function DepartmentName(d: Department): string
  {
    match d
    case EmergencyMedicine => "Emergency Medicine (ER)"
    case Pediatrics => "Pediatrics"
    case Cardiology => "Cardiology"
    case Pulmonology => "Pulmonology / Respiratory"
    case Neurology => "Neurology"
    case Orthopedics => "Orthopedics"
    case SurgeryGastro => "General Surgery / Gastroenterology"
    case Obstetrics => "Obstetrics & Gynecology"
    case GeneralMedicine => "General Medicine"
  }

  /** The priority of a department: the order in which it is considered. */
  function Priority(d: Department): nat
  {
    match d
    case EmergencyMedicine => 0
    case Pediatrics => 1
    case Cardiology => 2
    case Pulmonology => 3
    case Neurology => 4
    case Orthopedics => 5
    case SurgeryGastro => 6
    case Obstetrics => 7
    case GeneralMedicine => 8
  }

  /** What makes a department suitable, on its own; general medicine always is. */
  predicate Indicated(d: Department, p: Patient, s: Symptoms, emergency: bool)
  {
    match d
    case EmergencyMedicine => emergency
    case Pediatrics => p.age < 14
    case Cardiology => s.chestPain
    case Pulmonology => s.breathingDifficulty || s.coughCold
    case Neurology => s.strokeSigns || s.seizureNow
    case Orthopedics => s.fractureOrMajorTrauma
    case SurgeryGastro => s.abdominalPainSevere || s.persistentVomiting
    case Obstetrics => s.pregnancyComplication
    case GeneralMedicine => true
  }

  /**
   * `allocateDoctor`: the department of highest priority that the flag and
   * the symptoms indicate.  The vital signs are not consulted.
   */
  function AllocateDoctor(p: Patient, v: Vitals, s: Symptoms, emergency: bool): (d: Department)
    ensures Indicated(d, p, s, emergency)
    ensures forall e :: Priority(e) < Priority(d) ==> !Indicated(e, p, s, emergency)
    ensures emergency <==> d == EmergencyMedicine
  {
    if emergency then EmergencyMedicine
    else if p.age < 14 then Pediatrics
    else if s.chestPain then Cardiology
    else if s.breathingDifficulty || s.coughCold then Pulmonology
    else if s.strokeSigns || s.seizureNow then Neurology
    else if s.fractureOrMajorTrauma then Orthopedics
    else if s.abdominalPainSevere || s.persistentVomiting then SurgeryGastro
    else if s.pregnancyComplication then Obstetrics
    else GeneralMedicine
  }

  /** Any other vital signs give the same department. */
  lemma AllocateIgnoresVitals(p: Patient, v: Vitals, w: Vitals, s: Symptoms, emergency: bool)
    ensures AllocateDoctor(p, v, s, emergency) == AllocateDoctor(p, w, s, emergency)
  {
  }

  /**
   * With the flag computed by `isEmergency`, as `main` does, neurology,
   * orthopedics and obstetrics are never chosen (their symptoms are
   * emergencies), pulmonology only for a cough or cold without breathing
   * difficulty, and cardiology only for an adult under 40 with SpO2 of 94
   * or more.
   */
  lemma ScreenedDepartments(p: Patient, v: Vitals, s: Symptoms)
    ensures var d := AllocateDoctor(p, v, s, IsEmergency(p, v, s));
      && d != Neurology && d != Orthopedics && d != Obstetrics
      && (d == Pulmonology ==> s.coughCold && !s.breathingDifficulty)
      && (d == Cardiology ==> 14 <= p.age < 40 && v.spo2 >= 94)
  {
    var d := AllocateDoctor(p, v, s, IsEmergency(p, v, s));
    if d != EmergencyMedicine {
      assert !Holds(Unresponsive, p, v, s) && !Holds(Trauma, p, v, s) && !Holds(Pregnancy, p, v, s);
      assert !Holds(Breathing, p, v, s) && !Holds(CardiacRisk, p, v, s);
    }
  }

  // ---------------------------------------------------------------------------
  // Precautions
  // ---------------------------------------------------------------------------

  /** The strings `printPrecautions` may write. */
  datatype Precaution =
    | Header
    | Observation
    | Airway
    | Bleeding
    | Rest
    | SitUpright
    | Fever
    | Immobilize
    | Comfort

  /** The exact text written for each line. */
  function Text(line: Precaution): string
  {
    match line
    case Header => "\n--- Precautions ---\n"
    case Observation => "* Keep patient under observation; no food/drink unless advised.\n"
    case Airway => "* Ensure airway is clear; sit upright if breathing difficulty.\n"
    case Bleeding => "* If bleeding: apply firm pressure with clean cloth.\n"
    case Rest => "* Rest; limit movement; loosen tight clothing.\n"
    case SitUpright => "* Sit upright; encourage steady breaths; wear mask if coughing.\n"
    case Fever => "* Fever: give sips of water; tepid sponging.\n"
    case Immobilize => "* Immobilize limb; avoid unnecessary movement.\n"
    case Comfort => "* Keep patient warm and calm.\n"
  }

  /** Where each line stands in `printPrecautions`. */
  function Rank(line: Precaution): nat
  {
    match line
    case Header => 0
    case Observation => 1
    case Airway => 2
    case Bleeding => 3
    case Rest => 4
    case SitUpright => 5
    case Fever => 6
    case Immobilize => 7
    case Comfort => 8
  }

  /** The lines come in the order `printPrecautions` writes them, none twice. */
  predicate InWritingOrder(lines: seq<Precaution>)
  {
    forall i, j :: 0 <= i < j < |lines| ==> Rank(lines[i]) < Rank(lines[j])
  }

  /** The three lines written only for an emergency. */
  const EmergencyLines: seq<Precaution> := [Observation, Airway, Bleeding]

  /** Whether `printPrecautions` writes a line, each on its own condition. */
  predicate Selected(line: Precaution, v: Vitals, s: Symptoms, emergency: bool)
  {
    match line
    case Header | Comfort => true
    case Observation | Airway | Bleeding => emergency
    case Rest => s.chestPain
    case SitUpright => s.breathingDifficulty || v.spo2 < 94 || s.coughCold
    case Fever => s.highFever || v.temperatureC >= 38.5
    case Immobilize => s.fractureOrMajorTrauma
  }

  /** One conditional line of `printPrecautions`. */
  function WrittenIf(condition: bool, line: Precaution): (lines: seq<Precaution>)
    ensures |lines| <= 1
    ensures forall l :: l in lines <==> condition && l == line
  {
    if condition then [line] else []
  }

  /** Every line of `lines` stands between positions lo and hi of `printPrecautions`. */
  predicate RanksWithin(lines: seq<Precaution>, lo: nat, hi: nat)
  {
    forall i :: 0 <= i < |lines| ==> lo <= Rank(lines[i]) < hi
  }

  /** Appending lines that all come later keeps the writing order. */
  lemma OrderedAppend(a: seq<Precaution>, b: seq<Precaution>, lo: nat, m: nat, hi: nat)
    requires InWritingOrder(a) && InWritingOrder(b)
    requires lo <= m <= hi && RanksWithin(a, lo, m) && RanksWithin(b, m, hi)
    ensures InWritingOrder(a + b) && RanksWithin(a + b, lo, hi)
  {
    var ab := a + b;
    assert forall i :: 0 <= i < |ab| ==> ab[i] == if i < |a| then a[i] else b[i - |a|];
    forall i, j | 0 <= i < j < |ab|
      ensures Rank(ab[i]) < Rank(ab[j])
    {
      if j < |a| {
        assert ab[i] == a[i] && ab[j] == a[j];
      } else if i >= |a| {
        assert ab[i] == b[i - |a|] && ab[j] == b[j - |a|];
      } else {
        assert ab[i] == a[i] && ab[j] == b[j - |a|];
      }
    }
  }

  /** The symptom lines of `printPrecautions`, each on its own condition. */
  function SymptomLines(v: Vitals, s: Symptoms): seq<Precaution>
  {
    WrittenIf(s.chestPain, Rest)
    + WrittenIf(s.breathingDifficulty || v.spo2 < 94 || s.coughCold, SitUpright)
    + WrittenIf(s.highFever || v.temperatureC >= 38.5, Fever)
    + WrittenIf(s.fractureOrMajorTrauma, Immobilize)
  }

  /** `printPrecautions`: the lines it writes, in order (the patient is not consulted). */
  function Precautions(p: Patient, v: Vitals, s: Symptoms, emergency: bool): (lines: seq<Precaution>)
    ensures 2 <= |lines| <= 9
    ensures lines[0] == Header && lines[|lines| - 1] == Comfort
    ensures emergency ==> |lines| >= 5 && lines[1..4] == EmergencyLines
  {
    var symptomLines := SymptomLines(v, s);
    if emergency then
      assert ([Header] + EmergencyLines + symptomLines + [Comfort])[1..4] == EmergencyLines;
      [Header] + EmergencyLines + symptomLines + [Comfort]
    else
      [Header] + symptomLines + [Comfort]
  }

  /** A line is written exactly when its condition holds. */
  lemma PrecautionWritten(p: Patient, v: Vitals, s: Symptoms, emergency: bool, line: Precaution)
    ensures line in Precautions(p, v, s, emergency) <==> Selected(line, v, s, emergency)
  {
  }

  /** The symptom lines come in the order of the source, none twice, between the emergency lines and the closing line. */
  lemma SymptomLinesInOrder(v: Vitals, s: Symptoms)
    ensures InWritingOrder(SymptomLines(v, s)) && RanksWithin(SymptomLines(v, s), Rank(Rest), Rank(Comfort))
  {
    var rest := WrittenIf(s.chestPain, Rest);
    var upright := WrittenIf(s.breathingDifficulty || v.spo2 < 94 || s.coughCold, SitUpright);
    var fever := WrittenIf(s.highFever || v.temperatureC >= 38.5, Fever);
    var immobilize := WrittenIf(s.fractureOrMajorTrauma, Immobilize);
    OrderedAppend(rest, upright, Rank(Rest), Rank(SitUpright), Rank(Fever));
    OrderedAppend(rest + upright, fever, Rank(Rest), Rank(Fever), Rank(Immobilize));
    OrderedAppend(rest + upright + fever, immobilize, Rank(Rest), Rank(Immobilize), Rank(Comfort));
  }

  /** All the lines come in the order of the source, none twice. */
  lemma PrecautionsInOrder(p: Patient, v: Vitals, s: Symptoms, emergency: bool)
    ensures InWritingOrder(Precautions(p, v, s, emergency))
  {
    var symptomLines := SymptomLines(v, s);
    SymptomLinesInOrder(v, s);
    var opening := if emergency then [Header] + EmergencyLines else [Header];
    assert InWritingOrder(opening) && RanksWithin(opening, Rank(Header), Rank(Rest));
    OrderedAppend(opening, symptomLines, Rank(Header), Rank(Rest), Rank(Comfort));
    OrderedAppend(opening + symptomLines, [Comfort], Rank(Header), Rank(Comfort), Rank(Comfort) + 1);
  }
}
