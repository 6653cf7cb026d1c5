/**
 * `createStudent`: validate the submitted form, refuse an email some student
 * already has, otherwise append a new student record with the next id.
 */
module StudentsAdd {
  import opened Base
  import opened Text
  import opened Records
  import opened DataUtils
  import opened Validation
  import opened Collections
  import opened Repository
  import Students

  /**
   * Every validation error of the student form at once, keyed by field: name
   * and grade required, the email required and well-formed, an age that is
   * given within 5..25, a GPA that is given within 0..4.
   */
  function StudentErrors(form: Form, parseFloat: string -> Option<real>): (errors: map<string, string>)
    ensures errors.Keys <= {"name", "email", "grade", "age", "gpa"}
    ensures "name" in errors <==> Missing(form, "name")
    ensures "email" in errors <==> Missing(form, "email") || !MatchesEmailPattern(Trimmed(form, "email"))
    ensures "grade" in errors <==> Missing(form, "grade")
    ensures "age" in errors <==> Given(form, "age") && !(ParseInt(form["age"]).Some? && 5 <= ParseInt(form["age"]).value <= 25)
    ensures "gpa" in errors <==> Given(form, "gpa") && !(parseFloat(form["gpa"]).Some? && 0.0 <= parseFloat(form["gpa"]).value <= 4.0)
    ensures "name" in errors ==> errors["name"] == "Name is required"
    ensures "email" in errors ==> errors["email"] == if Missing(form, "email") then "Email is required" else "Please enter a valid email address"
    ensures "grade" in errors ==> errors["grade"] == "Grade is required"
    ensures "age" in errors ==> errors["age"] == "Age must be between 5 and 25"
    ensures "gpa" in errors ==> errors["gpa"] == "GPA must be between 0 and 4"
  {
    var e := Noted(map[], "name", Required(form, "name", "Name is required"));
    var e := Noted(e, "email", EmailProblem(form));
    var e := Noted(e, "grade", Required(form, "grade", "Grade is required"));
    var e := Noted(e, "age", IntRange(form, "age", 5, 25, "Age must be between 5 and 25"));
    Noted(e, "gpa", RealRange(form, "gpa", parseFloat, 0.0, Some(4.0), "GPA must be between 0 and 4"))
  }

  /**
   * The record `createStudent` appends: id, the trimmed name, email and grade,
   * age and GPA parsed when given, phone and address `null` when empty, the
   * cleaned subject list, and both timestamps set to `now`.
   */
  function NewStudent(form: Form, parseFloat: string -> Option<real>, id: int, now: string): (student: Record)
    ensures student.Keys == {"id", "name", "email", "grade", "age", "phone", "address", "gpa", "subjects", "createdAt", "updatedAt"}
    ensures Id(student) == Some(id)
    ensures EmailOf(student) == Some(Trimmed(form, "email"))
    ensures student["name"] == Str(Trimmed(form, "name")) && student["grade"] == Str(Trimmed(form, "grade"))
    ensures student["age"] == IntOrNull(form, "age")
    ensures student["gpa"] == RealOrNull(form, "gpa", parseFloat)
    ensures student["phone"] == OrElse(form, "phone", Null)
    ensures student["address"] == OrElse(form, "address", Null)
    ensures student["subjects"] == ListOrEmpty(form, "subjects") && forall i :: 0 <= i < |student["subjects"].items| ==>
      IsItem(student["subjects"].items[i]) && ',' !in student["subjects"].items[i]
    ensures student["createdAt"] == student["updatedAt"] == Str(now)
  {
    map["id" := Num(id),
        "name" := Str(Trimmed(form, "name")), "email" := Str(Trimmed(form, "email")), "grade" := Str(Trimmed(form, "grade")),
        "age" := IntOrNull(form, "age"),
        "phone" := OrElse(form, "phone", Null), "address" := OrElse(form, "address", Null),
        "gpa" := RealOrNull(form, "gpa", parseFloat),
        "subjects" := ListOrEmpty(form, "subjects"),
        "createdAt" := Str(now), "updatedAt" := Str(now)]
  }

  /**
   * `createStudent(prevState, formData)`: the validation errors, or the
   * duplicate-email refusal, or one new student appended with the next id.
   * Only the last writes, and it keeps ids and emails unique.
   */
  method CreateStudent(store: Store, form: Form, parseFloat: string -> Option<real>, now: string) returns (state: FormState)
    modifies store
    ensures store.readOnly == old(store.readOnly)
    ensures var prior := old(store.ReadDataFile(Students.Collection));
      var o := Create(prior, StudentErrors(form, parseFloat), Trimmed(form, "email"),
                      NewStudent(form, parseFloat, GenerateId(prior), now),
                      "A student with this email already exists", "Student created successfully!");
      state == o.state && store.files == if o.written.Some? then Written(old(store.files), old(store.readOnly), Students.Collection, o.written.value) else old(store.files)
    ensures !state.success ==> store.files == old(store.files)
    ensures old(UniqueIds(store.ReadDataFile(Students.Collection)) && UniqueEmails(store.ReadDataFile(Students.Collection))) ==>
      UniqueIds(store.ReadDataFile(Students.Collection)) && UniqueEmails(store.ReadDataFile(Students.Collection))
  {
    state := Add(store, Students.Collection, StudentErrors(form, parseFloat), Trimmed(form, "email"),
                 id => NewStudent(form, parseFloat, id, now),
                 "A student with this email already exists", "Student created successfully!");
  }
}
