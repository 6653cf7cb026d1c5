/**
 * The teacher actions: `getTeachers`, `deleteTeacher`, `getTeacherById`,
 * `updateTeacher` and `createTeacher` on the `teachers` collection.
 */
module Teachers {
  import opened Base
  import opened Text
  import opened Records
  import opened DataUtils
  import opened Validation
  import opened Collections
  import opened Repository

  /** The name of the collection every teacher action reads and writes. */
  const Collection := "teachers"

  /** `getTeachers()`: the whole stored collection, in stored order. */
  function GetTeachers(store: Store): (reply: Reply)
    reads store
    ensures reply.Data?
    ensures Collection in store.files ==> reply.records == store.files[Collection]
    ensures Collection !in store.files ==> reply.records == []
  {
    Data(store.ReadDataFile(Collection))
  }

  /**
   * `deleteTeacher(teacherId)`: writes back every record whose id is not
   * `teacherId`, in order, and reports success whether or not one was removed.
   */
  method DeleteTeacher(store: Store, teacherId: Option<Value>) returns (reply: Reply)
    modifies store
    ensures reply == Done("Teacher deleted successfully")
    ensures store.readOnly == old(store.readOnly)
    ensures store.files == Written(old(store.files), old(store.readOnly), Collection, Without(old(store.ReadDataFile(Collection)), teacherId))
    ensures (forall i :: 0 <= i < |old(store.ReadDataFile(Collection))| ==> !HasId(old(store.ReadDataFile(Collection))[i], teacherId)) ==>
      store.ReadDataFile(Collection) == old(store.ReadDataFile(Collection))
    ensures old(UniqueIds(store.ReadDataFile(Collection))) ==> UniqueIds(store.ReadDataFile(Collection))
    ensures old(UniqueEmails(store.ReadDataFile(Collection))) ==> UniqueEmails(store.ReadDataFile(Collection))
  {
    Remove(store, Collection, teacherId);
    reply := Done("Teacher deleted successfully");
  }

  /** `getTeacherById(id)`: the first record whose id is `parseInt(id)`, or "Teacher not found". */
  function GetTeacherById(store: Store, id: string): (reply: Reply)
    reads store
    ensures reply.Item? || reply == Error("Teacher not found")
    ensures reply.Item? ==> FindById(store.ReadDataFile(Collection), ParseInt(id)) == Some(reply.record)
    ensures reply.Error? <==> ParseInt(id).None? || forall i :: 0 <= i < |store.ReadDataFile(Collection)| ==> Id(store.ReadDataFile(Collection)[i]) != ParseInt(id)
  {
    match FindById(store.ReadDataFile(Collection), ParseInt(id))
    case None => Error("Teacher not found")
    case Some(teacher) => Item(teacher)
  }

  /**
   * The fields `updateTeacher` spreads over the stored record: name, email,
   * subject and qualification as submitted, experience parsed, phone and
   * office `null` when empty, and the update time; `id` and `createdAt` are not listed.
   */
  function TeacherFields(form: Form, now: string): (fields: map<string, Value>)
    ensures fields.Keys == {"name", "email", "subject", "qualification", "experience", "phone", "office", "updatedAt"}
    ensures "id" !in fields && "createdAt" !in fields
    ensures fields["name"] == Raw(form, "name") && fields["email"] == Raw(form, "email")
    ensures fields["subject"] == Raw(form, "subject") && fields["qualification"] == Raw(form, "qualification")
    ensures fields["experience"] == IntOrNull(form, "experience")
    ensures fields["phone"] == OrElse(form, "phone", Null)
    ensures fields["office"] == OrElse(form, "office", Null)
    ensures fields["updatedAt"] == Str(now)
  {
    map["name" := Raw(form, "name"), "email" := Raw(form, "email"), "subject" := Raw(form, "subject"),
        "qualification" := Raw(form, "qualification"),
        "experience" := IntOrNull(form, "experience"),
        "phone" := OrElse(form, "phone", Null), "office" := OrElse(form, "office", Null),
        "updatedAt" := Str(now)]
  }

  /**
   * `updateTeacher(id, formData)`: no write and "Teacher not found" when no
   * record has id `parseInt(id)`; otherwise only that record changes.
   */
  method UpdateTeacher(store: Store, id: string, form: Form, now: string) returns (reply: Reply)
    modifies store
    ensures store.readOnly == old(store.readOnly)
    ensures var prior := old(store.ReadDataFile(Collection));
      if FindIndex(prior, ParseInt(id)).None? then
        reply == Error("Teacher not found") && store.files == old(store.files)
      else
        reply == Done("Teacher updated successfully") &&
        store.files == Written(old(store.files), old(store.readOnly), Collection, Replaced(prior, ParseInt(id), TeacherFields(form, now)))
    ensures old(UniqueIds(store.ReadDataFile(Collection))) ==> UniqueIds(store.ReadDataFile(Collection))
  {
    var found := Update(store, Collection, ParseInt(id), TeacherFields(form, now));
    if !found {
      return Error("Teacher not found");
    }
    reply := Done("Teacher updated successfully");
  }

  /**
   * Every validation error of the teacher form at once: name, subject and
   * qualification required, the email required and well-formed, and years of
   * experience, when given, within 0..50.
   */
  function TeacherErrors(form: Form): (errors: map<string, string>)
    ensures errors.Keys <= {"name", "email", "subject", "qualification", "experience"}
    ensures "name" in errors <==> Missing(form, "name")
    ensures "email" in errors <==> Missing(form, "email") || !MatchesEmailPattern(Trimmed(form, "email"))
    ensures "subject" in errors <==> Missing(form, "subject")
    ensures "qualification" in errors <==> Missing(form, "qualification")
    ensures "experience" in errors <==>
      Given(form, "experience") && !(ParseInt(form["experience"]).Some? && 0 <= ParseInt(form["experience"]).value <= 50)
    ensures "name" in errors ==> errors["name"] == "Name is required"
    ensures "email" in errors ==> errors["email"] == if Missing(form, "email") then "Email is required" else "Please enter a valid email address"
    ensures "subject" in errors ==> errors["subject"] == "Subject is required"
    ensures "qualification" in errors ==> errors["qualification"] == "Qualification is required"
    ensures "experience" in errors ==> errors["experience"] == "Experience must be between 0 and 50 years"
  {
    var e := Noted(map[], "name", Required(form, "name", "Name is required"));
    var e := Noted(e, "email", EmailProblem(form));
    var e := Noted(e, "subject", Required(form, "subject", "Subject is required"));
    var e := Noted(e, "qualification", Required(form, "qualification", "Qualification is required"));
    Noted(e, "experience", IntRange(form, "experience", 0, 50, "Experience must be between 0 and 50 years"))
  }

  /**
   * The record `createTeacher` appends: id, the trimmed name, email, subject
   * and qualification, experience parsed when given, phone and office `null`
   * when empty, and both timestamps set to `now`.
   */
  function NewTeacher(form: Form, id: int, now: string): (teacher: Record)
    ensures teacher.Keys == {"id", "name", "email", "subject", "qualification", "experience", "phone", "office", "createdAt", "updatedAt"}
    ensures Id(teacher) == Some(id)
    ensures EmailOf(teacher) == Some(Trimmed(form, "email"))
    ensures teacher["name"] == Str(Trimmed(form, "name")) && teacher["subject"] == Str(Trimmed(form, "subject"))
    ensures teacher["qualification"] == Str(Trimmed(form, "qualification"))
    ensures teacher["experience"] == IntOrNull(form, "experience")
    ensures teacher["phone"] == OrElse(form, "phone", Null)
    ensures teacher["office"] == OrElse(form, "office", Null)
    ensures teacher["createdAt"] == teacher["updatedAt"] == Str(now)
  {
    map["id" := Num(id),
        "name" := Str(Trimmed(form, "name")), "email" := Str(Trimmed(form, "email")),
        "subject" := Str(Trimmed(form, "subject")), "qualification" := Str(Trimmed(form, "qualification")),
        "experience" := IntOrNull(form, "experience"),
        "phone" := OrElse(form, "phone", Null), "office" := OrElse(form, "office", Null),
        "createdAt" := Str(now), "updatedAt" := Str(now)]
  }

  /**
   * `createTeacher(prevState, formData)`: the validation errors, or the
   * duplicate-email refusal, or one new teacher appended with the next id.
   */
  method CreateTeacher(store: Store, form: Form, now: string) returns (state: FormState)
    modifies store
    ensures store.readOnly == old(store.readOnly)
    ensures var prior := old(store.ReadDataFile(Collection));
      var o := Create(prior, TeacherErrors(form), Trimmed(form, "email"), NewTeacher(form, GenerateId(prior), now),
                      "A teacher with this email already exists", "Teacher created successfully!");
      state == o.state && store.files == if o.written.Some? then Written(old(store.files), old(store.readOnly), Collection, o.written.value) else old(store.files)
    ensures !state.success ==> store.files == old(store.files)
    ensures old(UniqueIds(store.ReadDataFile(Collection)) && UniqueEmails(store.ReadDataFile(Collection))) ==>
      UniqueIds(store.ReadDataFile(Collection)) && UniqueEmails(store.ReadDataFile(Collection))
  {
    state := Add(store, Collection, TeacherErrors(form), Trimmed(form, "email"), id => NewTeacher(form, id, now),
                 "A teacher with this email already exists", "Teacher created successfully!");
  }
}
