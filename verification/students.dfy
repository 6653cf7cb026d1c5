/**
 * The student list actions: `getStudents`, `deleteStudent`, `getStudentById`
 * and `updateStudent`, each reading the `students` collection and, for delete
 * and update, writing it back whole.
 */
module Students {
  import opened Base
  import opened Text
  import opened Records
  import opened DataUtils
  import opened Collections
  import opened Repository

  /** The name of the collection every student action reads and writes. */
  const Collection := "students"

  /** `getStudents()`: the whole stored collection, in stored order. */
  function GetStudents(store: Store): (reply: Reply)
    reads store
    ensures reply.Data?
    ensures Collection in store.files ==> reply.records == store.files[Collection]
    ensures Collection !in store.files ==> reply.records == []
  {
    Data(store.ReadDataFile(Collection))
  }

  /**
   * `deleteStudent(studentId)`: writes back every record whose id is not
   * `studentId`, in order, and reports success whether or not one was removed.
   */
  method DeleteStudent(store: Store, studentId: Option<Value>) returns (reply: Reply)
    modifies store
    ensures reply == Done("Student deleted successfully")
    ensures store.readOnly == old(store.readOnly)
    ensures store.files == Written(old(store.files), old(store.readOnly), Collection, Without(old(store.ReadDataFile(Collection)), studentId))
    ensures Collection !in store.readOnly ==>
      forall i :: 0 <= i < |store.ReadDataFile(Collection)| ==> !HasId(store.ReadDataFile(Collection)[i], studentId)
    ensures (forall i :: 0 <= i < |old(store.ReadDataFile(Collection))| ==> !HasId(old(store.ReadDataFile(Collection))[i], studentId)) ==>
      store.ReadDataFile(Collection) == old(store.ReadDataFile(Collection))
    ensures old(UniqueIds(store.ReadDataFile(Collection))) ==> UniqueIds(store.ReadDataFile(Collection))
    ensures old(UniqueEmails(store.ReadDataFile(Collection))) ==> UniqueEmails(store.ReadDataFile(Collection))
  {
    Remove(store, Collection, studentId);
    reply := Done("Student deleted successfully");
  }

  /** `getStudentById(id)`: the first record whose id is `parseInt(id)`, or "Student not found". */
  function GetStudentById(store: Store, id: string): (reply: Reply)
    reads store
    ensures reply.Item? || reply == Error("Student not found")
    ensures reply.Item? ==> FindById(store.ReadDataFile(Collection), ParseInt(id)) == Some(reply.record)
    ensures reply.Error? <==> ParseInt(id).None? || forall i :: 0 <= i < |store.ReadDataFile(Collection)| ==> Id(store.ReadDataFile(Collection)[i]) != ParseInt(id)
  {
    match FindById(store.ReadDataFile(Collection), ParseInt(id))
    case None => Error("Student not found")
    case Some(student) => Item(student)
  }

  /**
   * The fields `updateStudent` spreads over the stored record: name, email
   * and grade as submitted (`null` when absent), age parsed, phone, parent
   * name and address `null` when empty, and the update time. It lists neither
   * `id` nor `createdAt`, `gpa` or `subjects`.
   */
  function StudentFields(form: Form, now: string): (fields: map<string, Value>)
    ensures fields.Keys == {"name", "email", "grade", "age", "phone", "parentName", "address", "updatedAt"}
    ensures "id" !in fields && "createdAt" !in fields
    ensures fields["name"] == Raw(form, "name") && fields["email"] == Raw(form, "email") && fields["grade"] == Raw(form, "grade")
    ensures fields["age"] == IntOrNull(form, "age")
    ensures fields["phone"] == OrElse(form, "phone", Null)
    ensures fields["parentName"] == OrElse(form, "parentName", Null)
    ensures fields["address"] == OrElse(form, "address", Null)
    ensures fields["updatedAt"] == Str(now)
  {
    map["name" := Raw(form, "name"), "email" := Raw(form, "email"), "grade" := Raw(form, "grade"),
        "age" := IntOrNull(form, "age"),
        "phone" := OrElse(form, "phone", Null), "parentName" := OrElse(form, "parentName", Null),
        "address" := OrElse(form, "address", Null),
        "updatedAt" := Str(now)]
  }

  /**
   * `updateStudent(id, formData)`: no write and "Student not found" when no
   * record has id `parseInt(id)`; otherwise the first such record, merged with
   * the submitted fields, is written back in its place and nothing else changes.
   */
  method UpdateStudent(store: Store, id: string, form: Form, now: string) returns (reply: Reply)
    modifies store
    ensures store.readOnly == old(store.readOnly)
    ensures var prior := old(store.ReadDataFile(Collection));
      if FindIndex(prior, ParseInt(id)).None? then
        reply == Error("Student not found") && store.files == old(store.files)
      else
        reply == Done("Student updated successfully") &&
        store.files == Written(old(store.files), old(store.readOnly), Collection, Replaced(prior, ParseInt(id), StudentFields(form, now)))
    ensures old(UniqueIds(store.ReadDataFile(Collection))) ==> UniqueIds(store.ReadDataFile(Collection))
  {
    var found := Update(store, Collection, ParseInt(id), StudentFields(form, now));
    if !found {
      return Error("Student not found");
    }
    reply := Done("Student updated successfully");
  }
}
