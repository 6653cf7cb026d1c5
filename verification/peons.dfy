/**
 * The peon actions: `getPeons`, `deletePeon`, `getPeonById`, `createPeon` and
 * `updatePeon` on the `peons` collection.
 */
module Peons {
  import opened Base
  import opened Text
  import opened Records
  import opened DataUtils
  import opened Validation
  import opened Collections
  import opened Repository

  /** The name of the collection every peon action reads and writes. */
  const Collection := "peons"

  /** `getPeons()`: the whole stored collection, in stored order. */
  function GetPeons(store: Store): (reply: Reply)
    reads store
    ensures reply.Data?
    ensures Collection in store.files ==> reply.records == store.files[Collection]
    ensures Collection !in store.files ==> reply.records == []
  {
    Data(store.ReadDataFile(Collection))
  }

  /**
   * `deletePeon(peonId)`: writes back every record whose id is not `peonId`,
   * in order, and reports success whether or not one was removed.
   */
  method DeletePeon(store: Store, peonId: Option<Value>) returns (reply: Reply)
    modifies store
    ensures reply == Done("Peon deleted successfully")
    ensures store.readOnly == old(store.readOnly)
    ensures store.files == Written(old(store.files), old(store.readOnly), Collection, Without(old(store.ReadDataFile(Collection)), peonId))
    ensures (forall i :: 0 <= i < |old(store.ReadDataFile(Collection))| ==> !HasId(old(store.ReadDataFile(Collection))[i], peonId)) ==>
      store.ReadDataFile(Collection) == old(store.ReadDataFile(Collection))
    ensures old(UniqueIds(store.ReadDataFile(Collection))) ==> UniqueIds(store.ReadDataFile(Collection))
    ensures old(UniqueEmails(store.ReadDataFile(Collection))) ==> UniqueEmails(store.ReadDataFile(Collection))
  {
    Remove(store, Collection, peonId);
    reply := Done("Peon deleted successfully");
  }

  /** `getPeonById(id)`: the first record whose id is `parseInt(id)`, or "Peon not found". */
  function GetPeonById(store: Store, id: string): (reply: Reply)
    reads store
    ensures reply.Item? || reply == Error("Peon not found")
    ensures reply.Item? ==> FindById(store.ReadDataFile(Collection), ParseInt(id)) == Some(reply.record)
    ensures reply.Error? <==> ParseInt(id).None? || forall i :: 0 <= i < |store.ReadDataFile(Collection)| ==> Id(store.ReadDataFile(Collection)[i]) != ParseInt(id)
  {
    match FindById(store.ReadDataFile(Collection), ParseInt(id))
    case None => Error("Peon not found")
    case Some(peon) => Item(peon)
  }

  /**
   * Every validation error of the peon form at once: name and department
   * required, the email required and well-formed, and a salary that is given
   * a number no less than zero.
   */
  function PeonErrors(form: Form, parseFloat: string -> Option<real>): (errors: map<string, string>)
    ensures errors.Keys <= {"name", "email", "department", "salary"}
    ensures "name" in errors <==> Missing(form, "name")
    ensures "email" in errors <==> Missing(form, "email") || !MatchesEmailPattern(Trimmed(form, "email"))
    ensures "department" in errors <==> Missing(form, "department")
    ensures "salary" in errors <==> Given(form, "salary") && !(parseFloat(form["salary"]).Some? && 0.0 <= parseFloat(form["salary"]).value)
    ensures "name" in errors ==> errors["name"] == "Name is required"
    ensures "email" in errors ==> errors["email"] == if Missing(form, "email") then "Email is required" else "Please enter a valid email address"
    ensures "department" in errors ==> errors["department"] == "Department is required"
    ensures "salary" in errors ==> errors["salary"] == "Salary must be a positive number"
  {
    var e := Noted(map[], "name", Required(form, "name", "Name is required"));
    var e := Noted(e, "email", EmailProblem(form));
    var e := Noted(e, "department", Required(form, "department", "Department is required"));
    Noted(e, "salary", RealRange(form, "salary", parseFloat, 0.0, None, "Salary must be a positive number"))
  }

  /**
   * The record `createPeon` appends: id, the trimmed name, email and
   * department, phone and address `null` when empty, salary parsed when given,
   * shift "Morning" when empty, the cleaned responsibility list, and both
   * timestamps set to `now`.
   */
  function NewPeon(form: Form, parseFloat: string -> Option<real>, id: int, now: string): (peon: Record)
    ensures peon.Keys == {"id", "name", "email", "department", "phone", "address", "salary", "shift", "responsibilities", "createdAt", "updatedAt"}
    ensures Id(peon) == Some(id)
    ensures EmailOf(peon) == Some(Trimmed(form, "email"))
    ensures peon["name"] == Str(Trimmed(form, "name")) && peon["department"] == Str(Trimmed(form, "department"))
    ensures peon["phone"] == OrElse(form, "phone", Null)
    ensures peon["address"] == OrElse(form, "address", Null)
    ensures peon["salary"] == RealOrNull(form, "salary", parseFloat)
    ensures peon["shift"] == if Given(form, "shift") then Str(form["shift"]) else Str("Morning")
    ensures peon["responsibilities"] == ListOrEmpty(form, "responsibilities") && forall i :: 0 <= i < |peon["responsibilities"].items| ==>
      IsItem(peon["responsibilities"].items[i]) && ',' !in peon["responsibilities"].items[i]
    ensures peon["createdAt"] == peon["updatedAt"] == Str(now)
  {
    map["id" := Num(id),
        "name" := Str(Trimmed(form, "name")), "email" := Str(Trimmed(form, "email")),
        "department" := Str(Trimmed(form, "department")),
        "phone" := OrElse(form, "phone", Null), "address" := OrElse(form, "address", Null),
        "salary" := RealOrNull(form, "salary", parseFloat),
        "shift" := OrElse(form, "shift", Str("Morning")),
        "responsibilities" := ListOrEmpty(form, "responsibilities"),
        "createdAt" := Str(now), "updatedAt" := Str(now)]
  }

  /**
   * `createPeon(prevState, formData)`: the validation errors, or the
   * duplicate-email refusal, or one new peon appended with the next id.
   */
  method CreatePeon(store: Store, form: Form, parseFloat: string -> Option<real>, now: string) returns (state: FormState)
    modifies store
    ensures store.readOnly == old(store.readOnly)
    ensures var prior := old(store.ReadDataFile(Collection));
      var o := Create(prior, PeonErrors(form, parseFloat), Trimmed(form, "email"), NewPeon(form, parseFloat, GenerateId(prior), now),
                      "A peon with this email already exists", "Peon created successfully!");
      state == o.state && store.files == if o.written.Some? then Written(old(store.files), old(store.readOnly), Collection, o.written.value) else old(store.files)
    ensures !state.success ==> store.files == old(store.files)
    ensures old(UniqueIds(store.ReadDataFile(Collection)) && UniqueEmails(store.ReadDataFile(Collection))) ==>
      UniqueIds(store.ReadDataFile(Collection)) && UniqueEmails(store.ReadDataFile(Collection))
  {
    state := Add(store, Collection, PeonErrors(form, parseFloat), Trimmed(form, "email"), id => NewPeon(form, parseFloat, id, now),
                 "A peon with this email already exists", "Peon created successfully!");
  }

  /**
   * The fields `updatePeon` spreads over the stored record: name, email,
   * phone and address exactly as submitted (`null` only when absent) and the
   * update time. Department, salary, shift, responsibilities, `id` and
   * `createdAt` are not listed.
   */
  function PeonFields(form: Form, now: string): (fields: map<string, Value>)
    ensures fields.Keys == {"name", "email", "phone", "address", "updatedAt"}
    ensures "id" !in fields && "createdAt" !in fields
    ensures fields["name"] == Raw(form, "name") && fields["email"] == Raw(form, "email")
    ensures fields["phone"] == Raw(form, "phone")
    ensures fields["address"] == Raw(form, "address")
    ensures fields["updatedAt"] == Str(now)
  {
    map["name" := Raw(form, "name"), "email" := Raw(form, "email"),
        "phone" := Raw(form, "phone"), "address" := Raw(form, "address"),
        "updatedAt" := Str(now)]
  }

  /**
   * `updatePeon(id, formData)`: no write and "Peon not found" when no record
   * has id `parseInt(id)`; otherwise only that record changes.
   */
  method UpdatePeon(store: Store, id: string, form: Form, now: string) returns (reply: Reply)
    modifies store
    ensures store.readOnly == old(store.readOnly)
    ensures var prior := old(store.ReadDataFile(Collection));
      if FindIndex(prior, ParseInt(id)).None? then
        reply == Error("Peon not found") && store.files == old(store.files)
      else
        reply == Done("Peon updated successfully") &&
        store.files == Written(old(store.files), old(store.readOnly), Collection, Replaced(prior, ParseInt(id), PeonFields(form, now)))
    ensures old(UniqueIds(store.ReadDataFile(Collection))) ==> UniqueIds(store.ReadDataFile(Collection))
  {
    var found := Update(store, Collection, ParseInt(id), PeonFields(form, now));
    if !found {
      return Error("Peon not found");
    }
    reply := Done("Peon updated successfully");
  }
}
