/**
 * The guard actions: `getGuards`, `deleteGuard`, `createGuard`,
 * `getGuardById` and `updateGuard` on the `guards` collection.
 */
module Guards {
  import opened Base
  import opened Text
  import opened Records
  import opened DataUtils
  import opened Validation
  import opened Collections
  import opened Repository

  /** The name of the collection every guard action reads and writes. */
  const Collection := "guards"

  /** `getGuards()`: the whole stored collection, in stored order. */
  function GetGuards(store: Store): (reply: Reply)
    reads store
    ensures reply.Data?
    ensures Collection in store.files ==> reply.records == store.files[Collection]
    ensures Collection !in store.files ==> reply.records == []
  {
    Data(store.ReadDataFile(Collection))
  }

  /**
   * `deleteGuard(guardId)`: writes back every record whose id is not
   * `guardId`, in order, and reports success whether or not one was removed.
   */
  method DeleteGuard(store: Store, guardId: Option<Value>) returns (reply: Reply)
    modifies store
    ensures reply == Done("Guard deleted successfully")
    ensures store.readOnly == old(store.readOnly)
    ensures store.files == Written(old(store.files), old(store.readOnly), Collection, Without(old(store.ReadDataFile(Collection)), guardId))
    ensures (forall i :: 0 <= i < |old(store.ReadDataFile(Collection))| ==> !HasId(old(store.ReadDataFile(Collection))[i], guardId)) ==>
      store.ReadDataFile(Collection) == old(store.ReadDataFile(Collection))
    ensures old(UniqueIds(store.ReadDataFile(Collection))) ==> UniqueIds(store.ReadDataFile(Collection))
    ensures old(UniqueEmails(store.ReadDataFile(Collection))) ==> UniqueEmails(store.ReadDataFile(Collection))
  {
    Remove(store, Collection, guardId);
    reply := Done("Guard deleted successfully");
  }

  /**
   * Every validation error of the guard form at once: name and post
   * required, the email required and well-formed.
   */
  function GuardErrors(form: Form): (errors: map<string, string>)
    ensures errors.Keys <= {"name", "email", "post"}
    ensures "name" in errors <==> Missing(form, "name")
    ensures "email" in errors <==> Missing(form, "email") || !MatchesEmailPattern(Trimmed(form, "email"))
    ensures "post" in errors <==> Missing(form, "post")
    ensures "name" in errors ==> errors["name"] == "Name is required"
    ensures "email" in errors ==> errors["email"] == if Missing(form, "email") then "Email is required" else "Please enter a valid email address"
    ensures "post" in errors ==> errors["post"] == "Post is required"
  {
    var e := Noted(map[], "name", Required(form, "name", "Name is required"));
    var e := Noted(e, "email", EmailProblem(form));
    Noted(e, "post", Required(form, "post", "Post is required"))
  }

  /**
   * The record `createGuard` appends: id, the trimmed name, email and post,
   * phone and address `null` when empty, shift "Morning" when empty, and both
   * timestamps set to `now`.
   */
  function NewGuard(form: Form, id: int, now: string): (guard: Record)
    ensures guard.Keys == {"id", "name", "email", "post", "phone", "address", "shift", "createdAt", "updatedAt"}
    ensures Id(guard) == Some(id)
    ensures EmailOf(guard) == Some(Trimmed(form, "email"))
    ensures guard["name"] == Str(Trimmed(form, "name")) && guard["post"] == Str(Trimmed(form, "post"))
    ensures guard["phone"] == OrElse(form, "phone", Null)
    ensures guard["address"] == OrElse(form, "address", Null)
    ensures guard["shift"] == if Given(form, "shift") then Str(form["shift"]) else Str("Morning")
    ensures guard["createdAt"] == guard["updatedAt"] == Str(now)
  {
    map["id" := Num(id),
        "name" := Str(Trimmed(form, "name")), "email" := Str(Trimmed(form, "email")), "post" := Str(Trimmed(form, "post")),
        "phone" := OrElse(form, "phone", Null), "address" := OrElse(form, "address", Null),
        "shift" := OrElse(form, "shift", Str("Morning")),
        "createdAt" := Str(now), "updatedAt" := Str(now)]
  }

  /**
   * `createGuard(prevState, formData)`: the validation errors, or the
   * duplicate-email refusal, or one new guard appended with the next id.
   */
  method CreateGuard(store: Store, form: Form, now: string) returns (state: FormState)
    modifies store
    ensures store.readOnly == old(store.readOnly)
    ensures var prior := old(store.ReadDataFile(Collection));
      var o := Create(prior, GuardErrors(form), Trimmed(form, "email"), NewGuard(form, GenerateId(prior), now),
                      "A guard with this email already exists", "Guard created successfully!");
      state == o.state && store.files == if o.written.Some? then Written(old(store.files), old(store.readOnly), Collection, o.written.value) else old(store.files)
    ensures !state.success ==> store.files == old(store.files)
    ensures old(UniqueIds(store.ReadDataFile(Collection)) && UniqueEmails(store.ReadDataFile(Collection))) ==>
      UniqueIds(store.ReadDataFile(Collection)) && UniqueEmails(store.ReadDataFile(Collection))
  {
    state := Add(store, Collection, GuardErrors(form), Trimmed(form, "email"), id => NewGuard(form, id, now),
                 "A guard with this email already exists", "Guard created successfully!");
  }

  /** `getGuardById(id)`: the first record whose id is `parseInt(id)`, or "Guard not found". */
  function GetGuardById(store: Store, id: string): (reply: Reply)
    reads store
    ensures reply.Item? || reply == Error("Guard not found")
    ensures reply.Item? ==> FindById(store.ReadDataFile(Collection), ParseInt(id)) == Some(reply.record)
    ensures reply.Error? <==> ParseInt(id).None? || forall i :: 0 <= i < |store.ReadDataFile(Collection)| ==> Id(store.ReadDataFile(Collection)[i]) != ParseInt(id)
  {
    match FindById(store.ReadDataFile(Collection), ParseInt(id))
    case None => Error("Guard not found")
    case Some(guard) => Item(guard)
  }

  /**
   * The fields `updateGuard` spreads over the stored record: name, email and
   * post as submitted, phone and address `null` when empty, shift "Morning"
   * when empty, and the update time; `id` and `createdAt` are not listed.
   */
  function GuardFields(form: Form, now: string): (fields: map<string, Value>)
    ensures fields.Keys == {"name", "email", "post", "phone", "address", "shift", "updatedAt"}
    ensures "id" !in fields && "createdAt" !in fields
    ensures fields["name"] == Raw(form, "name") && fields["email"] == Raw(form, "email") && fields["post"] == Raw(form, "post")
    ensures fields["phone"] == OrElse(form, "phone", Null)
    ensures fields["address"] == OrElse(form, "address", Null)
    ensures fields["shift"] == if Given(form, "shift") then Str(form["shift"]) else Str("Morning")
    ensures fields["updatedAt"] == Str(now)
  {
    map["name" := Raw(form, "name"), "email" := Raw(form, "email"), "post" := Raw(form, "post"),
        "phone" := OrElse(form, "phone", Null), "address" := OrElse(form, "address", Null),
        "shift" := OrElse(form, "shift", Str("Morning")),
        "updatedAt" := Str(now)]
  }

  /**
   * `updateGuard(id, formData)`: no write and "Guard not found" when no record
   * has id `parseInt(id)`; otherwise only that record changes.
   */
  method UpdateGuard(store: Store, id: string, form: Form, now: string) returns (reply: Reply)
    modifies store
    ensures store.readOnly == old(store.readOnly)
    ensures var prior := old(store.ReadDataFile(Collection));
      if FindIndex(prior, ParseInt(id)).None? then
        reply == Error("Guard not found") && store.files == old(store.files)
      else
        reply == Done("Guard updated successfully") &&
        store.files == Written(old(store.files), old(store.readOnly), Collection, Replaced(prior, ParseInt(id), GuardFields(form, now)))
    ensures old(UniqueIds(store.ReadDataFile(Collection))) ==> UniqueIds(store.ReadDataFile(Collection))
  {
    var found := Update(store, Collection, ParseInt(id), GuardFields(form, now));
    if !found {
      return Error("Guard not found");
    }
    reply := Done("Guard updated successfully");
  }
}
