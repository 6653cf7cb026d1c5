/**
 * What every `create*` action decides once it has validated its form: report
 * the field errors, refuse a duplicate email, or append the new record. The
 * four entity modules build their errors and records and then follow this.
 */
module Repository {
  import opened Base
  import opened Records
  import opened DataUtils
  import opened Validation
  import opened Collections

  /** The form state a create action returns and the collection it writes, if it writes. */
  datatype Outcome = Outcome(state: FormState, written: Option<seq<Record>>)

  /**
   * The create decision on the collection `prior`, the validation `errors`,
   * the trimmed `email` and the `record` the action would append.
   * `duplicate` and `created` are the entity's own messages.
   */
  function Create(prior: seq<Record>, errors: map<string, string>, email: string, record: Record,
                  duplicate: string, created: string): (o: Outcome)
    ensures o.state.success <==> o.written.Some?
    ensures o.written.Some? <==> errors == map[] && !EmailTaken(prior, email)
    ensures o.written.Some? ==> |o.written.value| == |prior| + 1 && o.written.value[..|prior|] == prior && o.written.value[|prior|] == record
    ensures errors != map[] ==> o.state == FormState(false, errors, FixErrors)
    ensures errors == map[] && EmailTaken(prior, email) ==> o.state == FormState(false, map["email" := duplicate], "Email already exists")
    ensures o.state.success ==> o.state == FormState(true, map[], created)
  {
    if errors != map[] then Outcome(FormState(false, errors, FixErrors), None)
    else if EmailTaken(prior, email) then Outcome(FormState(false, map["email" := duplicate], "Email already exists"), None)
    else Outcome(FormState(true, map[], created), Some(prior + [record]))
  }

  /**
   * A create whose record carries `generateId(prior)` and the email it
   * checked keeps ids and emails unique in the collection it writes.
   */
  lemma CreateKeepsUnique(prior: seq<Record>, errors: map<string, string>, email: string, record: Record,
                          duplicate: string, created: string)
    requires UniqueIds(prior) && UniqueEmails(prior)
    requires Id(record) == Some(GenerateId(prior)) && EmailOf(record) == Some(email)
    ensures var o := Create(prior, errors, email, record, duplicate, created);
      o.written.Some? ==> UniqueIds(o.written.value) && UniqueEmails(o.written.value)
  {
    if errors == map[] && !EmailTaken(prior, email) {
      AppendKeepsUnique(prior, record);
    }
  }

  /**
   * Reads collection `name`, merges `fields` into the first record whose id
   * is `key` and writes the collection back; reports whether there was such
   * a record, and writes nothing when there was not.
   */
  method Update(store: Store, name: string, key: Option<int>, fields: map<string, Value>) returns (found: bool)
    modifies store
    ensures store.readOnly == old(store.readOnly)
    ensures found <==> FindIndex(old(store.ReadDataFile(name)), key).Some?
    ensures !found ==> store.files == old(store.files)
    ensures found ==> store.files == Written(old(store.files), old(store.readOnly), name, Replaced(old(store.ReadDataFile(name)), key, fields))
    ensures "id" !in fields && old(UniqueIds(store.ReadDataFile(name))) ==> UniqueIds(store.ReadDataFile(name))
  {
    var records := store.ReadDataFile(name);
    var index := FindIndex(records, key);
    if index.None? {
      return false;
    }
    var updated := records[index.value := Merge(records[index.value], fields)];
    assert updated == Replaced(records, key, fields);
    if "id" !in fields {
      ReplacedKeepsIds(records, key, fields);
    }
    var _ := store.WriteDataFile(name, updated);
    found := true;
  }

  /**
   * The steps every create action takes after validation: with no errors, read
   * collection `name`, refuse an `email` some record already has, otherwise
   * append `build(generateId(prior))` and write the collection back.
   */
  method Add(store: Store, name: string, errors: map<string, string>, email: string, build: int -> Record,
             duplicate: string, created: string) returns (state: FormState)
    modifies store
    ensures store.readOnly == old(store.readOnly)
    ensures var prior := old(store.ReadDataFile(name));
      var o := Create(prior, errors, email, build(GenerateId(prior)), duplicate, created);
      state == o.state && store.files == if o.written.Some? then Written(old(store.files), old(store.readOnly), name, o.written.value) else old(store.files)
    ensures var prior := old(store.ReadDataFile(name));
      var record := build(GenerateId(prior));
      UniqueIds(prior) && UniqueEmails(prior) && Id(record) == Some(GenerateId(prior)) && EmailOf(record) == Some(email) ==>
        UniqueIds(store.ReadDataFile(name)) && UniqueEmails(store.ReadDataFile(name))
  {
    if errors != map[] {
      return FormState(false, errors, FixErrors);
    }
    var prior := store.ReadDataFile(name);
    if EmailTaken(prior, email) {
      return FormState(false, map["email" := duplicate], "Email already exists");
    }
    var record := build(GenerateId(prior));
    if UniqueIds(prior) && UniqueEmails(prior) && Id(record) == Some(GenerateId(prior)) && EmailOf(record) == Some(email) {
      CreateKeepsUnique(prior, errors, email, record, duplicate, created);
    }
    var _ := store.WriteDataFile(name, prior + [record]);
    state := FormState(true, map[], created);
  }

  /**
   * Reads collection `name`, drops every record whose id is `===` to `id` and writes
   * the rest back in order.
   */
  method Remove(store: Store, name: string, id: Option<Value>)
    modifies store
    ensures store.readOnly == old(store.readOnly)
    ensures store.files == Written(old(store.files), old(store.readOnly), name, Without(old(store.ReadDataFile(name)), id))
    ensures name !in store.readOnly ==>
      forall i :: 0 <= i < |store.ReadDataFile(name)| ==> !HasId(store.ReadDataFile(name)[i], id)
    ensures (forall i :: 0 <= i < |old(store.ReadDataFile(name))| ==> !HasId(old(store.ReadDataFile(name))[i], id)) ==>
      store.ReadDataFile(name) == old(store.ReadDataFile(name))
    ensures old(UniqueIds(store.ReadDataFile(name))) ==> UniqueIds(store.ReadDataFile(name))
    ensures old(UniqueEmails(store.ReadDataFile(name))) ==> UniqueEmails(store.ReadDataFile(name))
  {
    var records := store.ReadDataFile(name);
    if forall i :: 0 <= i < |records| ==> !HasId(records[i], id) {
      WithoutAbsent(records, id);
    }
    if UniqueIds(records) {
      WithoutKeepsUniqueIds(records, id);
    }
    if UniqueEmails(records) {
      WithoutKeepsUniqueEmails(records, id);
    }
    var _ := store.WriteDataFile(name, Without(records, id));
  }
}
