/**
 * The array operations every entity's actions perform on a collection they
 * have read: `filter` by id for delete, `find`/`findIndex` by `parseInt(id)`
 * for lookup and update, `some` on the email for the duplicate check, and the
 * spread `{ ...old, ...fields }` that update stores at the found index.
 */
module Collections {
  import opened Base
  import opened Records
  import opened DataUtils

  /** No two records share a numeric id. */
  ghost predicate UniqueIds(records: seq<Record>) {
    forall i, j :: 0 <= i < j < |records| && Id(records[i]).Some? ==> Id(records[i]) != Id(records[j])
  }

  /** No two records share a string email. */
  ghost predicate UniqueEmails(records: seq<Record>) {
    forall i, j :: 0 <= i < j < |records| && EmailOf(records[i]).Some? ==> EmailOf(records[i]) != EmailOf(records[j])
  }

  // ------------------------------------------------------------------ delete

  /** `records.filter((r) => r.id !== id)`: no record whose id is `===` to `id` is left. */
  function Without(records: seq<Record>, id: Option<Value>): (kept: seq<Record>)
    ensures |kept| <= |records|
    ensures forall j :: 0 <= j < |kept| ==> !HasId(kept[j], id)
  {
    if records == [] then []
    else (if HasId(records[0], id) then [] else [records[0]]) + Without(records[1..], id)
  }

  /** Each record without that id is kept as often as it occurs; each record with it is dropped. */
  lemma {:induction false} WithoutCounts(records: seq<Record>, id: Option<Value>)
    ensures forall r :: multiset(Without(records, id))[r] == if HasId(r, id) then 0 else multiset(records)[r]
  {
    if records != [] {
      WithoutCounts(records[1..], id);
      assert records == [records[0]] + records[1..];
    }
  }

  /** The filter keeps the order of what it keeps: it distributes over concatenation. */
  lemma {:induction false} WithoutConcat(a: seq<Record>, b: seq<Record>, id: Option<Value>)
    ensures Without(a + b, id) == Without(a, id) + Without(b, id)
  {
    if a != [] {
      var head := if HasId(a[0], id) then [] else [a[0]];
      assert (a + b)[0] == a[0];
      assert (a + b)[1..] == a[1..] + b;
      WithoutConcat(a[1..], b, id);
      assert Without(a + b, id) == head + Without(a[1..] + b, id);
      assert Without(a, id) == head + Without(a[1..], id);
    } else {
      assert a + b == b;
    }
  }

  /** Deleting an id no record has leaves the collection as it was. */
  lemma {:induction false} WithoutAbsent(records: seq<Record>, id: Option<Value>)
    requires forall i :: 0 <= i < |records| ==> !HasId(records[i], id)
    ensures Without(records, id) == records
  {
    if records != [] {
      WithoutAbsent(records[1..], id);
      assert records == [records[0]] + records[1..];
    }
  }

  /** Every record the filter keeps is one of the records it was given. */
  lemma {:induction false} WithoutFrom(records: seq<Record>, id: Option<Value>)
    ensures forall j :: 0 <= j < |Without(records, id)| ==> Without(records, id)[j] in records
  {
    if records != [] {
      WithoutFrom(records[1..], id);
      var w := Without(records[1..], id);
      forall j | 0 <= j < |w| ensures w[j] in records {
        assert w[j] in records[1..];
      }
    }
  }

  /** Deleting keeps ids unique. */
  lemma {:induction false} WithoutKeepsUniqueIds(records: seq<Record>, id: Option<Value>)
    requires UniqueIds(records)
    ensures UniqueIds(Without(records, id))
  {
    if records != [] {
      var rest := records[1..];
      assert UniqueIds(rest);
      WithoutKeepsUniqueIds(rest, id);
      if !HasId(records[0], id) {
        var head := records[0];
        var w := Without(rest, id);
        WithoutFrom(rest, id);
        forall j | 0 <= j < |w| && Id(head).Some? ensures Id(head) != Id(w[j]) {
          var k :| 0 <= k < |rest| && rest[k] == w[j];
          assert records[k + 1] == w[j];
        }
        assert Without(records, id) == [head] + w;
      }
    }
  }

  /** Deleting keeps emails unique. */
  lemma {:induction false} WithoutKeepsUniqueEmails(records: seq<Record>, id: Option<Value>)
    requires UniqueEmails(records)
    ensures UniqueEmails(Without(records, id))
  {
    if records != [] {
      var rest := records[1..];
      assert UniqueEmails(rest);
      WithoutKeepsUniqueEmails(rest, id);
      if !HasId(records[0], id) {
        var head := records[0];
        var w := Without(rest, id);
        WithoutFrom(rest, id);
        forall j | 0 <= j < |w| && EmailOf(head).Some? ensures EmailOf(head) != EmailOf(w[j]) {
          var k :| 0 <= k < |rest| && rest[k] == w[j];
          assert records[k + 1] == w[j];
        }
        assert Without(records, id) == [head] + w;
      }
    }
  }

  // ------------------------------------------------------------------ lookup

  /** `records.findIndex((r) => r.id === key)`, where `key` is `parseInt(id)` and `None` stands for `NaN`. */
  function FindIndex(records: seq<Record>, key: Option<int>): (index: Option<nat>)
    ensures index.Some? ==> index.value < |records| && key.Some? && Id(records[index.value]) == key
    ensures index.Some? ==> forall j :: 0 <= j < index.value ==> Id(records[j]) != key
    ensures index.None? ==> key.None? || forall j :: 0 <= j < |records| ==> Id(records[j]) != key
  {
    if records == [] || key.None? then None
    else if Id(records[0]) == key then Some(0)
    else
      match FindIndex(records[1..], key)
      case Some(j) => Some(j + 1)
      case None => None
  }

  /** `records.find((r) => r.id === key)`: the first record with that id, if any. */
  function FindById(records: seq<Record>, key: Option<int>): (found: Option<Record>)
    ensures found.Some? ==> key.Some? && Id(found.value) == key
    ensures found.Some? ==> exists i :: 0 <= i < |records| && records[i] == found.value && forall j :: 0 <= j < i ==> Id(records[j]) != key
    ensures found.None? <==> key.None? || forall j :: 0 <= j < |records| ==> Id(records[j]) != key
  {
    match FindIndex(records, key)
    case Some(i) => Some(records[i])
    case None => None
  }

  // ------------------------------------------------------------------ create

  /** `records.some((r) => r.email === email)`. */
  predicate EmailTaken(records: seq<Record>, email: string) {
    exists i :: 0 <= i < |records| && EmailOf(records[i]) == Some(email)
  }

  /**
   * Appending a record that carries the allocated id and an email nobody has
   * keeps ids and emails unique, and leaves the earlier records as they were.
   */
  lemma AppendKeepsUnique(records: seq<Record>, r: Record)
    requires UniqueIds(records) && UniqueEmails(records)
    requires Id(r) == Some(GenerateId(records))
    requires EmailOf(r).Some? && !EmailTaken(records, EmailOf(r).value)
    ensures UniqueIds(records + [r]) && UniqueEmails(records + [r])
    ensures (records + [r])[..|records|] == records
  {
    var next := records + [r];
    forall i, j | 0 <= i < j < |next| && Id(next[i]).Some? ensures Id(next[i]) != Id(next[j]) {
      if j == |records| {
        assert Id(records[i]).value < GenerateId(records);
      }
    }
    forall i, j | 0 <= i < j < |next| && EmailOf(next[i]).Some? ensures EmailOf(next[i]) != EmailOf(next[j]) {
      if j == |records| {
        assert EmailOf(records[i]) != Some(EmailOf(r).value);
      }
    }
  }

  // ------------------------------------------------------------------ update

  /** `{ ...r, ...fields }`: the listed fields overwritten, every other field kept. */
  function Merge(r: Record, fields: map<string, Value>): (m: Record)
    ensures m.Keys == r.Keys + fields.Keys
    ensures forall k :: k in fields ==> m[k] == fields[k]
    ensures forall k :: k in r && k !in fields ==> m[k] == r[k]
  {
    r + fields
  }

  /**
   * The collection an update writes back: the first record whose id is `key`
   * merged with `fields`, and nothing else changed; the collection as it was
   * when no record has that id.
   */
  function Replaced(records: seq<Record>, key: Option<int>, fields: map<string, Value>): (updated: seq<Record>)
    ensures |updated| == |records|
    ensures FindIndex(records, key).None? ==> updated == records
    ensures FindIndex(records, key).Some? ==>
      var i := FindIndex(records, key).value;
      && (forall j :: 0 <= j < |records| && j != i ==> updated[j] == records[j])
      && updated[i].Keys == records[i].Keys + fields.Keys
      && (forall k :: k in fields ==> updated[i][k] == fields[k])
      && (forall k :: k in records[i] && k !in fields ==> updated[i][k] == records[i][k])
  {
    match FindIndex(records, key)
    case None => records
    case Some(i) => records[i := Merge(records[i], fields)]
  }

  /** An update that does not list `id` changes no record's id, so ids stay unique. */
  lemma ReplacedKeepsIds(records: seq<Record>, key: Option<int>, fields: map<string, Value>)
    requires "id" !in fields
    ensures forall j :: 0 <= j < |records| ==> Id(Replaced(records, key, fields)[j]) == Id(records[j])
    ensures UniqueIds(records) ==> UniqueIds(Replaced(records, key, fields))
  {
    var updated := Replaced(records, key, fields);
    forall j | 0 <= j < |records| ensures Id(updated[j]) == Id(records[j]) {
      if FindIndex(records, key) == Some(j) {
        assert "id" in updated[j] <==> "id" in records[j];
        if "id" in records[j] {
          assert updated[j]["id"] == records[j]["id"];
        }
      }
    }
  }

  /**
   * The update as it should be: it refuses (`None`) to give the record an
   * email another record already has, and otherwise writes what `Replaced` writes.
   */
  function ReplacedChecked(records: seq<Record>, key: Option<int>, fields: map<string, Value>): (updated: Option<seq<Record>>)
    ensures updated.Some? ==> updated.value == Replaced(records, key, fields)
    ensures updated.None? <==> (
      && FindIndex(records, key).Some?
      && var i := FindIndex(records, key).value;
         EmailOf(Merge(records[i], fields)).Some? &&
         exists j :: 0 <= j < |records| && j != i && EmailOf(records[j]) == EmailOf(Merge(records[i], fields)))
    ensures UniqueEmails(records) && updated.Some? ==> UniqueEmails(updated.value)
  {
    match FindIndex(records, key)
    case None => Some(records)
    case Some(i) =>
      var r := Merge(records[i], fields);
      if EmailOf(r).Some? && exists j :: 0 <= j < |records| && j != i && EmailOf(records[j]) == EmailOf(r) then None
      else
        var next := records[i := r];
        assert UniqueEmails(records) ==> UniqueEmails(next) by {
          if UniqueEmails(records) {
            forall a, b | 0 <= a < b < |next| && EmailOf(next[a]).Some? ensures EmailOf(next[a]) != EmailOf(next[b]) {
              if a != i && b != i {
                assert next[a] == records[a] && next[b] == records[b];
              }
            }
          }
        }
        Some(next)
  }

  /**
   * The update as written breaks email uniqueness: two records with distinct
   * emails, and an update of the second that submits the first one's email.
   * The checked update refuses that same update.
   */
  lemma ReplacedDuplicatesEmail()
    ensures var records := [map["id" := Num(1), "email" := Str("a@x.io")], map["id" := Num(2), "email" := Str("b@x.io")]];
      var fields := map["email" := Str("a@x.io")];
      UniqueEmails(records) && !UniqueEmails(Replaced(records, Some(2), fields)) && ReplacedChecked(records, Some(2), fields).None?
  {
    var records := [map["id" := Num(1), "email" := Str("a@x.io")], map["id" := Num(2), "email" := Str("b@x.io")]];
    var fields := map["email" := Str("a@x.io")];
    assert "a@x.io"[0] != "b@x.io"[0];
    assert Id(records[0]) == Some(1) && Id(records[1]) == Some(2);
    assert FindIndex(records, Some(2)) == Some(1);
    var updated := Replaced(records, Some(2), fields);
    assert EmailOf(updated[0]) == EmailOf(updated[1]) == Some("a@x.io");
  }
}
