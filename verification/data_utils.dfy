/**
 * The storage accessor and the id allocator: `readDataFile`, `writeDataFile`
 * and `generateId`. The directory of JSON files is a map from collection name
 * to the records its file holds.
 */
module DataUtils {
  import opened Base
  import opened Records

  /** The data directory: one JSON array per collection name. */
  class Store {
    /** The collections whose file holds a readable JSON array, by name. */
    var files: map<string, seq<Record>>
    /** The collections whose file cannot be written. */
    var readOnly: set<string>

    constructor (files: map<string, seq<Record>>, readOnly: set<string>)
      ensures this.files == files && this.readOnly == readOnly
    {
      this.files := files;
      this.readOnly := readOnly;
    }

    /** `readDataFile(name)`: the stored collection; a missing or unreadable file reads as `[]`, never as an error. */
    function ReadDataFile(name: string): (records: seq<Record>)
      reads this
      ensures name in files ==> records == files[name]
      ensures name !in files ==> records == []
    {
      if name in files then files[name] else []
    }

    /** `writeDataFile(name, data)`: overwrites the collection and reports `true`, or reports `false` and changes nothing. */
    method WriteDataFile(name: string, data: seq<Record>) returns (ok: bool)
      modifies this
      ensures ok <==> name !in old(readOnly)
      ensures readOnly == old(readOnly)
      ensures files == Written(old(files), old(readOnly), name, data)
      ensures ok ==> ReadDataFile(name) == data
      ensures forall other :: other != name ==> ReadDataFile(other) == old(ReadDataFile(other))
    {
      ok := name !in readOnly;
      if ok {
        files := files[name := data];
      }
    }
  }

  /**
   * The collections after `writeDataFile(name, data)` on a directory holding
   * `files`: the whole collection replaced, or nothing changed when its file
   * cannot be written.
   */
  function Written(files: map<string, seq<Record>>, readOnly: set<string>, name: string, data: seq<Record>): map<string, seq<Record>> {
    if name in readOnly then files else files[name := data]
  }

  /** The largest numeric id among `records`; `None` when no record has one. */
  function MaxId(records: seq<Record>): (m: Option<int>)
    ensures m.None? <==> forall i :: 0 <= i < |records| ==> Id(records[i]).None?
    ensures m.Some? ==> forall i :: 0 <= i < |records| && Id(records[i]).Some? ==> Id(records[i]).value <= m.value
    ensures m.Some? ==> exists i :: 0 <= i < |records| && Id(records[i]) == m
  {
    if records == [] then None
    else
      var rest := MaxId(records[1..]);
      assert forall i :: 1 <= i < |records| ==> records[i] == records[1..][i - 1];
      match Id(records[0])
      case None => rest
      case Some(n) => if rest.Some? && rest.value > n then rest else Some(n)
  }

  /**
   * `generateId(records)`: 1 for an empty collection or one without numeric
   * ids, otherwise the largest numeric id plus one.
   */
  function GenerateId(records: seq<Record>): (id: int)
    ensures (forall i :: 0 <= i < |records| ==> Id(records[i]).None?) ==> id == 1
    ensures forall i :: 0 <= i < |records| && Id(records[i]).Some? ==> Id(records[i]).value < id
    ensures (exists i :: 0 <= i < |records| && Id(records[i]).Some?) ==> exists i :: 0 <= i < |records| && Id(records[i]) == Some(id - 1)
  {
    if |records| == 0 then 1
    else
      match MaxId(records)
      case None => 1
      case Some(m) => m + 1
  }

  /**
   * When every record of `a` is also in `b` and `a` holds a numeric id, `b`
   * gets an id no smaller than `a` does.
   */
  lemma GenerateIdWithin(a: seq<Record>, b: seq<Record>)
    requires forall r :: r in a ==> r in b
    requires exists i :: 0 <= i < |a| && Id(a[i]).Some?
    ensures GenerateId(a) <= GenerateId(b)
  {
    var i :| 0 <= i < |a| && Id(a[i]) == Some(GenerateId(a) - 1);
    assert a[i] in b;
    var j :| 0 <= j < |b| && b[j] == a[i];
  }

  /** `generateId` depends only on which records there are, not on their order. */
  lemma GenerateIdPermutation(a: seq<Record>, b: seq<Record>)
    requires multiset(a) == multiset(b)
    ensures GenerateId(a) == GenerateId(b)
  {
    forall r | r in a ensures r in b {
      assert r in multiset(a);
    }
    forall r | r in b ensures r in a {
      assert r in multiset(b);
    }
    if exists i :: 0 <= i < |a| && Id(a[i]).Some? {
      var i :| 0 <= i < |a| && Id(a[i]).Some?;
      assert a[i] in b;
      var j :| 0 <= j < |b| && b[j] == a[i];
      GenerateIdWithin(a, b);
      GenerateIdWithin(b, a);
    } else {
      forall j | 0 <= j < |b| ensures Id(b[j]).None? {
        assert b[j] in a;
      }
    }
  }
}
