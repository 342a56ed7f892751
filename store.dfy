/**
 * The patient store: the mapping from patient id to stored record that each
 * request loads, as the sequence of its (id, record) entries in the order the
 * mapping iterates them (insertion order), together with the read and create
 * operations on it.
 */
module Store {
  import opened Patients
  import opened Errors

  type Entry = (string, Record)

  /** The ids of the entries, i.e. the keys of the mapping. */
  function Ids(e: seq<Entry>): set<string>
  {
    set i | 0 <= i < |e| :: e[i].0
  }

  /** The key invariant of a mapping: no id occurs twice. */
  predicate UniqueIds(e: seq<Entry>)
  {
    forall i, j :: 0 <= i < j < |e| ==> e[i].0 != e[j].0
  }

  lemma IdsAppend(e: seq<Entry>, x: Entry)
    ensures Ids(e + [x]) == Ids(e) + {x.0}
  {
    var e' := e + [x];
    assert forall i :: 0 <= i < |e| ==> e'[i] == e[i];
    assert e'[|e|] == x;
  }

  /** The mapping the entries stand for. */
  function ToMap(e: seq<Entry>): (m: map<string, Record>)
    ensures m.Keys == Ids(e)
    ensures UniqueIds(e) ==> forall i :: 0 <= i < |e| ==> m[e[i].0] == e[i].1
    decreases |e|
  {
    if e == [] then map[]
    else
      var init, last := e[..|e| - 1], e[|e| - 1];
      assert e == init + [last];
      IdsAppend(init, last);
      ToMap(init)[last.0 := last.1]
  }

  /** `read_patient`: the stored record under the id, or NotFound (404). */
  function ReadPatient(e: seq<Entry>, id: string): (r: Result<Record>)
    ensures r.Err? <==> id !in Ids(e)
    ensures r.Err? ==> r.error == NotFound
    ensures r.Ok? ==> (id, r.value) in e
    decreases |e|
  {
    if e == [] then Err(NotFound)
    else
      assert e == [e[0]] + e[1..];
      assert Ids(e) == {e[0].0} + Ids(e[1..]) by {
        assert forall i :: 1 <= i < |e| ==> e[i] == e[1..][i - 1];
      }
      if e[0].0 == id then Ok(e[0].1)
      else ReadPatient(e[1..], id)
  }

  /** On a mapping, reading is lookup: absent keys give NotFound, present keys their value. */
  lemma ReadAgreesWithMap(e: seq<Entry>, id: string)
    requires UniqueIds(e)
    ensures ReadPatient(e, id) == if id in ToMap(e) then Ok(ToMap(e)[id]) else Err(NotFound)
  {
  }

  /** Appending an entry leaves every earlier answer alone and makes a new id readable. */
  lemma {:induction false} ReadAfterAppend(e: seq<Entry>, x: Entry, id: string)
    ensures ReadPatient(e + [x], id) ==
      if id == x.0 && x.0 !in Ids(e) then Ok(x.1) else ReadPatient(e, id)
    decreases |e|
  {
    if e == [] {
      assert [] + [x] == [x];
    } else {
      assert (e + [x])[1..] == e[1..] + [x];
      assert Ids(e) == {e[0].0} + Ids(e[1..]) by {
        assert e == [e[0]] + e[1..];
        assert forall i :: 1 <= i < |e| ==> e[i] == e[1..][i - 1];
      }
      ReadAfterAppend(e[1..], x, id);
    }
  }

  /** Adding a fresh id keeps the ids unique, adds exactly that key and grows the key count by one. */
  lemma InsertFresh(e: seq<Entry>, id: string, rec: Record)
    requires UniqueIds(e) && id !in Ids(e)
    ensures UniqueIds(e + [(id, rec)])
    ensures ToMap(e + [(id, rec)]) == ToMap(e)[id := rec]
    ensures |ToMap(e + [(id, rec)])| == |ToMap(e)| + 1
  {
  }

  /** The confirmation of a successful create: the message and the full record, id included. */
  datatype Created = Created(message: string, id: string, record: Record)

  /**
   * The mapping loaded for one request. `create_patient` updates it in place
   * before it is written back.
   */
  class PatientData {
    var entries: seq<Entry>

    ghost predicate Valid()
      reads this
    {
      UniqueIds(entries)
    }

    /** The mapping view of the entries. */
    function Data(): map<string, Record>
      reads this
    {
      ToMap(entries)
    }

    constructor (initial: seq<Entry>)
      requires UniqueIds(initial)
      ensures Valid() && entries == initial
    {
      entries := initial;
    }

    /**
     * `create_patient`: a body that breaks a field constraint is rejected
     * with the offending fields, a known id with AlreadyExists; otherwise the
     * dump of the patient without its id is added under the id.
     */
    method CreatePatient(p: Patient) returns (r: Result<Created>)
      requires Valid()
      modifies this
      ensures Valid()
      ensures !ValidPatient(p) ==>
        r == Err(ValidationError(Violations(p))) && entries == old(entries)
      ensures ValidPatient(p) && p.id in old(Data()) ==>
        r == Err(AlreadyExists) && entries == old(entries)
      ensures ValidPatient(p) && p.id !in old(Data()) ==>
        r == Ok(Created("Patient created successfully", p.id, Dump(p))) &&
        entries == old(entries) + [(p.id, Dump(p))] &&
        Data() == old(Data())[p.id := Dump(p)] &&
        |Data()| == |old(Data())| + 1 &&
        ReadPatient(entries, p.id) == Ok(Dump(p)) &&
        forall id :: id != p.id ==> ReadPatient(entries, id) == ReadPatient(old(entries), id)
    {
      var bad := Violations(p);
      if bad != {} {
        return Err(ValidationError(bad));
      }
      if p.id in Data() {
        return Err(AlreadyExists);
      }
      var rec := Dump(p);
      InsertFresh(entries, p.id, rec);
      forall id {
        ReadAfterAppend(entries, (p.id, rec), id);
      }
      entries := entries + [(p.id, rec)];
      r := Ok(Created("Patient created successfully", p.id, rec));
    }
  }
}
