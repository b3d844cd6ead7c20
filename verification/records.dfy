/**
 * Self-certification records as the admin table holds them, the flattening
 * of the related certifier's name (`decorateData`) and the search filter
 * of `handleSearch`.
 */
module CertRecords {
  import opened Wrappers
  import opened Text

  /**
   * One certification record. `fields` are the string forms (`String(val)`)
   * of the record's own field values in key order, as the search sees them;
   * the named fields are the ones the CSV export reads, `""` when absent.
   * The two are separate data here; `FieldsListed` ties them together as
   * they are in a fetched record.
   */
  datatype CertRecord = CertRecord(
    fields: seq<string>,
    country: string,               // Country__c
    certificationDate: string,     // Certification_Date__c, undecoded
    status: string,                // Status__c
    certifiedBy: Option<string>,   // Certified_By__r.Name, present iff the relation is
    certifiedByName: Option<string>) // Certified_By_Name, once the record is decorated

  /** `Object.values(record)` as strings: the added display field comes last. */
  function Values(r: CertRecord): seq<string>
  {
    r.fields + (if r.certifiedByName.Some? then [r.certifiedByName.value] else [])
  }

  /** `rec.Certified_By__r ? rec.Certified_By__r.Name : ''`. */
  function RelatedName(r: CertRecord): string
  {
    if r.certifiedBy.Some? then r.certifiedBy.value else ""
  }

  /** `{...rec, Certified_By_Name: ...}` for one record. */
  function DecorateRecord(r: CertRecord): CertRecord
  {
    r.(certifiedByName := Some(RelatedName(r)))
  }

  /**
   * `decorateData`: the same records, in the same order, each carrying the
   * related certifier's name (or `""`) as its flat display field and
   * otherwise unchanged.
   */
  function Decorate(recs: seq<CertRecord>): (r: seq<CertRecord>)
    ensures |r| == |recs|
    ensures forall i :: 0 <= i < |r| ==>
      r[i].fields == recs[i].fields && r[i].country == recs[i].country &&
      r[i].certificationDate == recs[i].certificationDate &&
      r[i].status == recs[i].status && r[i].certifiedBy == recs[i].certifiedBy
    ensures forall i :: 0 <= i < |r| ==>
      r[i].certifiedByName == Some(if recs[i].certifiedBy.Some? then recs[i].certifiedBy.value else "")
    decreases |recs|
  {
    if recs == [] then [] else [DecorateRecord(recs[0])] + Decorate(recs[1..])
  }

  /** Decorating records that are already decorated changes nothing. */
  lemma {:induction false} DecorateIdempotent(recs: seq<CertRecord>)
    ensures Decorate(Decorate(recs)) == Decorate(recs)
    decreases |recs|
  {
    if recs != [] {
      DecorateIdempotent(recs[1..]);
      assert Decorate(recs)[1..] == Decorate(recs[1..]);
    }
  }

  /**
   * One field value passes the search: `strVal && strVal.toLowerCase().includes(key)`,
   * where `key` is already lower-cased.
   */
  predicate ValueHit(v: string, key: string)
  {
    v != "" && Contains(Lower(v), key)
  }

  /** `Object.values(record).some(...)`: some field value passes the search. */
  predicate Matches(r: CertRecord, key: string)
  {
    exists v :: v in Values(r) && ValueHit(v, key)
  }

  /**
   * Once decorated, a record is found by any non-empty key that occurs in
   * its related certifier's name, whatever its other fields hold.
   */
  lemma DecoratedFoundByName(r: CertRecord, key: string)
    requires r.certifiedBy.Some? && key != ""
    requires Contains(Lower(r.certifiedBy.value), key)
    ensures Matches(DecorateRecord(r), key)
  {
    var v := r.certifiedBy.value;
    assert Values(DecorateRecord(r))[|r.fields|] == v;
    assert ValueHit(v, key);
  }

  /**
   * A record as fetched: each named field the export reads is, when
   * present, also one of the record's own values, and a present relation
   * `Certified_By__r` is among them as `String` of an object,
   * "[object Object]".
   */
  predicate FieldsListed(r: CertRecord)
  {
    (r.country != "" ==> r.country in r.fields) &&
    (r.certificationDate != "" ==> r.certificationDate in r.fields) &&
    (r.status != "" ==> r.status in r.fields) &&
    (r.certifiedBy.Some? ==> "[object Object]" in r.fields)
  }

  /**
   * A fetched record is found, before and after decoration, by any
   * non-empty key that occurs in its country or its status, lower-cased.
   */
  lemma FoundByExportedField(r: CertRecord, key: string)
    requires FieldsListed(r) && key != ""
    requires Contains(Lower(r.country), key) || Contains(Lower(r.status), key)
    ensures Matches(r, key) && Matches(DecorateRecord(r), key)
  {
    var v := if Contains(Lower(r.country), key) then r.country else r.status;
    assert v != "";
    assert v in Values(r) && v in Values(DecorateRecord(r));
    assert ValueHit(v, key);
  }

  /**
   * The search also reads the relation object's string form, so the key
   * "object" finds every fetched record that has a certifier, whatever
   * its fields hold.
   */
  lemma FoundByObjectKey(r: CertRecord)
    requires FieldsListed(r) && r.certifiedBy.Some?
    ensures Matches(r, "object")
  {
    var v := "[object Object]";
    var low := Lower(v);
    assert forall i :: 1 <= i < 7 ==> low[i] == v[i];
    assert low[1..7] == "object";
    OccursContains(low, "object", 1);
    assert v in Values(r) && ValueHit(v, "object");
  }

  /** `initialRecords.filter(...)`: the records that match, in their original order. */
  function Filter(recs: seq<CertRecord>, key: string): (r: seq<CertRecord>)
    ensures |r| <= |recs|
    decreases |recs|
  {
    if recs == [] then []
    else
      var rest := Filter(recs[1..], key);
      if Matches(recs[0], key) then [recs[0]] + rest else rest
  }

  /** `a` is `b` with some elements removed, order kept. */
  predicate IsSubsequence<T(==)>(a: seq<T>, b: seq<T>)
    decreases |b|
  {
    if a == [] then true
    else if b == [] then false
    else if a[0] == b[0] then IsSubsequence(a[1..], b[1..])
    else IsSubsequence(a, b[1..])
  }

  lemma SubsequenceOfTail<T>(a: seq<T>, b: seq<T>)
    requires b != [] && IsSubsequence(a, b[1..]) && b[0] !in a
    ensures IsSubsequence(a, b)
  {
  }

  lemma {:induction false} SubsequenceRefl<T>(a: seq<T>)
    ensures IsSubsequence(a, a)
    decreases |a|
  {
    if a != [] {
      SubsequenceRefl(a[1..]);
    }
  }

  /**
   * A record is in the filter result if and only if it is in the input and
   * matches the key; the result keeps the input's order.
   */
  lemma {:induction false} FilterSpec(recs: seq<CertRecord>, key: string)
    ensures forall x :: x in Filter(recs, key) <==> x in recs && Matches(x, key)
    ensures IsSubsequence(Filter(recs, key), recs)
    decreases |recs|
  {
    if recs != [] {
      var rest := Filter(recs[1..], key);
      FilterSpec(recs[1..], key);
      assert forall x :: x in recs <==> x == recs[0] || x in recs[1..];
      if !Matches(recs[0], key) {
        SubsequenceOfTail(rest, recs);
      }
    }
  }

  /** Each record occurs in the filter result exactly as often as in the input if it matches, and not at all otherwise. */
  lemma {:induction false} FilterCount(recs: seq<CertRecord>, key: string, x: CertRecord)
    ensures multiset(Filter(recs, key))[x] == if Matches(x, key) then multiset(recs)[x] else 0
    decreases |recs|
  {
    if recs != [] {
      FilterCount(recs[1..], key, x);
      assert recs == [recs[0]] + recs[1..];
    }
  }

  /**
   * The list `handleSearch` shows for a lower-cased key: every record for
   * the empty key, otherwise the matching ones.
   */
  function SearchRecords(recs: seq<CertRecord>, key: string): seq<CertRecord>
  {
    if key != "" then Filter(recs, key) else recs
  }

  /**
   * `handleSearch` lower-cases the typed key, so two keys that differ only
   * in letter case give the same list.
   */
  lemma SearchIgnoresKeyCase(recs: seq<CertRecord>, a: string, b: string)
    requires SameIgnoringCase(a, b)
    ensures SearchRecords(recs, Lower(a)) == SearchRecords(recs, Lower(b))
  {
    LowerIgnoresCase(a, b);
  }

  /** The search result is the fetched list for the empty key, and exactly its matching records, in order, otherwise. */
  lemma SearchRecordsSpec(recs: seq<CertRecord>, key: string)
    ensures key == "" ==> SearchRecords(recs, key) == recs
    ensures key != "" ==> forall x :: x in SearchRecords(recs, key) <==> x in recs && Matches(x, key)
    ensures IsSubsequence(SearchRecords(recs, key), recs)
  {
    FilterSpec(recs, key);
    SubsequenceRefl(recs);
  }
}
