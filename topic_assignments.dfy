/**
 * The "Topic Assignment" records a session reads and writes, kept in a record
 * store keyed by record name. The store stands in for the record-access calls
 * the session code makes: reading one field, writing one field directly,
 * inserting a new record under a generated name, saving and submitting.
 */
module TopicAssignments {
  import opened Wrappers

  /** One Topic Assignment record. `submitted` is its document status (draft or
      submitted); `modified` the timestamp of its last write. */
  datatype TopicAssignment = TopicAssignment(
    title: string,
    description: string,
    council: string,
    topic: string,
    status: string,
    decision: string,
    decisionType: string,
    submitted: bool,
    modified: nat)

  function DigitChar(d: nat): char
    requires d < 10
  {
    "0123456789"[d]
  }

  /** The decimal digits of `n`. */
  function Digits(n: nat): (s: string)
    ensures 1 <= |s|
    ensures 10 <= n ==> 2 <= |s|
  {
    if n < 10 then [DigitChar(n)] else Digits(n / 10) + [DigitChar(n % 10)]
  }

  lemma {:induction false} DigitsInjective(a: nat, b: nat)
    requires Digits(a) == Digits(b)
    ensures a == b
  {
    if 10 <= a && 10 <= b {
      var sa, sb := Digits(a), Digits(b);
      assert DigitChar(a % 10) == sa[|sa| - 1] == sb[|sb| - 1] == DigitChar(b % 10);
      assert Digits(a / 10) == sa[..|sa| - 1] == sb[..|sb| - 1] == Digits(b / 10);
      DigitsInjective(a / 10, b / 10);
    }
  }

  /** The name the store gives to the n-th record it creates. */
  function NameFor(n: nat): string
  {
    "TA-" + Digits(n)
  }

  /** Distinct counters give distinct names. */
  lemma NameForInjective(a: nat, b: nat)
    requires a != b
    ensures NameFor(a) != NameFor(b)
  {
    if NameFor(a) == NameFor(b) {
      assert Digits(a) == NameFor(a)[3..] == NameFor(b)[3..] == Digits(b);
      DigitsInjective(a, b);
    }
  }

  /** No name the counter will still hand out from `n` on is taken. */
  ghost predicate FreshFrom(records: map<string, TopicAssignment>, n: nat)
  {
    forall i: nat :: n <= i ==> NameFor(i) !in records
  }

  /** Taking the counter's next name keeps the later names free. */
  lemma FreshAfterInsert(records: map<string, TopicAssignment>, n: nat, doc: TopicAssignment)
    requires FreshFrom(records, n)
    ensures NameFor(n) !in records
    ensures FreshFrom(records[NameFor(n) := doc], n + 1)
  {
    forall i: nat | n + 1 <= i ensures NameFor(i) !in records[NameFor(n) := doc] {
      NameForInjective(i, n);
    }
  }

  /** The `status` field of a record, `None` when no record has that name. */
  function StatusOf(records: map<string, TopicAssignment>, name: string): Option<string>
  {
    if name in records then Some(records[name].status) else None
  }

  /** A direct write of the `status` field, which also stamps the record's
      timestamp; a name with no record matches nothing and changes nothing. */
  function WithStatus(records: map<string, TopicAssignment>, name: string, status: string, now: nat)
    : (r: map<string, TopicAssignment>)
    ensures r.Keys == records.Keys
    ensures forall k :: k in records && k != name ==> r[k] == records[k]
    ensures name in records ==> r[name] == records[name].(status := status, modified := now)
  {
    if name in records then records[name := records[name].(status := status, modified := now)]
    else records
  }

  class Store {
    var records: map<string, TopicAssignment>
    var nextId: nat

    ghost predicate Valid()
      reads this
    {
      FreshFrom(records, nextId)
    }

    constructor (initial: map<string, TopicAssignment>, firstFree: nat)
      requires FreshFrom(initial, firstFree)
      ensures Valid()
      ensures records == initial && nextId == firstFree
    {
      records := initial;
      nextId := firstFree;
    }

    /** Writes one field of an existing record, bypassing the document lifecycle. */
    method SetStatus(name: string, status: string, now: nat)
      requires Valid()
      modifies this`records
      ensures Valid()
      ensures records == WithStatus(old(records), name, status, now)
    {
      records := WithStatus(records, name, status, now);
    }

    /** Inserts a new draft record under a name no record has. */
    method Insert(doc: TopicAssignment) returns (name: string)
      requires Valid()
      modifies this
      ensures Valid()
      ensures name == NameFor(old(nextId)) && name !in old(records)
      ensures records == old(records)[name := doc]
      ensures nextId == old(nextId) + 1
    {
      name := NameFor(nextId);
      FreshAfterInsert(records, nextId, doc);
      records := records[name := doc];
      nextId := nextId + 1;
    }

    /** Writes back a fetched draft record; a submitted record cannot be saved. */
    method Save(name: string, doc: TopicAssignment, now: nat)
      requires Valid()
      requires name in records && !records[name].submitted
      modifies this`records
      ensures Valid()
      ensures records == old(records)[name := doc.(modified := now)]
    {
      records := records[name := doc.(modified := now)];
    }

    /** Submits a draft record; a record can be submitted only once. */
    method Submit(name: string, now: nat)
      requires Valid()
      requires name in records && !records[name].submitted
      modifies this`records
      ensures Valid()
      ensures records == old(records)[name := old(records)[name].(submitted := true, modified := now)]
    {
      records := records[name := records[name].(submitted := true, modified := now)];
    }
  }
}
