/** What the task manager stores and reads back under the key "tasks". The
    JSON text is abstracted to the sequence of records it encodes; a
    record's `id` is whatever the JSON held, which need not be an integer. */
module Storage {
  import opened Seqs
  import opened Tasks

  /** The `id` field of a stored record as JSON gives it back. An array
      element that is a number, a string or an array has no `id` field, so
      for the filter it is a record whose id is `Missing`. */
  datatype RawId = Missing | Null | Integer(n: int) | NotInteger

  datatype RawRecord = RawRecord(id: RawId, description: string, completed: bool)

  /** The test of `loadTasks`: the id is neither undefined nor null and is
      an integer. */
  predicate HasIntegerId(x: RawRecord)
  {
    x.id != Missing && x.id != Null && x.id.Integer?
  }

  function Decode(x: RawRecord): Task
    requires HasIntegerId(x)
  {
    Task(x.id.n, x.description, x.completed)
  }

  function Encode(t: Task): RawRecord
  {
    RawRecord(Integer(t.id), t.description, t.completed)
  }

  /** The filter of `loadTasks`: the records with an integer id, in input
      order, as tasks. */
  function LoadFilter(raw: seq<RawRecord>): (r: seq<Task>)
    ensures |r| <= |raw|
    ensures forall t: Task :: t in r <==> Encode(t) in raw
  {
    var kept := Filter(raw, HasIntegerId);
    FilterMembers(raw, HasIntegerId);
    var r := seq(|kept|, i requires 0 <= i < |kept| => Decode(kept[i]));
    assert forall t: Task :: t in r ==> Encode(t) in kept;
    assert forall t: Task :: Encode(t) in kept ==> t in r by {
      forall t: Task | Encode(t) in kept ensures t in r {
        var j :| 0 <= j < |kept| && kept[j] == Encode(t);
        assert r[j] == t;
      }
    }
    r
  }

  /** The records, all with integer ids, as tasks, one for one. */
  function DecodeAll(xs: seq<RawRecord>): (r: seq<Task>)
    requires forall i :: 0 <= i < |xs| ==> HasIntegerId(xs[i])
    ensures |r| == |xs|
    ensures forall i :: 0 <= i < |xs| ==> r[i] == Decode(xs[i])
  {
    if xs == [] then [] else [Decode(xs[0])] + DecodeAll(xs[1..])
  }

  /** Decoding keeps multiplicities: a task occurs as often as its record. */
  lemma {:induction false} DecodeAllMultiplicity(xs: seq<RawRecord>, t: Task)
    requires forall i :: 0 <= i < |xs| ==> HasIntegerId(xs[i])
    ensures multiset(DecodeAll(xs))[t] == multiset(xs)[Encode(t)]
  {
    if xs != [] {
      assert xs == [xs[0]] + xs[1..];
      assert DecodeAll(xs) == [Decode(xs[0])] + DecodeAll(xs[1..]);
      DecodeAllMultiplicity(xs[1..], t);
      assert Decode(xs[0]) == t <==> xs[0] == Encode(t);
    }
  }

  /** Loading keeps duplicates: each task is loaded as often as its record
      occurs in the stored array. */
  lemma LoadFilterMultiplicity(raw: seq<RawRecord>, t: Task)
    ensures multiset(LoadFilter(raw))[t] == multiset(raw)[Encode(t)]
  {
    var kept := Filter(raw, HasIntegerId);
    assert LoadFilter(raw) == DecodeAll(kept);
    DecodeAllMultiplicity(kept, t);
    FilterMultiplicity(raw, HasIntegerId, Encode(t));
  }

  /** `JSON.stringify` of the task list, as records. */
  function Serialize(ts: seq<Task>): (raw: seq<RawRecord>)
    ensures |raw| == |ts|
    ensures forall k :: 0 <= k < |ts| ==> HasIntegerId(raw[k]) && Decode(raw[k]) == ts[k]
  {
    seq(|ts|, i requires 0 <= i < |ts| => Encode(ts[i]))
  }

  /** `loadTasks`: an absent entry loads as the empty list; a stored array
      loads through the filter. */
  function Load(stored: Option<seq<RawRecord>>): (r: seq<Task>)
    ensures stored.None? ==> r == []
    ensures stored.Some? ==> |r| <= |stored.value|
  {
    match stored
    case None => []
    case Some(raw) => LoadFilter(raw)
  }

  /** Loading what was saved gives back the saved list: same tasks, same
      order. */
  lemma LoadSerialize(ts: seq<Task>)
    ensures Load(Some(Serialize(ts))) == ts
  {
    var raw := Serialize(ts);
    assert Filter(raw, HasIntegerId) == raw;
  }

  /** Loading a concatenation loads each part: the filter keeps input order. */
  lemma LoadFilterAppend(a: seq<RawRecord>, b: seq<RawRecord>)
    ensures LoadFilter(a + b) == LoadFilter(a) + LoadFilter(b)
  {
    FilterAppend(a, b, HasIntegerId);
  }

  /** A record without an integer id is dropped and nothing else is. */
  lemma LoadDropsMalformed(a: seq<RawRecord>, x: RawRecord, b: seq<RawRecord>)
    requires !HasIntegerId(x)
    ensures LoadFilter(a + [x] + b) == LoadFilter(a) + LoadFilter(b)
  {
    LoadFilterAppend(a + [x], b);
    LoadFilterAppend(a, [x]);
    assert [x][1..] == [];
  }

  /** Records whose ids are all integers load one for one. */
  lemma LoadKeepsWellFormed(raw: seq<RawRecord>)
    requires forall k :: 0 <= k < |raw| ==> HasIntegerId(raw[k])
    ensures |LoadFilter(raw)| == |raw|
    ensures forall k :: 0 <= k < |raw| ==> LoadFilter(raw)[k] == Decode(raw[k])
  {
  }
}
