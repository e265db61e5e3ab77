/** The record store behind the apps (shared.py:67-95): each collection
    (drivers, trips, admin logins) is a JSON list of dictionaries that is
    read whole, changed, and written back whole. Here a collection is an
    in-memory `seq` of records and a record is a finite map from field name
    to value. */
module Records {

  datatype Option<T> = None | Some(value: T)

  datatype Result<T, E> = Ok(value: T) | Err(error: E)

  /** Instants count microseconds from 0001-01-01T00:00:00 UTC, so
      Python's `datetime.min` is instant 0. */
  type Instant = nat

  /** One field value of a JSON record. `Stamp(t)` is a timestamp text that
      parses to instant `t`; `Str` stands for any other text, including
      timestamp text that does not parse. */
  datatype Value =
    | Null
    | Str(s: string)
    | Int(i: int)
    | Num(x: real)
    | Stamp(t: Instant)

  type Record = map<string, Value>

  /** `d.get("username") == username`. */
  predicate HasUsername(d: Record, username: string)
  {
    "username" in d && d["username"] == Str(username)
  }

  /** Index of the first record whose username is `username`, if any. */
  function FirstMatch(ds: seq<Record>, username: string): (r: Option<nat>)
    ensures r.Some? ==> r.value < |ds| && HasUsername(ds[r.value], username)
    ensures r.Some? ==> forall j :: 0 <= j < r.value ==> !HasUsername(ds[j], username)
    ensures r.None? ==> forall j :: 0 <= j < |ds| ==> !HasUsername(ds[j], username)
  {
    if ds == [] then None
    else if HasUsername(ds[0], username) then Some(0)
    else match FirstMatch(ds[1..], username)
      case None => None
      case Some(i) => Some(i + 1)
  }

  /** The driver list after `update_driver_in_db(username, updates)`: the
      first record with that username is merged with `updates` (keys of
      `updates` win), everything else is as it was. */
  function UpdateFirst(ds: seq<Record>, username: string, updates: Record): (r: seq<Record>)
    ensures |r| == |ds|
  {
    match FirstMatch(ds, username)
    case None => ds
    case Some(i) => ds[i := ds[i] + updates]
  }

  /** What `update_driver_in_db` promises, position by position. */
  lemma UpdateFirstSpec(ds: seq<Record>, username: string, updates: Record)
    ensures |UpdateFirst(ds, username, updates)| == |ds|
    ensures forall i :: 0 <= i < |ds| ==>
      UpdateFirst(ds, username, updates)[i] ==
        if HasUsername(ds[i], username) && (forall j :: 0 <= j < i ==> !HasUsername(ds[j], username))
        then ds[i] + updates
        else ds[i]
  {
    var r := UpdateFirst(ds, username, updates);
    match FirstMatch(ds, username)
    case None =>
    case Some(k) =>
      forall i | 0 <= i < |ds|
        ensures r[i] == if HasUsername(ds[i], username) && (forall j :: 0 <= j < i ==> !HasUsername(ds[j], username))
                        then ds[i] + updates else ds[i]
      {
        if i > k {
          assert HasUsername(ds[k], username);
        }
      }
  }

  /** With no record of that username the list is unchanged. */
  lemma UpdateWithoutMatch(ds: seq<Record>, username: string, updates: Record)
    requires forall d :: d in ds ==> !HasUsername(d, username)
    ensures UpdateFirst(ds, username, updates) == ds
  {
  }

  /** Dictionary-merge semantics of the matched record: every key of
      `updates` takes its new value, every other key keeps its old one, and
      no key is lost. */
  lemma UpdateMerges(ds: seq<Record>, username: string, updates: Record, i: nat)
    requires FirstMatch(ds, username) == Some(i)
    ensures UpdateFirst(ds, username, updates)[i].Keys == ds[i].Keys + updates.Keys
    ensures forall k :: k in updates ==> UpdateFirst(ds, username, updates)[i][k] == updates[k]
    ensures forall k :: k in ds[i] && k !in updates ==> UpdateFirst(ds, username, updates)[i][k] == ds[i][k]
  {
  }

  /** Two updates that leave the username alone act as one update with the
      later values winning. */
  lemma {:induction false} UpdateTwice(ds: seq<Record>, username: string, first: Record, second: Record)
    requires "username" !in first
    ensures UpdateFirst(UpdateFirst(ds, username, first), username, second)
         == UpdateFirst(ds, username, first + second)
  {
    var once := UpdateFirst(ds, username, first);
    match FirstMatch(ds, username)
    case None =>
    case Some(i) =>
      assert once[i] == ds[i] + first;
      assert HasUsername(once[i], username);
      assert forall j :: 0 <= j < i ==> once[j] == ds[j];
      assert FirstMatch(once, username) == Some(i);
      assert ds[i] + first + second == ds[i] + (first + second);
  }

  /** Repeating an update that leaves the username alone changes nothing
      more. */
  lemma UpdateIdempotent(ds: seq<Record>, username: string, updates: Record)
    requires "username" !in updates
    ensures UpdateFirst(UpdateFirst(ds, username, updates), username, updates)
         == UpdateFirst(ds, username, updates)
  {
    UpdateTwice(ds, username, updates, updates);
    assert updates + updates == updates;
  }

  /** A JSON-backed collection: `load_*` reads `records`, `save_*` and
      `update_*` write them back. */
  class Store {
    var records: seq<Record>

    constructor (initial: seq<Record>)
      ensures records == initial
    {
      records := initial;
    }

    /** `save_driver_to_db` / `save_trip_to_db`: read, append, write back. */
    method Append(r: Record)
      modifies this
      ensures records == old(records) + [r]
    {
      var all := records;
      all := all + [r];
      records := all;
    }

    /** `update_driver_in_db`: walk the list, merge `updates` into the first
        record whose username matches and stop. */
    method UpdateFirstByUsername(username: string, updates: Record)
      modifies this
      ensures records == UpdateFirst(old(records), username, updates)
      ensures |records| == |old(records)|
    {
      var all := records;
      var i := 0;
      while i < |all|
        invariant 0 <= i <= |all|
        invariant all == records
        invariant forall j :: 0 <= j < i ==> !HasUsername(all[j], username)
      {
        if HasUsername(all[i], username) {
          all := all[i := all[i] + updates];
          break;
        }
        i := i + 1;
      }
      records := all;
      UpdateFirstSpec(old(records), username, updates);
    }
  }
}
