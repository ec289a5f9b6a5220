/**
  The expiring record store of express-brute-nedb: a key -> counter table kept in
  an nedb collection, with a time-to-live per row that is enforced lazily, when
  the row is next read.

  The collection is a map from the fully-qualified key (prefix + key) to its
  document; the clock is the parameter `now` (epoch milliseconds); which backend
  primitive, if any, reports an error during a call is the parameter `fault`.
 */
module ExpressBruteNedb {

  /** The payload express-brute keeps per key; timestamps in epoch milliseconds. */
  datatype Counter = Counter(count: int, firstRequest: int, lastRequest: int)

  /** A document of the nedb collection: `{key, content, expires}`. */
  datatype Row = Row(key: string, content: Counter, expires: int)

  /**
    The normalised row the row lookup hands back on a hit. The source also puts
    an `expires` in it, copied from the parsed content rather than from the
    document; the content carries no such field and nobody reads it, so it is
    not part of this record.
   */
  datatype Found = Found(key: string, content: Counter)

  /** An error reported by the nedb backend, passed on to the caller unchanged. */
  datatype BackendError = BackendError(message: string)

  /** A value that may be null. */
  datatype Option<T> = None | Some(value: T)

  /** What a get-callback receives: an error, or a (possibly null) value. */
  datatype Result<T> = Ok(value: T) | Err(error: BackendError)

  /** What a done-callback receives: no error, or an error. */
  datatype Outcome = Pass | Fail(error: BackendError)

  /** Which backend primitive, if any, reports an error during one call. */
  datatype Fault =
    | NoFault
    | FindFails(error: BackendError)
    | RemoveFails(error: BackendError)
    | WriteFails(error: BackendError)

  /** The nedb collection, indexed by each document's key. */
  type Table = map<string, Row>

  /** The result of one call together with the collection after it. */
  datatype Step<R> = Step(result: R, table: Table)

  /** Every document sits under its own key. */
  ghost predicate WellKeyed(t: Table)
  {
    forall k :: k in t ==> t[k].key == k
  }

  /** A row is dead once its expiry lies strictly before the current time. */
  predicate IsExpired(row: Row, now: int)
  {
    row.expires < now
  }

  /** The expiry a write stamps on a row: `now` plus `lifetime` seconds. */
  function ExpiryFor(now: int, lifetime: int): (e: int)
  {
    now + lifetime * 1000
  }

  /** Deletes the document keyed `fk`; deleting nothing is not an error. */
  function RemoveRowStep(t: Table, fk: string, fault: Fault): (s: Step<Outcome>)
    ensures s.result.Pass? <==> !fault.RemoveFails?
    ensures s.result.Pass? ==> fk !in s.table && s.table - {fk} == t - {fk}
    ensures s.result.Fail? ==> s.table == t && s.result.error == fault.error
    ensures WellKeyed(t) ==> WellKeyed(s.table)
  {
    if fault.RemoveFails? then Step(Fail(fault.error), t)
    else Step(Pass, t - {fk})
  }

  /**
    Looks up the document keyed `fk`. An expired document is deleted and
    reported as missing; a live one is returned and nothing changes.
   */
  function GetRowStep(t: Table, fk: string, now: int, fault: Fault): (s: Step<Result<Option<Found>>>)
    // the lookup deletes at most the expired document keyed fk, and nothing else
    ensures s.table == t || (fk in t && IsExpired(t[fk], now) && s.table == t - {fk})
    ensures s.result.Err? ==> s.table == t
    // a failed find, or a failed purge of an expired document, is reported as an error
    ensures s.result.Err? <==> fault.FindFails? || (fault.RemoveFails? && fk in t && IsExpired(t[fk], now))
    ensures s.result.Err? ==> s.result.error == fault.error
    // after a lookup without error no dead document remains under fk
    ensures s.result.Ok? ==> fk !in s.table || !IsExpired(s.table[fk], now)
    // a hit happens exactly when the lookup works and a live document exists
    ensures s.result.Ok? && s.result.value.Some?
        <==> !fault.FindFails? && fk in t && !IsExpired(t[fk], now)
    ensures s.result.Ok? && s.result.value.Some? ==>
              s.table == t && s.result.value.value == Found(t[fk].key, t[fk].content)
    ensures fault.NoFault? ==> s.result.Ok?
    ensures WellKeyed(t) ==> WellKeyed(s.table)
  {
    if fault.FindFails? then Step(Err(fault.error), t)
    else if fk !in t then Step(Ok(None), t)
    else if IsExpired(t[fk], now) then
      var removed := RemoveRowStep(t, fk, fault);
      Step(if removed.result.Fail? then Err(removed.result.error) else Ok(None), removed.table)
    else Step(Ok(Some(Found(t[fk].key, t[fk].content))), t)
  }

  /** The public `get`: the lookup, with the hit reduced to its content. */
  function GetStep(t: Table, fk: string, now: int, fault: Fault): (s: Step<Result<Option<Counter>>>)
    // no document: null, nothing changes (unless the lookup itself fails)
    ensures fk !in t ==> s.table == t && (s.result == Ok(None) <==> !fault.FindFails?)
    // an expired document: null, and the document is gone
    ensures fk in t && IsExpired(t[fk], now) && !fault.FindFails? && !fault.RemoveFails? ==>
              s == Step(Ok(None), t - {fk})
    // a live document: exactly its stored counter, nothing changes
    ensures fk in t && !IsExpired(t[fk], now) && !fault.FindFails? ==>
              s == Step(Ok(Some(t[fk].content)), t)
    // an error of the backend reaches the caller and writes nothing
    ensures s.result.Err? <==> fault.FindFails? || (fault.RemoveFails? && fk in t && IsExpired(t[fk], now))
    ensures s.result.Err? ==> s.table == t && s.result.error == fault.error
    // the stored counter is handed out exactly when the find works and the document is live
    ensures s.result.Ok? && s.result.value.Some? <==> !fault.FindFails? && fk in t && !IsExpired(t[fk], now)
    ensures s.table == t || (fk in t && IsExpired(t[fk], now) && s.table == t - {fk})
    ensures WellKeyed(t) ==> WellKeyed(s.table)
  {
    var got := GetRowStep(t, fk, now, fault);
    var result := match got.result
      case Err(e) => Err(e)
      case Ok(None) => Ok(None)
      case Ok(Some(found)) => Ok(Some(found.content));
    Step(result, got.table)
  }

  /**
    The public `set`: re-read the row through the expiry check, then insert a
    new document when no live one exists, or overwrite the content and expiry
    of the live one.
   */
  function SetRowStep(t: Table, fk: string, value: Counter, lifetime: int, now: int, fault: Fault): (s: Step<Outcome>)
    // if the lookup reports an error, nothing is written
    ensures fault.FindFails? || (fault.RemoveFails? && fk in t && IsExpired(t[fk], now)) ==>
              s == Step(Fail(fault.error), t)
    // a failed insert or update leaves only the purge of an expired document behind
    ensures fault.WriteFails? ==> s.table == if fk in t && IsExpired(t[fk], now) then t - {fk} else t
    // the caller hears of an error exactly when a primitive it used failed
    ensures s.result.Pass? <==> fault.NoFault? || (fault.RemoveFails? && !(fk in t && IsExpired(t[fk], now)))
    ensures s.result.Fail? ==> s.result.error == fault.error
    // success: exactly one document under fk, holding the value and the new expiry; no other key moves
    ensures s.result.Pass? ==>
              && fk in s.table
              && s.table[fk].content == value
              && s.table[fk].expires == ExpiryFor(now, lifetime)
              && s.table - {fk} == t - {fk}
    // a live document keeps its key; a new one gets fk
    ensures s.result.Pass? ==>
              s.table[fk].key == if fk in t && !IsExpired(t[fk], now) then t[fk].key else fk
    // failure: at most the expired document was purged
    ensures s.result.Fail? ==>
              s.table == t || (fk in t && IsExpired(t[fk], now) && s.table == t - {fk})
    ensures WellKeyed(t) ==> WellKeyed(s.table)
  {
    var got := GetRowStep(t, fk, now, fault);
    if got.result.Err? then Step(Fail(got.result.error), got.table)
    else if fault.WriteFails? then Step(Fail(fault.error), got.table)
    else if got.result.value.None? then
      Step(Pass, got.table[fk := Row(fk, value, ExpiryFor(now, lifetime))])
    else
      Step(Pass, got.table[fk := got.table[fk].(content := value, expires := ExpiryFor(now, lifetime))])
  }

  /** One store instance: its key prefix and the collection it owns. */
  class NedbStore {
    /** Prepended to every key before the collection is touched. */
    const prefix: string
    /** The nedb collection. */
    var db: Table

    ghost predicate Valid()
      reads this
    {
      WellKeyed(db)
    }

    /** An in-memory store: its collection starts empty. */
    constructor (prefix: string)
      ensures Valid() && this.prefix == prefix && db == map[]
    {
      this.prefix := prefix;
      db := map[];
    }

    /** Deletes the document for `prefix + key`, live or expired. */
    method RemoveRow(key: string, fault: Fault) returns (r: Outcome)
      requires Valid()
      modifies this`db
      ensures Valid()
      ensures Step(r, db) == RemoveRowStep(old(db), prefix + key, fault)
    {
      if fault.RemoveFails? {
        return Fail(fault.error);
      }
      db := db - {prefix + key};
      r := Pass;
    }

    /** Looks up `prefix + key`, purging the document if it has expired. */
    method GetRow(key: string, now: int, fault: Fault) returns (r: Result<Option<Found>>)
      requires Valid()
      modifies this`db
      ensures Valid()
      ensures Step(r, db) == GetRowStep(old(db), prefix + key, now, fault)
    {
      var fk := prefix + key;
      if fault.FindFails? {
        return Err(fault.error);
      }
      if fk !in db {
        return Ok(None);
      }
      var row := db[fk];
      if IsExpired(row, now) {
        var removed := RemoveRow(key, fault);
        if removed.Fail? {
          return Err(removed.error);
        }
        return Ok(None);
      }
      r := Ok(Some(Found(row.key, row.content)));
    }

    /** Writes `value` with a fresh expiry, inserting or updating as the lookup decides. */
    method SetRow(key: string, value: Counter, lifetime: int, now: int, fault: Fault) returns (r: Outcome)
      requires Valid()
      modifies this`db
      ensures Valid()
      ensures Step(r, db) == SetRowStep(old(db), prefix + key, value, lifetime, now, fault)
    {
      var got := GetRow(key, now, fault);
      if got.Err? {
        return Fail(got.error);
      }
      if fault.WriteFails? {
        return Fail(fault.error);
      }
      var fk := prefix + key;
      var expires := ExpiryFor(now, lifetime);
      if got.value.None? {
        db := db[fk := Row(fk, value, expires)];
      } else {
        db := db[fk := db[fk].(content := value, expires := expires)];
      }
      r := Pass;
    }

    /** `set(key, value, lifetime)`. */
    method Set(key: string, value: Counter, lifetime: int, now: int, fault: Fault) returns (r: Outcome)
      requires Valid()
      modifies this`db
      ensures Valid()
      ensures Step(r, db) == SetRowStep(old(db), prefix + key, value, lifetime, now, fault)
    {
      r := SetRow(key, value, lifetime, now, fault);
    }

    /** `get(key)`: null when missing or expired, the stored counter otherwise. */
    method Get(key: string, now: int, fault: Fault) returns (r: Result<Option<Counter>>)
      requires Valid()
      modifies this`db
      ensures Valid()
      ensures Step(r, db) == GetStep(old(db), prefix + key, now, fault)
    {
      var row := GetRow(key, now, fault);
      match row
      case Err(e) => r := Err(e);
      case Ok(None) => r := Ok(None);
      case Ok(Some(found)) => r := Ok(Some(found.content));
    }

    /** `reset(key)`: deletes the row unconditionally. */
    method Reset(key: string, fault: Fault) returns (r: Outcome)
      requires Valid()
      modifies this`db
      ensures Valid()
      ensures Step(r, db) == RemoveRowStep(old(db), prefix + key, fault)
    {
      r := RemoveRow(key, fault);
    }
  }
}
