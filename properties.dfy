/**
  Properties of single calls and short call sequences of the store, stated over
  the step functions that specify its methods: the round trip of `set` and
  `get`, expiry after the lifetime, update in place, idempotent `reset`, and the
  life cycle of one key.
 */
module StoreProperties {
  import opened ExpressBruteNedb

  /** Where one fully-qualified key stands at a given instant. */
  datatype KeyState = Absent | Live | Lapsed

  function StateOf(t: Table, fk: string, now: int): (st: KeyState)
  {
    if fk !in t then Absent
    else if IsExpired(t[fk], now) then Lapsed
    else Live
  }

  /**
    A `set` followed by a `get` at the same instant returns the value just
    stored exactly when the lifetime is not negative; a negative lifetime stores
    a row that is already dead.
   */
  lemma SetThenGet(t: Table, fk: string, value: Counter, lifetime: int, now: int, getFault: Fault)
    requires !getFault.FindFails?
    ensures SetRowStep(t, fk, value, lifetime, now, NoFault).result == Pass
    ensures var written := SetRowStep(t, fk, value, lifetime, now, NoFault).table;
            lifetime >= 0 ==> GetStep(written, fk, now, getFault) == Step(Ok(Some(value)), written)
    ensures var written := SetRowStep(t, fk, value, lifetime, now, NoFault).table;
            GetStep(written, fk, now, getFault).result == Ok(Some(value)) <==> lifetime >= 0
  {
  }

  /**
    After a `set`, a `get` returns the value up to and including the instant
    `now + lifetime*1000`; from the next millisecond on it returns null and the
    row has been purged.
   */
  lemma SetThenGetLater(t: Table, fk: string, value: Counter, lifetime: int, now: int, later: int)
    ensures var written := SetRowStep(t, fk, value, lifetime, now, NoFault).table;
            later <= ExpiryFor(now, lifetime) ==>
              GetStep(written, fk, later, NoFault) == Step(Ok(Some(value)), written)
    ensures var written := SetRowStep(t, fk, value, lifetime, now, NoFault).table;
            var read := GetStep(written, fk, later, NoFault);
            later > ExpiryFor(now, lifetime) ==>
              read.result == Ok(None) && fk !in read.table && read.table - {fk} == t - {fk}
  {
  }

  /**
    A second `set` while the first row is still live overwrites that row in
    place: same key, new content and expiry, and the collection keeps its size.
   */
  lemma SetTwiceUpdatesInPlace(t: Table, fk: string, v1: Counter, v2: Counter, lifetime1: int, lifetime2: int, now: int, later: int)
    requires WellKeyed(t)
    requires lifetime1 >= 0 && later <= ExpiryFor(now, lifetime1)
    ensures var first := SetRowStep(t, fk, v1, lifetime1, now, NoFault).table;
            var second := SetRowStep(first, fk, v2, lifetime2, later, NoFault).table;
            second == first[fk := Row(fk, v2, ExpiryFor(later, lifetime2))]
    ensures var first := SetRowStep(t, fk, v1, lifetime1, now, NoFault).table;
            var second := SetRowStep(first, fk, v2, lifetime2, later, NoFault).table;
            |second| == |first|
    ensures var first := SetRowStep(t, fk, v1, lifetime1, now, NoFault).table;
            var second := SetRowStep(first, fk, v2, lifetime2, later, NoFault).table;
            GetStep(second, fk, later, NoFault).result == Ok(Some(v2)) <==> lifetime2 >= 0
  {
    var first := SetRowStep(t, fk, v1, lifetime1, now, NoFault).table;
    var second := SetRowStep(first, fk, v2, lifetime2, later, NoFault).table;
    var expected := first[fk := Row(fk, v2, ExpiryFor(later, lifetime2))];
    assert second.Keys == expected.Keys by {
      assert second - {fk} == first - {fk};
    }
    assert second == expected;
    assert first.Keys == expected.Keys;
  }

  /** `reset` on a key without a row succeeds and changes nothing. */
  lemma ResetAbsent(t: Table, fk: string)
    requires fk !in t
    ensures RemoveRowStep(t, fk, NoFault) == Step(Pass, t)
  {
  }

  /** Applying `reset` twice is the same as applying it once, and both succeed. */
  lemma ResetIdempotent(t: Table, fk: string)
    ensures var once := RemoveRowStep(t, fk, NoFault);
            RemoveRowStep(once.table, fk, NoFault) == once && once.result == Pass
  {
  }

  /** After a `reset`, a `get` of the same key returns null, whatever was there. */
  lemma ResetThenGet(t: Table, fk: string, now: int, getFault: Fault)
    requires !getFault.FindFails?
    ensures GetStep(RemoveRowStep(t, fk, NoFault).table, fk, now, getFault).result == Ok(None)
  {
  }

  /**
    The life cycle of one key: `get` turns a lapsed row into an absent one and
    leaves the other states alone; a `set` with a non-negative lifetime makes
    the key live; `reset` makes it absent; once lapsed, a row stays lapsed as
    time goes on until a call removes it.
   */
  lemma KeyLifecycle(t: Table, fk: string, value: Counter, lifetime: int, now: int, later: int)
    ensures StateOf(GetStep(t, fk, now, NoFault).table, fk, now)
              == if StateOf(t, fk, now) == Lapsed then Absent else StateOf(t, fk, now)
    ensures lifetime >= 0 ==> StateOf(SetRowStep(t, fk, value, lifetime, now, NoFault).table, fk, now) == Live
    ensures StateOf(RemoveRowStep(t, fk, NoFault).table, fk, now) == Absent
    ensures StateOf(t, fk, now) == Lapsed && now <= later ==> StateOf(t, fk, later) == Lapsed
  {
  }

  /**
    The scenario of two consecutive hits from one client, run against the
    store's method contracts: each `get` sees the latest counter, and the
    collection never holds more than one row.
   */
  method ScenarioTwoHits(t0: int, t1: int)
    requires t0 <= t1 <= t0 + 60 * 1000
  {
    var store := new NedbStore("brute:");
    assert "brute:" + "ip1" == "brute:ip1";
    var first := Counter(1, t0, t0);
    var second := Counter(2, t0, t1);

    var done := store.Set("ip1", first, 60, t0, NoFault);
    assert done == Pass;
    var got := store.Get("ip1", t0, NoFault);
    assert got == Ok(Some(first));

    done := store.Set("ip1", second, 60, t1, NoFault);
    assert done == Pass;
    got := store.Get("ip1", t1, NoFault);
    assert got == Ok(Some(second));
    assert store.db - {"brute:ip1"} == map[];
    assert store.db == map["brute:ip1" := Row("brute:ip1", second, t1 + 60 * 1000)];
  }
}
