/**
  A run of the store as a sequence of calls, each made at its own instant and
  with its own backend behaviour, executed one after the other. Properties that
  relate several calls (namespacing, where a stored row comes from) are proved
  here by induction over the run.
 */
module StoreHistory {
  import opened ExpressBruteNedb

  /** A public call of the store, with its caller-supplied (unprefixed) key. */
  datatype Op =
    | GetOp(key: string)
    | SetOp(key: string, value: Counter, lifetime: int)
    | ResetOp(key: string)

  /** A call, the time it runs at and which backend primitive fails during it. */
  datatype Event = Event(op: Op, now: int, fault: Fault)

  /** `e` is a `set` of the fully-qualified key `fk` that would store exactly `row`. */
  ghost predicate Writes(prefix: string, e: Event, fk: string, row: Row)
  {
    && e.op.SetOp?
    && prefix + e.op.key == fk
    && row == Row(fk, e.op.value, ExpiryFor(e.now, e.op.lifetime))
  }

  /** The collection after one call of a store with prefix `prefix`. */
  function Apply(t: Table, prefix: string, e: Event): (t': Table)
    // a call touches no document but its own
    ensures t' - {prefix + e.op.key} == t - {prefix + e.op.key}
    ensures WellKeyed(t) ==> WellKeyed(t')
    // every document after the call was there before, or is what this call wrote
    ensures WellKeyed(t) ==>
              forall fk :: fk in t' ==> (fk in t && t'[fk] == t[fk]) || Writes(prefix, e, fk, t'[fk])
  {
    var fk := prefix + e.op.key;
    match e.op
    case GetOp(_) => GetStep(t, fk, e.now, e.fault).table
    case SetOp(_, value, lifetime) => SetRowStep(t, fk, value, lifetime, e.now, e.fault).table
    case ResetOp(_) => RemoveRowStep(t, fk, e.fault).table
  }

  /** The collection after the calls `evs`, in order. */
  function Replay(t: Table, prefix: string, evs: seq<Event>): (t': Table)
    ensures WellKeyed(t) ==> WellKeyed(t')
    decreases |evs|
  {
    if evs == [] then t else Replay(Apply(t, prefix, evs[0]), prefix, evs[1..])
  }

  /** No call of the run is made on `fk`. */
  ghost predicate Untouched(prefix: string, evs: seq<Event>, fk: string)
  {
    forall i :: 0 <= i < |evs| ==> prefix + evs[i].op.key != fk
  }

  /** A document whose key no call names is exactly as it was, present or absent. */
  lemma {:induction false} ReplayUntouched(t: Table, prefix: string, evs: seq<Event>, fk: string)
    requires Untouched(prefix, evs, fk)
    ensures fk in Replay(t, prefix, evs) <==> fk in t
    ensures fk in t ==> Replay(t, prefix, evs)[fk] == t[fk]
    decreases |evs|
  {
    if evs != [] {
      var t1 := Apply(t, prefix, evs[0]);
      assert prefix + evs[0].op.key != fk;
      assert fk in t1 <==> fk in t by {
        assert fk in t1 <==> fk in t1 - {prefix + evs[0].op.key};
        assert fk in t <==> fk in t - {prefix + evs[0].op.key};
      }
      if fk in t {
        assert (t1 - {prefix + evs[0].op.key})[fk] == (t - {prefix + evs[0].op.key})[fk];
      }
      assert Untouched(prefix, evs[1..], fk) by {
        forall i | 0 <= i < |evs[1..]| ensures prefix + evs[1..][i].op.key != fk {
          assert evs[1..][i] == evs[i + 1];
        }
      }
      ReplayUntouched(t1, prefix, evs[1..], fk);
    }
  }

  /** Two prefixes keep their stores apart when neither is a prefix of the other. */
  predicate Namespaced(p1: string, p2: string)
  {
    !(p1 <= p2) && !(p2 <= p1)
  }

  /** Under namespaced prefixes no two caller keys give the same fully-qualified key. */
  lemma PrefixesSeparate(p1: string, k1: string, p2: string, k2: string)
    requires Namespaced(p1, p2)
    ensures p1 + k1 != p2 + k2
  {
    // the shorter prefix is the front of both fully-qualified keys
    if |p1| <= |p2| {
      assert (p1 + k1)[..|p1|] == p1 && (p2 + k2)[..|p1|] == p2[..|p1|];
    } else {
      assert (p2 + k2)[..|p2|] == p2 && (p1 + k1)[..|p2|] == p1[..|p2|];
    }
  }

  /** Distinct prefixes alone do not separate stores: a prefix of the other one collides. */
  lemma PrefixesCollide(p1: string, p2: string, k2: string)
    requires p1 <= p2
    ensures p1 + (p2[|p1|..] + k2) == p2 + k2
  {
    assert p2 == p1 + p2[|p1|..];
  }

  /**
    Two stores with namespaced prefixes over one collection: whatever calls the
    first one runs, a `get` of the second one answers as it would have before,
    and the document it reads is untouched.
   */
  lemma NamespaceIsolation(t: Table, p1: string, evs: seq<Event>, p2: string, key: string, now: int, fault: Fault)
    requires Namespaced(p1, p2)
    ensures GetStep(Replay(t, p1, evs), p2 + key, now, fault).result == GetStep(t, p2 + key, now, fault).result
    ensures p2 + key in Replay(t, p1, evs) <==> p2 + key in t
  {
    forall i | 0 <= i < |evs| ensures p1 + evs[i].op.key != p2 + key {
      PrefixesSeparate(p1, evs[i].op.key, p2, key);
    }
    ReplayUntouched(t, p1, evs, p2 + key);
  }

  /**
    Every document left by a run was there at the start, untouched, or is
    exactly what some `set` of the run stored: its content is the value passed
    in and its expiry is that call's time plus its lifetime.
   */
  lemma {:induction false} ReplayProvenance(t: Table, prefix: string, evs: seq<Event>, fk: string)
    requires WellKeyed(t)
    requires fk in Replay(t, prefix, evs)
    ensures || (fk in t && Replay(t, prefix, evs)[fk] == t[fk])
            || exists i :: 0 <= i < |evs| && Writes(prefix, evs[i], fk, Replay(t, prefix, evs)[fk])
    decreases |evs|
  {
    if evs != [] {
      var t1 := Apply(t, prefix, evs[0]);
      var row := Replay(t, prefix, evs)[fk];
      assert Replay(t, prefix, evs) == Replay(t1, prefix, evs[1..]);
      ReplayProvenance(t1, prefix, evs[1..], fk);
      if fk in t1 && row == t1[fk] {
        if !(fk in t && t1[fk] == t[fk]) {
          assert Writes(prefix, evs[0], fk, row);
        }
      } else {
        var i :| 0 <= i < |evs[1..]| && Writes(prefix, evs[1..][i], fk, row);
        assert evs[1..][i] == evs[i + 1];
      }
    }
  }

  /** From an empty collection, every stored document was stored by a `set` of the run. */
  lemma FromEmptyEveryRowWasSet(prefix: string, evs: seq<Event>, fk: string)
    requires fk in Replay(map[], prefix, evs)
    ensures exists i :: 0 <= i < |evs| && Writes(prefix, evs[i], fk, Replay(map[], prefix, evs)[fk])
  {
    ReplayProvenance(map[], prefix, evs, fk);
  }
}
