/** The store of main.go: a map from key to a record holding the value, the absolute expiry
    second and a flag saying whether the record has been written to the log. One tick of the
    expiry sweeper, one pass of the log writer and the workers of the `/set` and `/get`
    handlers are modelled as methods on the store; the time they read is a parameter. */
module LogStore {
  import opened GoInt
  import opened Wrappers
  import Ttl

  /** Construction options; only `checkTime` reaches the store. */
  datatype Options = Options(checkTime: int, port: string, isLog: bool, writeTime: int)

  /** One record of the store. */
  datatype Value = Value(expire: int64, value: string, writed: bool)

  /** The body a handler worker encodes as JSON. */
  datatype Response = Response(message: string, result: Option<Value>, success: bool)

  const KeyMissing: string := "Url Param 'key' is missing"
  const ValueMissing: string := "Url Param 'value' is missing"
  const FoundNothing: string := "Found nothing"

  function ExpireOf(v: Value): int64
  {
    v.expire
  }

  /** The keys whose record has not yet been written to the log. */
  function Unwritten(m: map<string, Value>): set<string>
  {
    set k | k in m && !m[k].writed
  }

  /** The map after a log pass: every record flagged as written, nothing else changed. */
  function MarkedWritten(m: map<string, Value>): map<string, Value>
  {
    map k | k in m :: m[k].(writed := true)
  }

  /** The line a log pass emits for key `k` with value `v`. */
  function LogLine(k: string, v: string): string
  {
    k + " --> " + v + " \n"
  }

  /** A parsed URL query: every parameter present carries at least one value. */
  predicate WellFormedQuery(q: map<string, seq<string>>)
  {
    forall name :: name in q ==> |q[name]| > 0
  }

  /** A parameter counts as given when it is present and its first value is not empty. */
  predicate HasParam(q: map<string, seq<string>>, name: string)
    requires WellFormedQuery(q)
  {
    name in q && |q[name][0]| >= 1
  }

  class Store {
    var checkTime: int
    var kv: map<string, Value>

    /** New: an empty store that sweeps every `opt.checkTime` seconds. */
    constructor New(opt: Options)
      ensures kv == map[] && checkTime == opt.checkTime
    {
      kv := map[];
      checkTime := opt.checkTime;
    }

    /** First writer wins: a present key is refused and the map is left as it was; otherwise
        the key is inserted, not yet logged, expiring `now + ttl` (ttl 10 when `exp` is 0). */
    method Set(k: string, v: string, exp: int64, now: int64) returns (msg: string, ok: bool)
      modifies this`kv
      ensures ok <==> k !in old(kv)
      ensures !ok ==> msg == Ttl.AlreadyAdded(k) && kv == old(kv)
      ensures ok ==> msg == "success" && kv == old(kv)[k := Value(Ttl.ExpireAt(now, exp), v, false)]
    {
      if k in kv {
        return Ttl.AlreadyAdded(k), false;
      }
      kv := kv[k := Value(Ttl.ExpireAt(now, exp), v, false)];
      return "success", true;
    }

    /** A plain lookup: found exactly when the key is present, whatever its expiry. */
    method Get(k: string) returns (v: Option<Value>, ok: bool)
      ensures ok <==> k in kv
      ensures ok ==> v == Some(kv[k])
      ensures !ok ==> v == None
    {
      if k in kv {
        return Some(kv[k]), true;
      }
      return None, false;
    }

    /** One tick of the expiry sweeper at Unix second `t`: every entry whose expiry is strictly
        before `t` is deleted, every other entry is kept unchanged, and no key is added. */
    method CheckExpiredTick(t: int64)
      modifies this`kv
      ensures forall k :: k in kv <==> k in old(kv) && old(kv)[k].expire >= t
      ensures forall k :: k in kv ==> kv[k] == old(kv)[k]
      ensures kv == Ttl.Swept(old(kv), ExpireOf, t)
    {
      var todo := kv.Keys;
      while todo != {}
        invariant todo <= old(kv).Keys
        invariant kv.Keys <= old(kv).Keys
        invariant forall k :: k in kv ==> kv[k] == old(kv)[k]
        invariant forall k :: k in todo ==> k in kv
        invariant forall k :: k in old(kv) && k !in todo ==> (k in kv <==> old(kv)[k].expire >= t)
        decreases todo
      {
        var k :| k in todo;
        if t > kv[k].expire {
          kv := kv - {k};
        }
        todo := todo - {k};
      }
      assert kv == Ttl.Swept(old(kv), ExpireOf, t);
    }

    /** One pass of the log writer: a line `k --> value ` is emitted for exactly the keys not
        yet written, each once, in the map's unspecified order (`order`), and afterwards every
        record is flagged as written. A failed write does not stop the flag being set, so the
        lines are the ones the pass tries to write. */
    method WriteToFilePass() returns (lines: seq<string>, ghost order: seq<string>)
      modifies this`kv
      ensures kv == MarkedWritten(old(kv))
      ensures |order| == |lines|
      ensures forall i, j :: 0 <= i < j < |order| ==> order[i] != order[j]
      ensures forall k :: k in order <==> k in Unwritten(old(kv))
      ensures |lines| == |Unwritten(old(kv))|
      ensures forall i :: 0 <= i < |order| ==>
                order[i] in old(kv) && lines[i] == LogLine(order[i], old(kv)[order[i]].value)
    {
      lines, order := [], [];
      if |kv| == 0 {
        return;
      }
      var todo := kv.Keys;
      while todo != {}
        invariant todo <= old(kv).Keys
        invariant kv.Keys == old(kv).Keys
        invariant forall k :: k in kv ==> kv[k] == if k in todo then old(kv)[k] else old(kv)[k].(writed := true)
        invariant |order| == |lines|
        invariant forall i, j :: 0 <= i < j < |order| ==> order[i] != order[j]
        invariant forall k :: k in order <==> k in old(kv) && k !in todo && !old(kv)[k].writed
        invariant forall i :: 0 <= i < |order| ==>
                    order[i] in old(kv) && lines[i] == LogLine(order[i], old(kv)[order[i]].value)
        decreases todo
      {
        var k :| k in todo;
        var v := kv[k];
        if !v.writed {
          lines := lines + [LogLine(k, v.value)];
          order := order + [k];
          kv := kv[k := v.(writed := true)];
        }
        todo := todo - {k};
      }
      PassComplete(old(kv), kv, order);
    }

    /** The worker of the `/set` handler: a missing or empty `key` or `value` parameter is
        reported and the store is not touched; otherwise the set runs with the `expiration`
        parameter as `atoi` reads it (0 when absent) and its refusal message, or "success" with
        the stored record, is the response. */
    method HandleSet(q: map<string, seq<string>>, now: int64, atoi: string -> int64) returns (resp: Response)
      requires WellFormedQuery(q)
      modifies this`kv
      ensures !HasParam(q, "key") ==> resp == Response(KeyMissing, None, false) && kv == old(kv)
      ensures HasParam(q, "key") && !HasParam(q, "value") ==>
                resp == Response(ValueMissing, None, false) && kv == old(kv)
      ensures HasParam(q, "key") && HasParam(q, "value") ==>
                var key, value := q["key"][0], q["value"][0];
                var exp := if "expiration" in q then atoi(q["expiration"][0]) else 0;
                if key in old(kv) then
                  resp == Response(Ttl.AlreadyAdded(key), None, false) && kv == old(kv)
                else
                  var stored := Value(Ttl.ExpireAt(now, exp), value, false);
                  resp == Response("success", Some(stored), true) && kv == old(kv)[key := stored]
    {
      if !HasParam(q, "key") {
        return Response(KeyMissing, None, false);
      }
      if !HasParam(q, "value") {
        return Response(ValueMissing, None, false);
      }
      var expTime: int64 := 0;
      if "expiration" in q {
        expTime := atoi(q["expiration"][0]);
      }
      var key, value := q["key"][0], q["value"][0];
      var message, isOk := Set(key, value, expTime, now);
      if !isOk {
        return Response(message, None, false);
      }
      return Response("success", Some(kv[key]), true);
    }

    /** The worker of the `/get` handler: a missing or empty `key` parameter is reported, an
        absent key is "Found nothing", and a present key, expired or not, is returned. */
    method HandleGet(q: map<string, seq<string>>) returns (resp: Response)
      requires WellFormedQuery(q)
      ensures !HasParam(q, "key") ==> resp == Response(KeyMissing, None, false)
      ensures HasParam(q, "key") && q["key"][0] !in kv ==> resp == Response(FoundNothing, None, false)
      ensures HasParam(q, "key") && q["key"][0] in kv ==>
                resp == Response("success", Some(kv[q["key"][0]]), true)
    {
      if !HasParam(q, "key") {
        return Response(KeyMissing, None, false);
      }
      var searchKey := q["key"][0];
      var foundValue, _ := Get(searchKey);
      if foundValue == None {
        return Response(FoundNothing, None, false);
      }
      return Response("success", foundValue, true);
    }
  }

  /** A sequence without repeats has as many elements as the set of its elements. */
  lemma {:induction false} DistinctCount(s: seq<string>)
    requires forall i, j :: 0 <= i < j < |s| ==> s[i] != s[j]
    ensures |set k | k in s| == |s|
  {
    if s != [] {
      DistinctCount(s[1..]);
      assert (set k | k in s) == (set k | k in s[1..]) + {s[0]};
      assert s[0] !in s[1..];
    }
  }

  /** What a finished log pass has done: every record flagged, and one emitted line per key
      that was unwritten. */
  lemma PassComplete(m: map<string, Value>, m': map<string, Value>, order: seq<string>)
    requires m'.Keys == m.Keys
    requires forall k :: k in m' ==> m'[k] == m[k].(writed := true)
    requires forall i, j :: 0 <= i < j < |order| ==> order[i] != order[j]
    requires forall k :: k in order <==> k in m && !m[k].writed
    ensures m' == MarkedWritten(m)
    ensures |order| == |Unwritten(m)|
  {
    assert (set k | k in order) == Unwritten(m);
    DistinctCount(order);
  }

  /** `/set?key=foo&value=bar` on a fresh store succeeds with ttl 10, a second `/set` of foo
      with another value is refused, and `/get?key=foo` then returns the first record. The
      package's own test sends the first and the third of these requests, not the second. */
  method FirstWriterWinsScenario(now: int64) returns (r1: Response, r2: Response, r3: Response)
    requires now as int + 10 <= Max
    ensures r1 == Response("success", Some(Value(now + 10, "bar", false)), true)
    ensures r2 == Response(Ttl.AlreadyAdded("foo"), None, false)
    ensures r3 == r1
  {
    var s := new Store.New(Options(1, "", false, 0));
    var zero := (_: string) => 0 as int64;
    var set1, set2 := map["key" := ["foo"], "value" := ["bar"]], map["key" := ["foo"], "value" := ["baz"]];
    var get := map["key" := ["foo"]];
    assert HasParam(set1, "key") && HasParam(set1, "value") && "expiration" !in set1;
    assert HasParam(set2, "key") && HasParam(set2, "value") && "expiration" !in set2;
    assert HasParam(get, "key");
    r1 := s.HandleSet(set1, now, zero);
    assert s.kv == map["foo" := Value(now + 10, "bar", false)];
    r2 := s.HandleSet(set2, now, zero);
    r3 := s.HandleGet(get);
  }

  /** An entry set with ttl 0 is still found by `/get` after a sweep tick at its expiry second
      `now + 10`, and is gone after a tick one second later. */
  method ExpiryScenario(now: int64) returns (r1: Response, r2: Response)
    requires now as int + 11 <= Max
    ensures r1.success && r1.result == Some(Value(now + 10, "bar", false))
    ensures r2 == Response(FoundNothing, None, false)
  {
    var s := new Store.New(Options(1, "", false, 0));
    var get := map["key" := ["foo"]];
    assert HasParam(get, "key");
    var _, _ := s.Set("foo", "bar", 0, now);
    s.CheckExpiredTick(now + 10);
    r1 := s.HandleGet(get);
    s.CheckExpiredTick(now + 11);
    r2 := s.HandleGet(get);
  }

  /** A second log pass with no set in between emits nothing and changes nothing. */
  lemma FlushIdempotent(m: map<string, Value>)
    ensures Unwritten(MarkedWritten(m)) == {}
    ensures MarkedWritten(MarkedWritten(m)) == MarkedWritten(m)
  {
  }

  /** A log pass never changes what a sweep removes: the two commute on the map. */
  lemma FlushSweepCommute(m: map<string, Value>, t: int64)
    ensures Ttl.Swept(MarkedWritten(m), ExpireOf, t) == MarkedWritten(Ttl.Swept(m, ExpireOf, t))
  {
  }

  /** An unwritten entry that a sweep removes before the next log pass is never logged: the
      lines lost are exactly those of the expired, unwritten keys. */
  lemma SweptBeforeLogged(m: map<string, Value>, t: int64)
    ensures Unwritten(Ttl.Swept(m, ExpireOf, t)) ==
            Unwritten(m) - Ttl.ExpiredKeys(m, ExpireOf, t)
  {
  }
}
