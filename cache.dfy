/** The store of cache.go: a map from key to a record holding the value and the absolute
    expiry second, with no log flag. One tick of `CheckExpired` is a method; the time it and
    `Set` read is a parameter. */
module Cache {
  import opened GoInt
  import opened Wrappers
  import Ttl

  /** Construction options. */
  datatype Options = Options(checkTime: int)

  /** One record of the store. */
  datatype Value = Value(expire: int64, value: string)

  function ExpireOf(v: Value): int64
  {
    v.expire
  }

  class Store {
    var checkTime: int
    var kv: map<string, Value>

    /** New: an empty store that sweeps every `opt.checkTime` seconds. */
    constructor New(opt: Options)
      ensures kv == map[] && checkTime == opt.checkTime
    {
      kv := map[];
      checkTime := opt.checkTime;
    }

    /** First writer wins: a present key is refused and the map is left as it was; otherwise
        the key is inserted expiring `now + ttl` (ttl 10 when `exp` is 0). */
    method Set(key: string, value: string, exp: int64, now: int64) returns (msg: string, ok: bool)
      modifies this`kv
      ensures ok <==> key !in old(kv)
      ensures !ok ==> msg == Ttl.AlreadyAdded(key) && kv == old(kv)
      ensures ok ==> msg == "success" && kv == old(kv)[key := Value(Ttl.ExpireAt(now, exp), value)]
    {
      if key in kv {
        return Ttl.AlreadyAdded(key), false;
      }
      kv := kv[key := Value(Ttl.ExpireAt(now, exp), value)];
      return "success", true;
    }

    /** A plain lookup: found exactly when the key is present, whatever its expiry. */
    method Get(key: string) returns (v: Option<Value>, ok: bool)
      ensures ok <==> key in kv
      ensures ok ==> v == Some(kv[key])
      ensures !ok ==> v == None
    {
      if key in kv {
        return Some(kv[key]), true;
      }
      return None, false;
    }

    /** One tick of `CheckExpired` at Unix second `t`: every entry whose expiry is strictly
        before `t` is deleted, every other entry is kept unchanged, and no key is added. */
    method CheckExpiredTick(t: int64)
      modifies this`kv
      ensures forall k :: k in kv <==> k in old(kv) && old(kv)[k].expire >= t
      ensures forall k :: k in kv ==> kv[k] == old(kv)[k]
      ensures kv == Ttl.Swept(old(kv), ExpireOf, t)
    {
      var todo := kv.Keys;
      while todo != {}
        invariant todo <= old(kv).Keys
        invariant kv.Keys <= old(kv).Keys
        invariant forall k :: k in kv ==> kv[k] == old(kv)[k]
        invariant forall k :: k in todo ==> k in kv
        invariant forall k :: k in old(kv) && k !in todo ==> (k in kv <==> old(kv)[k].expire >= t)
        decreases todo
      {
        var k :| k in todo;
        if t > kv[k].expire {
          kv := kv - {k};
        }
        todo := todo - {k};
      }
      assert kv == Ttl.Swept(old(kv), ExpireOf, t);
    }
  }
}
