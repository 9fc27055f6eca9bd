/** The TTL rule that both copies of the store share: how a set computes the absolute expiry
    second, when a sweep tick considers an entry expired, and the conflict message of a set. */
module Ttl {
  import opened GoInt

  /** TTL in seconds used when a set is given 0. */
  const DefaultExp: int64 := 10

  /** The TTL a set actually applies: `exp`, or the default when `exp` is 0. */
  function EffectiveTtl(exp: int64): (d: int64)
    ensures d != 0
    ensures exp == 0 ==> d == DefaultExp
    ensures exp != 0 ==> d == exp
  {
    if exp == 0 then DefaultExp else exp
  }

  /** The expiry second stored by a set at Unix second `now`: `now + ttl` in int64 arithmetic. */
  function ExpireAt(now: int64, exp: int64): (r: int64)
    ensures (r as int - (now as int + EffectiveTtl(exp) as int)) % Modulus == 0
    ensures exp == 0 && now as int + 10 <= Max ==> r as int == now as int + 10
    ensures exp != 0 && Min <= now as int + exp as int <= Max ==> r as int == now as int + exp as int
  {
    Add(now, EffectiveTtl(exp))
  }

  /** A sweep tick at second `t` removes an entry exactly when `t` is strictly after its expiry. */
  predicate Expired(expire: int64, t: int64)
  {
    t > expire
  }

  /** The message of a set whose key is already present. */
  function AlreadyAdded(k: string): string
  {
    k + " already added"
  }

  /** The map a sweep tick at `t` leaves behind, for any record type whose expiry `expire` reads. */
  function Swept<V>(m: map<string, V>, expire: V -> int64, t: int64): map<string, V>
  {
    map k | k in m && !Expired(expire(m[k]), t) :: m[k]
  }

  /** The keys a sweep tick at `t` removes. */
  function ExpiredKeys<V>(m: map<string, V>, expire: V -> int64, t: int64): set<string>
  {
    set k | k in m && Expired(expire(m[k]), t)
  }

  /** A later tick subsumes an earlier one: nothing an earlier tick removed comes back, sweeping
      twice at the same second is the same as sweeping once, and the order of two ticks does
      not matter. */
  lemma SweptMonotone<V>(m: map<string, V>, expire: V -> int64, t1: int64, t2: int64)
    requires t1 <= t2
    ensures Swept(Swept(m, expire, t1), expire, t2) == Swept(m, expire, t2)
    ensures Swept(Swept(m, expire, t2), expire, t1) == Swept(m, expire, t2)
  {
  }

  /** A tick removes exactly one entry per expired key and keeps every other one. */
  lemma SweptCount<V>(m: map<string, V>, expire: V -> int64, t: int64)
    ensures |Swept(m, expire, t)| + |ExpiredKeys(m, expire, t)| == |m|
  {
    var kept := Swept(m, expire, t).Keys;
    var gone := ExpiredKeys(m, expire, t);
    assert kept + gone == m.Keys;
    assert kept !! gone;
    assert |kept + gone| == |kept| + |gone|;
  }

  /** An entry set at `now` with a TTL that fits in int64 is kept by every tick up to and
      including second `now + ttl`, and removed by every tick after it. */
  lemma EntryLifetime(now: int64, exp: int64, t: int64)
    requires 0 <= now && 0 <= exp
    requires now as int + EffectiveTtl(exp) as int <= Max
    ensures Expired(ExpireAt(now, exp), t) <==> t as int > now as int + EffectiveTtl(exp) as int
  {
  }

  /** A negative TTL, or one so large that `now + ttl` wraps past the int64 maximum, stores an
      expiry before `now`: the very next sweep tick removes the entry. */
  lemma ExpiresAtOnce(now: int64, exp: int64, t: int64)
    requires 0 <= now <= t
    requires exp < 0 || now as int + exp as int > Max
    ensures Expired(ExpireAt(now, exp), t)
  {
  }
}
