/** JavaScript objects and `Map`s as the core uses them: a list of key/value
    pairs in insertion order. Writing a key that is already present replaces its
    value in place (the key keeps its position); writing a new key appends it.
    That is the behaviour of `map.set(k, v)`, of `{ ...a, ...b }` and of
    `new Map(pairs)`, where a later pair wins over an earlier one. A plain
    object differs from a `Map` in one respect: it lists its array-index keys
    (`"0"`, `"42"`) first, in ascending order; the order here is exact only for
    objects without such keys. */
module Objects {

  import opened Wrappers
  import opened Text

  /** A JSON-like value: what the audit entries and the SQL parameters hold. */
  datatype Value = Null | Bool(b: bool) | Num(n: int) | Str(s: string)

  type Fields<V> = seq<(string, V)>

  type Object = Fields<Value>

  function Keys<V>(o: Fields<V>): (ks: seq<string>)
    ensures |ks| == |o|
  {
    if o == [] then [] else [o[0].0] + Keys(o[1..])
  }

  lemma {:induction false} KeysAt<V>(o: Fields<V>, i: nat)
    requires i < |o|
    ensures Keys(o)[i] == o[i].0
  {
    if i > 0 {
      KeysAt(o[1..], i - 1);
    }
  }

  lemma {:induction false} KeysConcat<V>(a: Fields<V>, b: Fields<V>)
    ensures Keys(a + b) == Keys(a) + Keys(b)
  {
    if a != [] {
      assert (a + b)[1..] == a[1..] + b;
      KeysConcat(a[1..], b);
      assert Keys(a + b) == [a[0].0] + Keys(a[1..] + b);
    } else {
      assert a + b == b;
    }
  }

  /** A canonical array index: the decimal form, without leading zeros, of a
      number below 2^32 - 1. */
  predicate IsArrayIndex(k: string) {
    k != [] && (forall i :: 0 <= i < |k| ==> IsDigit(k[i]))
    && (k[0] == '0' ==> |k| == 1) && DecimalValue(k) < 0xFFFF_FFFF
  }

  /** No key occurs twice, as in every JavaScript object. */
  predicate UniqueKeys<V>(o: Fields<V>) {
    var ks := Keys(o);
    forall i, j :: 0 <= i < j < |ks| ==> ks[i] != ks[j]
  }

  /** `o[k]`: the value stored under `k` (the first pair with that key). */
  function Get<V>(o: Fields<V>, k: string): (r: Option<V>) {
    if o == [] then None else if o[0].0 == k then Some(o[0].1) else Get(o[1..], k)
  }

  lemma {:induction false} GetNone<V>(o: Fields<V>, k: string)
    ensures Get(o, k).None? <==> k !in Keys(o)
  {
    if o != [] {
      GetNone(o[1..], k);
    }
  }

  /** `o[k] = v` / `map.set(k, v)`. */
  function Put<V>(o: Fields<V>, k: string, v: V): (r: Fields<V>)
    ensures Get(r, k) == Some(v)
    ensures |r| == if k in Keys(o) then |o| else |o| + 1
  {
    if o == [] then [(k, v)]
    else if o[0].0 == k then [(k, v)] + o[1..]
    else [o[0]] + Put(o[1..], k, v)
  }

  /** After `o[k] = v`, `k` holds `v` and every other key holds what it held. */
  lemma {:induction false} PutGet<V>(o: Fields<V>, k: string, v: V, j: string)
    ensures Get(Put(o, k, v), j) == if j == k then Some(v) else Get(o, j)
  {
    if o != [] && o[0].0 != k {
      PutGet(o[1..], k, v, j);
    }
  }

  /** `o[k] = v` keeps the position of a key already present and appends a new one. */
  lemma {:induction false} PutKeys<V>(o: Fields<V>, k: string, v: V)
    ensures Keys(Put(o, k, v)) == if k in Keys(o) then Keys(o) else Keys(o) + [k]
  {
    if o != [] && o[0].0 != k {
      PutKeys(o[1..], k, v);
      assert Keys(o) == [o[0].0] + Keys(o[1..]);
      assert Keys(Put(o, k, v)) == [o[0].0] + Keys(Put(o[1..], k, v));
    }
  }

  /** The value that a run of writes `d` leaves under `k`: that of its last pair
      with key `k`. */
  function Last<V>(d: Fields<V>, k: string): Option<V> {
    if d == [] then None
    else if d[|d| - 1].0 == k then Some(d[|d| - 1].1)
    else Last(d[..|d| - 1], k)
  }

  lemma {:induction false} LastNone<V>(d: Fields<V>, k: string)
    ensures Last(d, k).None? <==> k !in Keys(d)
  {
    if d != [] {
      assert d == d[..|d| - 1] + [d[|d| - 1]];
      KeysConcat(d[..|d| - 1], [d[|d| - 1]]);
      LastNone(d[..|d| - 1], k);
    }
  }

  /** Writing every pair of `d` into `o`, in order: `{ ...o, ...d }`,
      `Object.assign(o, d)`, or a run of `map.set` calls. */
  function Assign<V>(o: Fields<V>, d: Fields<V>): (r: Fields<V>)
    ensures |o| <= |r| <= |o| + |d|
    ensures d != [] ==> Get(r, d[|d| - 1].0) == Some(d[|d| - 1].1)
  {
    if d == [] then o
    else Put(Assign(o, d[..|d| - 1]), d[|d| - 1].0, d[|d| - 1].1)
  }

  /** After a spread, a key of `d` holds its last value in `d`; any other key
      holds what it held in `o`. */
  lemma {:induction false} AssignGet<V>(o: Fields<V>, d: Fields<V>, k: string)
    ensures Get(Assign(o, d), k) == match Last(d, k) case Some(v) => Some(v) case None => Get(o, k)
  {
    if d != [] {
      var d' := d[..|d| - 1];
      PutGet(Assign(o, d'), d[|d| - 1].0, d[|d| - 1].1, k);
      AssignGet(o, d', k);
    }
  }

  /** A spread never moves the keys already present: they stay a prefix, in order. */
  lemma {:induction false} AssignKeys<V>(o: Fields<V>, d: Fields<V>)
    ensures |Keys(o)| <= |Keys(Assign(o, d))|
    ensures Keys(Assign(o, d))[..|Keys(o)|] == Keys(o)
  {
    if d != [] {
      var d' := d[..|d| - 1];
      AssignKeys(o, d');
      PutKeys(Assign(o, d'), d[|d| - 1].0, d[|d| - 1].1);
    }
  }

  /** A spread has exactly the keys of both sides. */
  lemma {:induction false} AssignKeySet<V>(o: Fields<V>, d: Fields<V>)
    ensures forall k :: k in Keys(Assign(o, d)) <==> k in Keys(o) || k in Keys(d)
  {
    if d != [] {
      var d', x := d[..|d| - 1], d[|d| - 1];
      assert d == d' + [x];
      KeysConcat(d', [x]);
      AssignKeySet(o, d');
      PutKeys(Assign(o, d'), x.0, x.1);
    }
  }

  lemma {:induction false} GetConcat<V>(a: Fields<V>, b: Fields<V>, k: string)
    ensures Get(a + b, k) == if k in Keys(a) then Get(a, k) else Get(b, k)
  {
    if a != [] {
      assert (a + b)[1..] == a[1..] + b;
      assert (a + b)[0] == a[0];
      assert Keys(a) == [a[0].0] + Keys(a[1..]);
      GetConcat(a[1..], b, k);
    } else {
      assert a + b == b;
    }
  }

  lemma PutUnique<V>(o: Fields<V>, k: string, v: V)
    requires UniqueKeys(o)
    ensures UniqueKeys(Put(o, k, v))
  {
    PutKeys(o, k, v);
  }

  /** Writing into an object never makes a key occur twice. */
  lemma {:induction false} AssignUnique<V>(o: Fields<V>, d: Fields<V>)
    requires UniqueKeys(o)
    ensures UniqueKeys(Assign(o, d))
  {
    if d != [] {
      AssignUnique(o, d[..|d| - 1]);
      PutUnique(Assign(o, d[..|d| - 1]), d[|d| - 1].0, d[|d| - 1].1);
    }
  }

  /** In an object whose keys are distinct, the first and the last pair with a
      key are the same pair. */
  lemma {:induction false} UniqueLast<V>(d: Fields<V>, k: string)
    requires UniqueKeys(d)
    ensures Last(d, k) == Get(d, k)
  {
    if d != [] {
      var d', x := d[..|d| - 1], d[|d| - 1];
      assert d == d' + [x];
      KeysConcat(d', [x]);
      GetConcat(d', [x], k);
      assert Keys(d) == Keys(d') + [x.0];
      assert UniqueKeys(d') by {
        var ks, ks' := Keys(d), Keys(d');
        forall i, j | 0 <= i < j < |ks'| ensures ks'[i] != ks'[j] {
          assert ks'[i] == ks[i] && ks'[j] == ks[j];
        }
      }
      if x.0 == k {
        assert k !in Keys(d') by {
          var ks := Keys(d);
          forall i | 0 <= i < |Keys(d')| ensures Keys(d')[i] != k {
            assert Keys(d')[i] == ks[i] && ks[|ks| - 1] == k;
          }
        }
      } else {
        UniqueLast(d', k);
        GetNone(d', k);
      }
    }
  }

  lemma {:induction false} LastAbsent<V>(d: Fields<V>, k: string)
    requires forall i :: 0 <= i < |d| ==> d[i].0 != k
    ensures Last(d, k) == None
  {
    if d != [] {
      LastAbsent(d[..|d| - 1], k);
    }
  }

  lemma {:induction false} LastAt<V>(d: Fields<V>, k: string, i: nat)
    requires i < |d| && d[i].0 == k
    requires forall j :: i < j < |d| ==> d[j].0 != k
    ensures Last(d, k) == Some(d[i].1)
  {
    if i < |d| - 1 {
      LastAt(d[..|d| - 1], k, i);
    }
  }

  /** Writing the value a key already holds changes nothing. */
  lemma {:induction false} PutSame<V>(o: Fields<V>, k: string, v: V)
    requires Get(o, k) == Some(v)
    ensures Put(o, k, v) == o
  {
    if o[0].0 == k {
      assert [(k, v)] + o[1..] == o;
    } else {
      PutSame(o[1..], k, v);
    }
  }
}
