/** Counted lists: the loops that write or read `n` items one after the other. */
module Lists {
  import opened Wire

  function Many<T>(enc: T -> Bytes, xs: seq<T>): Bytes {
    if xs == [] then [] else enc(xs[0]) + Many(enc, xs[1..])
  }

  function ParseMany<T, E>(dec: Bytes -> Result<(T, Bytes), E>, n: nat, s: Bytes): (r: Result<(seq<T>, Bytes), E>)
    ensures r.Ok? ==> |r.value.0| == n
  {
    if n == 0 then Ok(([], s))
    else
      var (x, s1) :- dec(s);
      var (xs, s2) :- ParseMany(dec, n - 1, s1);
      Ok(([x] + xs, s2))
  }

  function Map<T, U>(f: T -> U, xs: seq<T>): (ys: seq<U>)
    ensures |ys| == |xs| && forall i :: 0 <= i < |xs| ==> ys[i] == f(xs[i])
  {
    if xs == [] then [] else [f(xs[0])] + Map(f, xs[1..])
  }

  /** `dec` reads back every item of `xs`, as `norm` says, whatever follows it. */
  ghost predicate ReadsBack<T(!new), E>(enc: T -> Bytes, dec: Bytes -> Result<(T, Bytes), E>, norm: T -> T, xs: seq<T>)
  {
    forall x, tail :: x in xs ==> dec(enc(x) + tail) == Ok((norm(x), tail))
  }

  /** No proper prefix of an item of `xs` is read as an item. */
  ghost predicate CutsFail<T(!new), E>(enc: T -> Bytes, dec: Bytes -> Result<(T, Bytes), E>, xs: seq<T>) {
    forall x, k: nat :: x in xs && k < |enc(x)| ==> dec(enc(x)[..k]).Err?
  }

  /** `dec` reads back every item of `xs` unchanged, whatever follows it. */
  ghost predicate ReadsExactly<T(!new), E>(enc: T -> Bytes, dec: Bytes -> Result<(T, Bytes), E>, xs: seq<T>) {
    forall x, tail :: x in xs ==> dec(enc(x) + tail) == Ok((x, tail))
  }

  lemma {:induction false} ManyReadBack<T(!new), E>(enc: T -> Bytes, dec: Bytes -> Result<(T, Bytes), E>,
                                                    norm: T -> T, xs: seq<T>, tail: Bytes)
    requires ReadsBack(enc, dec, norm, xs)
    ensures ParseMany(dec, |xs|, Many(enc, xs) + tail) == Ok((Map(norm, xs), tail))
  {
    if xs == [] {
      assert Many(enc, xs) + tail == tail;
    } else {
      var rest := Many(enc, xs[1..]) + tail;
      assert Many(enc, xs) + tail == enc(xs[0]) + rest;
      assert dec(enc(xs[0]) + rest) == Ok((norm(xs[0]), rest));
      ManyReadBack(enc, dec, norm, xs[1..], tail);
    }
  }

  lemma {:induction false} ManyCutFails<T(!new), E>(enc: T -> Bytes, dec: Bytes -> Result<(T, Bytes), E>,
                                                    norm: T -> T, xs: seq<T>, k: nat)
    requires ReadsBack(enc, dec, norm, xs) && CutsFail(enc, dec, xs)
    requires k < |Many(enc, xs)|
    ensures ParseMany(dec, |xs|, Many(enc, xs)[..k]).Err?
  {
    var head, others := enc(xs[0]), Many(enc, xs[1..]);
    if k < |head| {
      assert (head + others)[..k] == head[..k];
    } else {
      assert (head + others)[..k] == head + others[..k - |head|];
      assert dec(head + others[..k - |head|]) == Ok((norm(xs[0]), others[..k - |head|]));
      ManyCutFails(enc, dec, norm, xs[1..], k - |head|);
    }
  }

  lemma ManyExact<T(!new), E>(enc: T -> Bytes, dec: Bytes -> Result<(T, Bytes), E>, xs: seq<T>, tail: Bytes)
    requires ReadsExactly(enc, dec, xs)
    ensures ParseMany(dec, |xs|, Many(enc, xs) + tail) == Ok((xs, tail))
  {
    var id := (x: T) => x;
    ManyReadBack(enc, dec, id, xs, tail);
    assert Map(id, xs) == xs;
  }

  /** Whatever holds of each item read holds of all of them. */
  lemma {:induction false} ManyAll<T(!new), E>(dec: Bytes -> Result<(T, Bytes), E>, n: nat, s: Bytes, p: T -> bool)
    requires forall b :: dec(b).Ok? ==> p(dec(b).value.0)
    requires ParseMany(dec, n, s).Ok?
    ensures forall x :: x in ParseMany(dec, n, s).value.0 ==> p(x)
  {
    if n > 0 {
      ManyAll(dec, n - 1, dec(s).value.1, p);
    }
  }

  /** If no item is written in more bytes than it was read from, neither is the list. */
  lemma {:induction false} ManyShrinks<T(!new), E>(enc: T -> Bytes, dec: Bytes -> Result<(T, Bytes), E>, n: nat,
                                                   s: Bytes)
    requires forall b :: dec(b).Ok? ==> |enc(dec(b).value.0)| + |dec(b).value.1| <= |b|
    requires ParseMany(dec, n, s).Ok?
    ensures var (xs, rest) := ParseMany(dec, n, s).value; |Many(enc, xs)| + |rest| <= |s|
  {
    if n > 0 {
      var (x, s1) := dec(s).value;
      ManyShrinks(enc, dec, n - 1, s1);
      var (xs, rest) := ParseMany(dec, n - 1, s1).value;
      assert ([x] + xs)[1..] == xs;
    }
  }

  // ---------------------------------------------------------------------------
  // Salvage: the items before the first one that cannot be read
  // ---------------------------------------------------------------------------

  function ParseLeading<T, E>(dec: Bytes -> Result<(T, Bytes), E>, n: nat, s: Bytes): seq<T> {
    if n == 0 then []
    else
      match dec(s)
      case Err(_) => []
      case Ok((x, rest)) => [x] + ParseLeading(dec, n - 1, rest)
  }

  lemma {:induction false} LeadingBounded<T, E>(dec: Bytes -> Result<(T, Bytes), E>, n: nat, s: Bytes)
    ensures |ParseLeading(dec, n, s)| <= n
  {
    if n > 0 && dec(s).Ok? {
      LeadingBounded(dec, n - 1, dec(s).value.1);
    }
  }

  lemma NothingWhole<T(!new), E>(enc: T -> Bytes, dec: Bytes -> Result<(T, Bytes), E>, xs: seq<T>, k: nat)
    requires CutsFail(enc, dec, xs) && xs != [] && k < |Many(enc, xs[..1])|
    ensures k <= |Many(enc, xs)| && ParseLeading(dec, |xs|, Many(enc, xs)[..k]) == []
  {
    assert xs[..1][1..] == [];
    assert Many(enc, xs[..1]) == enc(xs[0]) + [];
    assert Many(enc, xs)[..k] == enc(xs[0])[..k];
  }

  /** Cut after the first `whole` items but before the end of the next one, exactly those items are salvaged. */
  lemma {:induction false} LeadingReadBack<T(!new), E>(enc: T -> Bytes, dec: Bytes -> Result<(T, Bytes), E>,
                                                       norm: T -> T, xs: seq<T>, whole: nat, k: nat)
    requires ReadsBack(enc, dec, norm, xs) && CutsFail(enc, dec, xs)
    requires whole <= |xs| && |Many(enc, xs[..whole])| <= k <= |Many(enc, xs)|
    requires whole < |xs| ==> k < |Many(enc, xs[..whole + 1])|
    ensures ParseLeading(dec, |xs|, Many(enc, xs)[..k]) == Map(norm, xs[..whole])
  {
    hide Map, ReadsBack, CutsFail, Many, ParseLeading;
    MapHead(norm, xs, whole);
    if xs == [] {
      LeadingNone(dec, Many(enc, xs)[..k]);
    } else {
      ManyHead(enc, xs, |xs|);
      assert xs[..|xs|] == xs && xs[1..][..|xs| - 1] == xs[1..];
      var head, others := enc(xs[0]), Many(enc, xs[1..]);
      if whole == 0 {
        NothingWhole(enc, dec, xs, k);
      } else {
        ManyHead(enc, xs, whole);
        if whole < |xs| {
          ManyHead(enc, xs, whole + 1);
        }
        var rest := others[..k - |head|];
        assert (head + others)[..k] == head + rest;
        FirstAndOthers(enc, dec, norm, xs, rest);
        LeadingOne(dec, |xs|, head + rest);
        LeadingReadBack(enc, dec, norm, xs[1..], whole - 1, k - |head|);
      }
    }
  }

  lemma LeadingNone<T, E>(dec: Bytes -> Result<(T, Bytes), E>, s: Bytes)
    ensures ParseLeading(dec, 0, s) == []
  {
  }

  lemma LeadingOne<T, E>(dec: Bytes -> Result<(T, Bytes), E>, n: nat, s: Bytes)
    requires n > 0 && dec(s).Ok?
    ensures var (x, rest) := dec(s).value; ParseLeading(dec, n, s) == [x] + ParseLeading(dec, n - 1, rest)
  {
  }

  lemma FirstAndOthers<T(!new), E>(enc: T -> Bytes, dec: Bytes -> Result<(T, Bytes), E>, norm: T -> T, xs: seq<T>,
                                   tail: Bytes)
    requires ReadsBack(enc, dec, norm, xs) && CutsFail(enc, dec, xs) && xs != []
    ensures dec(enc(xs[0]) + tail) == Ok((norm(xs[0]), tail))
    ensures ReadsBack(enc, dec, norm, xs[1..]) && CutsFail(enc, dec, xs[1..])
  {
  }

  lemma MapHead<T, U>(f: T -> U, xs: seq<T>, n: nat)
    requires n <= |xs|
    ensures Map(f, xs[..n]) == if n == 0 then [] else [f(xs[0])] + Map(f, xs[1..][..n - 1])
  {
    assert n > 0 ==> xs[..n][1..] == xs[1..][..n - 1];
  }

  lemma ManyHead<T>(enc: T -> Bytes, xs: seq<T>, n: nat)
    requires 0 < n <= |xs|
    ensures Many(enc, xs[..n]) == enc(xs[0]) + Many(enc, xs[1..][..n - 1])
  {
    assert xs[..n][1..] == xs[1..][..n - 1];
  }

  // ---------------------------------------------------------------------------
  // Maps written and read as lists of pairs
  // ---------------------------------------------------------------------------

  /** Successive `HashMap::insert`s. */
  function FromPairs<K, V>(ps: seq<(K, V)>): map<K, V> {
    if ps == [] then map[]
    else
      var last := ps[|ps| - 1];
      FromPairs(ps[..|ps| - 1])[last.0 := last.1]
  }

  ghost predicate DistinctKeys<K, V>(ps: seq<(K, V)>) {
    forall i, j :: 0 <= i < j < |ps| ==> ps[i].0 != ps[j].0
  }

  /** `ps` lists the entries of `m`, each once, in some order: what iterating over the map may yield. */
  ghost predicate Enumerates<K, V>(ps: seq<(K, V)>, m: map<K, V>) {
    && |ps| == |m| && DistinctKeys(ps)
    && (forall i :: 0 <= i < |ps| ==> ps[i].0 in m && m[ps[i].0] == ps[i].1)
    && (forall k :: k in m ==> exists i :: 0 <= i < |ps| && ps[i].0 == k)
  }

  lemma Enumerated<K, V>(ps: seq<(K, V)>, m: map<K, V>)
    requires Enumerates(ps, m)
    ensures |ps| == |m|
  {
  }

  lemma {:induction false} FromPairsEntries<K, V>(ps: seq<(K, V)>)
    requires DistinctKeys(ps)
    ensures forall i :: 0 <= i < |ps| ==> ps[i].0 in FromPairs(ps) && FromPairs(ps)[ps[i].0] == ps[i].1
    ensures forall k :: k in FromPairs(ps) ==> exists i :: 0 <= i < |ps| && ps[i].0 == k
  {
    if ps != [] {
      var front := ps[..|ps| - 1];
      FromPairsEntries(front);
      forall k | k in FromPairs(ps) ensures exists i :: 0 <= i < |ps| && ps[i].0 == k {
        if k == ps[|ps| - 1].0 {
          assert ps[|ps| - 1].0 == k;
        } else {
          assert FromPairs(ps) == FromPairs(front)[ps[|ps| - 1].0 := ps[|ps| - 1].1];
          assert k in FromPairs(front);
          var i :| 0 <= i < |front| && front[i].0 == k;
          assert ps[i].0 == k;
        }
      }
    }
  }

  lemma EnumerationRestored<K, V>(ps: seq<(K, V)>, m: map<K, V>)
    requires Enumerates(ps, m)
    ensures FromPairs(ps) == m
  {
    FromPairsEntries(ps);
  }

  /** What a load keeps of its records: at most one entry for each of them, with a value one of them had. */
  lemma {:induction false} FromPairsOrigin<K, V>(ps: seq<(K, V)>)
    ensures |FromPairs(ps)| <= |ps|
    ensures forall k :: k in FromPairs(ps) ==> exists i :: 0 <= i < |ps| && ps[i] == (k, FromPairs(ps)[k])
  {
    if ps != [] {
      var front, last := ps[..|ps| - 1], ps[|ps| - 1];
      FromPairsOrigin(front);
      var m := FromPairs(front);
      assert FromPairs(ps) == m[last.0 := last.1];
      assert m[last.0 := last.1].Keys == m.Keys + {last.0};
      forall k | k in FromPairs(ps) ensures exists i :: 0 <= i < |ps| && ps[i] == (k, FromPairs(ps)[k]) {
        if k == last.0 {
          assert ps[|ps| - 1] == (k, FromPairs(ps)[k]);
        } else {
          var i :| 0 <= i < |front| && front[i] == (k, m[k]);
          assert ps[i] == (k, FromPairs(ps)[k]);
        }
      }
    }
  }

  /** Iteration over a map: `ps` has been visited, the keys in `remaining` are still to come. */
  ghost predicate Visited<K, V>(ps: seq<(K, V)>, m: map<K, V>, remaining: set<K>) {
    && remaining <= m.Keys && |ps| + |remaining| == |m| && DistinctKeys(ps)
    && (forall i :: 0 <= i < |ps| ==> ps[i].0 in m && ps[i].0 !in remaining && m[ps[i].0] == ps[i].1)
    && (forall k :: k in m && k !in remaining ==> exists i :: 0 <= i < |ps| && ps[i].0 == k)
  }

  lemma VisitNone<K, V>(m: map<K, V>)
    ensures Visited([], m, m.Keys)
  {
    assert |m.Keys| == |m|;
  }

  lemma VisitOne<K, V>(ps: seq<(K, V)>, m: map<K, V>, remaining: set<K>, k: K)
    requires Visited(ps, m, remaining) && k in remaining
    ensures Visited(ps + [(k, m[k])], m, remaining - {k})
  {
    var longer := ps + [(k, m[k])];
    forall q | q in m && q !in remaining - {k} ensures exists i :: 0 <= i < |longer| && longer[i].0 == q {
      if q == k {
        assert longer[|ps|].0 == q;
      } else {
        var i :| 0 <= i < |ps| && ps[i].0 == q;
        assert longer[i].0 == q;
      }
    }
  }

  lemma VisitAll<K, V>(ps: seq<(K, V)>, m: map<K, V>)
    requires Visited(ps, m, {})
    ensures Enumerates(ps, m)
  {
  }

  // ---------------------------------------------------------------------------
  // Loop invariants
  // ---------------------------------------------------------------------------

  lemma ManyNone<T>(enc: T -> Bytes)
    ensures Many(enc, []) == []
  {
  }

  lemma {:induction false} ManyAppend<T>(enc: T -> Bytes, xs: seq<T>, x: T)
    ensures Many(enc, xs + [x]) == Many(enc, xs) + enc(x)
  {
    if xs == [] {
      assert [] + [x] == [x];
    } else {
      assert (xs + [x])[1..] == xs[1..] + [x];
      ManyAppend(enc, xs[1..], x);
    }
  }

  lemma ManyNext<T>(enc: T -> Bytes, xs: seq<T>, i: nat)
    requires i < |xs|
    ensures Many(enc, xs[..i + 1]) == Many(enc, xs[..i]) + enc(xs[i])
  {
    assert xs[..i + 1] == xs[..i] + [xs[i]];
    ManyAppend(enc, xs[..i], xs[i]);
  }

  /** The items `done` have been read from `s`, and reading the others from `rest` completes the list. */
  ghost predicate ReadSoFar<T, E>(dec: Bytes -> Result<(T, Bytes), E>, n: nat, s: Bytes, done: seq<T>, rest: Bytes) {
    && |done| <= n
    && ParseMany(dec, n, s) == match ParseMany(dec, n - |done|, rest)
                               case Ok((more, end)) => Ok((done + more, end))
                               case Err(e) => Err(e)
  }

  lemma ReadNone<T, E>(dec: Bytes -> Result<(T, Bytes), E>, n: nat, s: Bytes)
    ensures ReadSoFar(dec, n, s, [], s)
  {
    var r := ParseMany(dec, n, s);
    if r.Ok? {
      assert [] + r.value.0 == r.value.0;
    }
  }

  lemma ReadOne<T, E>(dec: Bytes -> Result<(T, Bytes), E>, n: nat, s: Bytes, done: seq<T>, rest: Bytes)
    requires ReadSoFar(dec, n, s, done, rest) && |done| < n
    ensures dec(rest).Ok? ==> ReadSoFar(dec, n, s, done + [dec(rest).value.0], dec(rest).value.1)
    ensures dec(rest).Err? ==> ParseMany(dec, n, s) == Err(dec(rest).error)
  {
    if dec(rest).Ok? {
      var (x, after) := dec(rest).value;
      var more := ParseMany(dec, n - |done| - 1, after);
      if more.Ok? {
        assert done + ([x] + more.value.0) == done + [x] + more.value.0;
      }
    }
  }

  lemma ReadAll<T, E>(dec: Bytes -> Result<(T, Bytes), E>, n: nat, s: Bytes, done: seq<T>, rest: Bytes)
    requires ReadSoFar(dec, n, s, done, rest) && |done| == n
    ensures ParseMany(dec, n, s) == Ok((done, rest))
  {
    assert done + [] == done;
  }
}
