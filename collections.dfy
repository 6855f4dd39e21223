/** Option/Result wrappers and the two array operations the application leans on:
    `find`/`findIndex` (first element satisfying a predicate) and `filter`. */
module Collections {

  datatype Option<+T> = None | Some(value: T)

  /** The outcome of an operation that throws in the source: `Failure` carries the reason. */
  datatype Result<+T, +E> = Success(value: T) | Failure(error: E)

  /** Index of the first element satisfying `p`, as `Array.prototype.findIndex`
      (`None` where the source gets -1 or `undefined`). */
  function FindFirst<T>(s: seq<T>, p: T -> bool): (r: Option<nat>)
    ensures r.Some? ==> r.value < |s| && p(s[r.value])
    ensures r.Some? ==> forall j :: 0 <= j < r.value ==> !p(s[j])
    ensures r.None? <==> forall j :: 0 <= j < |s| ==> !p(s[j])
  {
    if s == [] then None
    else if p(s[0]) then Some(0)
    else
      match FindFirst(s[1..], p)
      case None => None
      case Some(k) => Some(k + 1)
  }

  /** The elements of `s` satisfying `p`, in their original order, as `Array.prototype.filter`. */
  function Filter<T>(s: seq<T>, p: T -> bool): (r: seq<T>)
    ensures |r| <= |s|
    ensures forall i :: 0 <= i < |r| ==> r[i] in s && p(r[i])
    ensures forall i :: 0 <= i < |s| && p(s[i]) ==> s[i] in r
  {
    if s == [] then []
    else
      var init, last := s[..|s| - 1], s[|s| - 1];
      assert s == init + [last];
      Filter(init, p) + (if p(last) then [last] else [])
  }

  /** Filtering distributes over concatenation: the kept elements stay in their original order. */
  lemma {:induction false} FilterAppend<T>(a: seq<T>, b: seq<T>, p: T -> bool)
    ensures Filter(a + b, p) == Filter(a, p) + Filter(b, p)
    decreases |b|
  {
    if b == [] {
      assert a + b == a;
    } else {
      var init, last := b[..|b| - 1], b[|b| - 1];
      assert (a + b)[..|a + b| - 1] == a + init;
      assert (a + b)[|a + b| - 1] == last;
      FilterAppend(a, init, p);
    }
  }

  /** Filtering one more element keeps it exactly when it satisfies `p`. */
  lemma FilterSnoc<T>(s: seq<T>, x: T, p: T -> bool)
    ensures Filter(s + [x], p) == Filter(s, p) + (if p(x) then [x] else [])
  {
    var t := s + [x];
    assert t[..|t| - 1] == s;
    assert t[|t| - 1] == x;
  }

  /** A filter that keeps everything is the identity. */
  lemma {:induction false} FilterKeepsAll<T>(s: seq<T>, p: T -> bool)
    requires forall j :: 0 <= j < |s| ==> p(s[j])
    ensures Filter(s, p) == s
    decreases |s|
  {
    if s != [] {
      var init, last := s[..|s| - 1], s[|s| - 1];
      assert forall j :: 0 <= j < |init| ==> p(init[j]) by {
        assert forall j :: 0 <= j < |init| ==> init[j] == s[j];
      }
      FilterKeepsAll(init, p);
      assert p(last);
      assert Filter(s, p) == Filter(init, p) + [last];
      assert s == init + [last];
    }
  }

  /** A filter that keeps nothing gives the empty sequence. */
  lemma {:induction false} FilterKeepsNone<T>(s: seq<T>, p: T -> bool)
    requires forall j :: 0 <= j < |s| ==> !p(s[j])
    ensures Filter(s, p) == []
    decreases |s|
  {
    if s != [] {
      FilterKeepsNone(s[..|s| - 1], p);
    }
  }

  /** The number of elements of `s` satisfying `p`, which is what a filter keeps. */
  function Count<T>(s: seq<T>, p: T -> bool): (n: nat)
  {
    if s == [] then 0 else Count(s[..|s| - 1], p) + (if p(s[|s| - 1]) then 1 else 0)
  }

  lemma {:induction false} FilterLength<T>(s: seq<T>, p: T -> bool)
    ensures |Filter(s, p)| == Count(s, p)
    decreases |s|
  {
    if s != [] {
      FilterLength(s[..|s| - 1], p);
    }
  }

  /** `s` with the element at `i` taken out, as `splice(i, 1)`. */
  function RemoveAt<T>(s: seq<T>, i: nat): (r: seq<T>)
    requires i < |s|
    ensures |r| == |s| - 1
    ensures forall j :: 0 <= j < i ==> r[j] == s[j]
    ensures forall j :: i <= j < |r| ==> r[j] == s[j + 1]
  {
    s[..i] + s[i + 1..]
  }

  /** Finding the first match in an extended sequence: the old match, else the new element. */
  lemma {:induction false} FindFirstAppend<T>(s: seq<T>, x: T, p: T -> bool)
    ensures FindFirst(s + [x], p)
      == if FindFirst(s, p).Some? then FindFirst(s, p) else if p(x) then Some(|s|) else None
    decreases |s|
  {
    var t := s + [x];
    if s == [] {
      assert t == [x] && t[1..] == [];
    } else {
      assert t[0] == s[0] && t[1..] == s[1..] + [x];
      FindFirstAppend(s[1..], x, p);
    }
  }

  /** `FindFirst` depends only on where the predicate holds. */
  lemma FindFirstSameTruth<T>(s: seq<T>, t: seq<T>, p: T -> bool)
    requires |s| == |t|
    requires forall j :: 0 <= j < |s| ==> p(s[j]) == p(t[j])
    ensures FindFirst(s, p) == FindFirst(t, p)
  {
  }

  /** An insertion-ordered dictionary (a JavaScript `Map`, or an object with string keys) held as
      the sequence of its entries; `key` reads an entry's key. */
  function KeyIs<T, K(==)>(key: T -> K, k: K): T -> bool
  {
    x => key(x) == k
  }

  function IndexOf<T, K(==)>(s: seq<T>, key: T -> K, k: K): Option<nat>
  {
    FindFirst(s, KeyIs(key, k))
  }

  /** `map.get(k)`. */
  function Find<T, K(==)>(s: seq<T>, key: T -> K, k: K): (r: Option<T>)
    ensures r.Some? ==> r.value in s && key(r.value) == k
    ensures r.None? <==> forall j :: 0 <= j < |s| ==> key(s[j]) != k
  {
    match IndexOf(s, key, k)
    case Some(i) => Some(s[i])
    case None => None
  }

  predicate KeysDistinct<T, K(==)>(s: seq<T>, key: T -> K)
  {
    forall i, j :: 0 <= i < j < |s| ==> key(s[i]) != key(s[j])
  }

  /** `if (!map.has(k)) map.set(k, initial); update(map.get(k))`: the entry for `k` is updated in
      place, or `initial` is appended when there is none. */
  function Upsert<T, K(==)>(s: seq<T>, key: T -> K, k: K, update: T -> T, initial: T): seq<T>
  {
    match IndexOf(s, key, k)
    case Some(i) => s[i := update(s[i])]
    case None => s + [initial]
  }

  /** After an upsert the entry for `k` is the updated old entry, or `initial`; every other key
      reads as before; keys stay distinct. */
  lemma UpsertFind<T, K>(s: seq<T>, key: T -> K, k: K, update: T -> T, initial: T)
    requires KeysDistinct(s, key)
    requires key(initial) == k
    requires forall x :: key(update(x)) == key(x)
    ensures KeysDistinct(Upsert(s, key, k, update, initial), key)
    ensures Find(Upsert(s, key, k, update, initial), key, k)
      == Some(if Find(s, key, k).Some? then update(Find(s, key, k).value) else initial)
    ensures forall k' :: k' != k ==> Find(Upsert(s, key, k, update, initial), key, k') == Find(s, key, k')
  {
    var r := Upsert(s, key, k, update, initial);
    match IndexOf(s, key, k)
    case Some(i) =>
      assert key(r[i]) == key(s[i]);
      forall k' ensures IndexOf(r, key, k') == IndexOf(s, key, k') {
        FindFirstSameTruth(r, s, KeyIs(key, k'));
      }
    case None =>
      forall k' ensures IndexOf(r, key, k')
        == if IndexOf(s, key, k').Some? then IndexOf(s, key, k') else if key(initial) == k' then Some(|s|) else None
      {
        FindFirstAppend(s, initial, KeyIs(key, k'));
      }
      forall i | 0 <= i < |s| ensures key(s[i]) != k {
      }
  }

  /** With distinct keys, looking up an entry's own key finds that entry. */
  lemma FindOwnKey<T, K>(s: seq<T>, key: T -> K, i: nat)
    requires KeysDistinct(s, key) && i < |s|
    ensures Find(s, key, key(s[i])) == Some(s[i])
  {
    assert KeyIs(key, key(s[i]))(s[i]);
  }
}
