/** Byte strings and the std::string / container operations the repository relies on. */
module Sequences {

  type Byte = b: int | 0 <= b < 256
  type Bytes = seq<Byte>

  datatype Option<+T> = None | Some(value: T)

  /** Does pattern `d` occur in `s` at index `i`? */
  predicate OccursAt<T(==)>(s: seq<T>, d: seq<T>, i: nat) {
    i + |d| <= |s| && s[i..i + |d|] == d
  }

  /** std::string::find(d, from): the first occurrence at or after `from`. */
  function FindFrom<T(==)>(s: seq<T>, d: seq<T>, from: nat): (r: Option<nat>)
    ensures r.Some? ==> from <= r.value && r.value + |d| <= |s|
    ensures r.Some? ==> OccursAt(s, d, r.value)
    ensures r.Some? ==> forall j :: from <= j < r.value ==> !OccursAt(s, d, j)
    ensures r.None? ==> forall j :: from <= j ==> !OccursAt(s, d, j)
    decreases |s| - from
  {
    if from + |d| > |s| then None
    else if OccursAt(s, d, from) then Some(from)
    else FindFrom(s, d, from + 1)
  }

  function Find<T(==)>(s: seq<T>, d: seq<T>): Option<nat> {
    FindFrom(s, d, 0)
  }

  /** The result of a search is determined by what the search promises. */
  lemma FindIs<T>(s: seq<T>, d: seq<T>, i: nat)
    requires OccursAt(s, d, i)
    requires forall j :: 0 <= j < i ==> !OccursAt(s, d, j)
    ensures Find(s, d) == Some(i)
  {
  }

  /** Bytes that arrive later never move or hide an occurrence already found. */
  lemma FindAppend<T>(s: seq<T>, d: seq<T>, t: seq<T>)
    requires Find(s, d).Some?
    ensures Find(s + t, d) == Find(s, d)
  {
    var i := Find(s, d).value;
    assert (s + t)[i..i + |d|] == s[i..i + |d|];
    forall j | 0 <= j < i
      ensures !OccursAt(s + t, d, j)
    {
      assert (s + t)[j..j + |d|] == s[j..j + |d|];
      assert !OccursAt(s, d, j);
    }
    FindIs(s + t, d, i);
  }

  /** The last `c` of s[lo..hi], as an index. */
  function LastIndex<T(==)>(s: seq<T>, c: T, lo: nat, hi: nat): (r: Option<nat>)
    requires lo <= hi <= |s|
    ensures r.Some? ==> lo <= r.value < hi && s[r.value] == c
    ensures r.Some? ==> forall k :: r.value < k < hi ==> s[k] != c
    ensures r.None? ==> forall k :: lo <= k < hi ==> s[k] != c
    decreases hi
  {
    if lo == hi then None
    else if s[hi - 1] == c then Some(hi - 1)
    else LastIndex(s, c, lo, hi - 1)
  }

  function Flatten<T>(parts: seq<seq<T>>): seq<T> {
    if parts == [] then [] else parts[0] + Flatten(parts[1..])
  }

  lemma {:induction false} FlattenConcat<T>(a: seq<seq<T>>, b: seq<seq<T>>)
    ensures Flatten(a + b) == Flatten(a) + Flatten(b)
  {
    if a == [] {
      assert a + b == b;
    } else {
      assert (a + b)[1..] == a[1..] + b;
      FlattenConcat(a[1..], b);
    }
  }

  lemma FlattenSnoc<T>(a: seq<seq<T>>, x: seq<T>)
    ensures Flatten(a + [x]) == Flatten(a) + x
  {
    FlattenConcat(a, [x]);
    assert [x][1..] == [];
  }

  function Map<A, B>(f: A -> B, s: seq<A>): (r: seq<B>)
    ensures |r| == |s|
    ensures forall i :: 0 <= i < |s| ==> r[i] == f(s[i])
  {
    if s == [] then [] else [f(s[0])] + Map(f, s[1..])
  }
}
