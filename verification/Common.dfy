// Sequence vocabulary shared by the component models, in the terms of the
// JavaScript array and buffer operations the sources are written with.
module Common {

  newtype byte = b: int | 0 <= b < 256

  datatype Option<+T> = None | Some(value: T)

  datatype Result<+T, +E> = Ok(value: T) | Err(error: E)

  function Max(a: int, b: int): int {
    if a < b then b else a
  }

  function Min(a: int, b: int): int {
    if a < b then a else b
  }

  predicate Distinct<T(==)>(s: seq<T>) {
    forall i, j :: 0 <= i < j < |s| ==> s[i] != s[j]
  }

  /** The last n elements of s, or all of s when it is shorter. */
  function LastN<T>(s: seq<T>, n: nat): seq<T> {
    if |s| <= n then s else s[|s| - n..]
  }

  /** Dropping to the last n after every extension loses nothing the final cut keeps. */
  lemma LastNOfExtension<T>(s: seq<T>, t: seq<T>, n: nat)
    ensures LastN(LastN(s, n) + t, n) == LastN(s + t, n)
  {
  }

  /** An index as Array.prototype.slice reads it: negative counts from the end, then clamped. */
  function SliceIndex(i: int, length: nat): (k: nat)
    ensures k <= length
  {
    if i < 0 then Max(length + i, 0) else Min(i, length)
  }

  /** Array.prototype.slice(start, end). */
  function JsSlice<T>(s: seq<T>, start: int, end: int): seq<T> {
    var lo := SliceIndex(start, |s|);
    var hi := SliceIndex(end, |s|);
    if lo < hi then s[lo..hi] else []
  }

  function Reverse<T>(s: seq<T>): (r: seq<T>)
    ensures |r| == |s|
    ensures forall i :: 0 <= i < |s| ==> r[i] == s[|s| - 1 - i]
  {
    seq(|s|, i requires 0 <= i < |s| => s[|s| - 1 - i])
  }

  lemma ReverseOfConcat<T>(a: seq<T>, b: seq<T>)
    ensures Reverse(a + b) == Reverse(b) + Reverse(a)
  {
  }

  lemma ConcatAssociates<T>(a: seq<T>, b: seq<T>, c: seq<T>)
    ensures (a + b) + c == a + (b + c)
  {
  }

  lemma SplitLast<T>(s: seq<T>)
    requires s != []
    ensures s == s[..|s| - 1] + [s[|s| - 1]]
  {
  }

  /** Buffer.concat and Array.prototype.flat: the pieces in order. */
  function Flatten<T>(pieces: seq<seq<T>>): seq<T> {
    if pieces == [] then [] else pieces[0] + Flatten(pieces[1..])
  }

  lemma FlattenOfNothing<T>()
    ensures Flatten<T>([]) == []
  {
  }

  lemma {:induction false} FlattenOfConcat<T>(a: seq<seq<T>>, b: seq<seq<T>>)
    ensures Flatten(a + b) == Flatten(a) + Flatten(b)
  {
    if a == [] {
      assert a + b == b;
    } else {
      FlattenOfConcat(a[1..], b);
      assert (a + b)[0] == a[0] && (a + b)[1..] == a[1..] + b;
      ConcatAssociates(a[0], Flatten(a[1..]), Flatten(b));
    }
  }

  lemma FlattenOfAppend<T>(a: seq<seq<T>>, piece: seq<T>)
    ensures Flatten(a + [piece]) == Flatten(a) + piece
  {
    FlattenOfConcat(a, [piece]);
    assert Flatten([piece]) == piece;
  }

  /** Array.prototype.filter. */
  function Filter<T>(keep: T -> bool, s: seq<T>): (r: seq<T>)
    ensures |r| <= |s|
  {
    if s == [] then []
    else
      var init, last := s[..|s| - 1], s[|s| - 1];
      if keep(last) then Filter(keep, init) + [last] else Filter(keep, init)
  }

  lemma NothingFiltered<T>(keep: T -> bool)
    ensures Filter(keep, []) == []
  {
  }

  lemma FilterOfAppend<T>(keep: T -> bool, s: seq<T>, x: T)
    ensures Filter(keep, s + [x]) == if keep(x) then Filter(keep, s) + [x] else Filter(keep, s)
  {
    assert (s + [x])[..|s|] == s;
  }

  lemma FilterOfOne<T>(keep: T -> bool, x: T)
    ensures Filter(keep, [x]) == if keep(x) then [x] else []
  {
    assert [x] == [] + [x];
    FilterOfAppend(keep, [], x);
  }

  lemma {:induction false} FilterOfConcat<T>(keep: T -> bool, a: seq<T>, b: seq<T>)
    ensures Filter(keep, a + b) == Filter(keep, a) + Filter(keep, b)
  {
    if b == [] {
      assert a + b == a;
    } else {
      hide Filter;
      var init, last := b[..|b| - 1], b[|b| - 1];
      FilterOfConcat(keep, a, init);
      FilterOfAppend(keep, a + init, last);
      FilterOfAppend(keep, init, last);
      SplitLast(b);
      ConcatAssociates(a, init, [last]);
      ConcatAssociates(Filter(keep, a), Filter(keep, init), [last]);
    }
  }

  lemma {:induction false} FilterMembers<T>(keep: T -> bool, s: seq<T>, x: T)
    ensures x in Filter(keep, s) <==> x in s && keep(x)
  {
    if s != [] {
      FilterMembers(keep, s[..|s| - 1], x);
      SplitLast(s);
    }
  }

  lemma {:induction false} FilterCommutes<T>(p: T -> bool, q: T -> bool, s: seq<T>)
    ensures Filter(p, Filter(q, s)) == Filter(q, Filter(p, s))
  {
    if s != [] {
      var init, last := s[..|s| - 1], s[|s| - 1];
      FilterCommutes(p, q, init);
      FilterOfAppend(p, Filter(q, init), last);
      FilterOfAppend(q, Filter(p, init), last);
    }
  }

  /** Filtering by a test that another one implies keeps what the stricter one keeps. */
  lemma {:induction false} StricterFilterWins<T(!new)>(strict: T -> bool, loose: T -> bool, s: seq<T>)
    requires forall x :: strict(x) ==> loose(x)
    ensures Filter(strict, Filter(loose, s)) == Filter(strict, s)
  {
    if s != [] {
      var init, last := s[..|s| - 1], s[|s| - 1];
      StricterFilterWins(strict, loose, init);
      FilterOfAppend(strict, Filter(loose, init), last);
    }
  }
}
